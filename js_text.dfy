/**
 * The JavaScript string operations the synchronizer relies on:
 * String.prototype.trim, split and join with a one-character separator,
 * slice(1), and String.prototype.replace with a string pattern.
 * Strings are sequences of characters; no Unicode normalisation is involved.
 */
module JsText {
  import opened Optional

  /** WhiteSpace and LineTerminator code points of ECMAScript, the set trim removes. */
  predicate IsSpace(c: char) {
    c == '\t' || c == '\n' || c == '\U{000B}' || c == '\U{000C}' || c == '\r' ||
    c == ' ' || c == '\U{00A0}' || c == '\U{1680}' ||
    ('\U{2000}' <= c <= '\U{200A}') ||
    c == '\U{2028}' || c == '\U{2029}' || c == '\U{202F}' || c == '\U{205F}' ||
    c == '\U{3000}' || c == '\U{FEFF}'
  }

  /** Leading white space removed. */
  function TrimStart(s: string): string {
    if |s| > 0 && IsSpace(s[0]) then TrimStart(s[1..]) else s
  }

  /** Trailing white space removed. */
  function TrimEnd(s: string): string {
    if |s| > 0 && IsSpace(s[|s| - 1]) then TrimEnd(s[..|s| - 1]) else s
  }

  /** TrimStart keeps the longest suffix of s that does not start with white space. */
  lemma {:induction false} TrimStartSpec(s: string)
    ensures var r := TrimStart(s);
      |r| <= |s| && r == s[|s| - |r|..] &&
      (r == [] || !IsSpace(r[0])) &&
      forall k :: 0 <= k < |s| - |r| ==> IsSpace(s[k])
    decreases |s|
  {
    if |s| > 0 && IsSpace(s[0]) {
      TrimStartSpec(s[1..]);
      var r := TrimStart(s);
      forall k | 0 <= k < |s| - |r| ensures IsSpace(s[k]) {
        if k > 0 { assert s[k] == s[1..][k - 1]; }
      }
    }
  }

  /** TrimEnd keeps the longest prefix of s that does not end with white space. */
  lemma {:induction false} TrimEndSpec(s: string)
    ensures var r := TrimEnd(s);
      |r| <= |s| && r == s[..|r|] &&
      (r == [] || !IsSpace(r[|r| - 1])) &&
      forall k :: |r| <= k < |s| ==> IsSpace(s[k])
    decreases |s|
  {
    if |s| > 0 && IsSpace(s[|s| - 1]) {
      TrimEndSpec(s[..|s| - 1]);
      var r := TrimEnd(s);
      forall k | |r| <= k < |s| ensures IsSpace(s[k]) {
        if k < |s| - 1 { assert s[k] == s[..|s| - 1][k]; }
      }
    }
  }

  /** String.prototype.trim. */
  function Trim(s: string): string {
    TrimEnd(TrimStart(s))
  }

  /** A string with no white space at either end is its own trim. */
  lemma TrimUnchanged(s: string)
    requires s == [] || (!IsSpace(s[0]) && !IsSpace(s[|s| - 1]))
    ensures Trim(s) == s
  {
  }

  /** The result of trim starts and ends with a character that is not white space. */
  lemma TrimEnds(s: string)
    ensures Trim(s) == [] || (!IsSpace(Trim(s)[0]) && !IsSpace(Trim(s)[|Trim(s)| - 1]))
  {
    TrimStartSpec(s);
    TrimEndSpec(TrimStart(s));
  }

  /** str.split(sep) for a one-character separator: never empty, no piece holds sep. */
  function Split(s: string, sep: char): (parts: seq<string>)
    ensures |parts| >= 1
  {
    if |s| == 0 then [""]
    else
      var rest := Split(s[1..], sep);
      if s[0] == sep then [""] + rest
      else [[s[0]] + rest[0]] + rest[1..]
  }

  /** No part of a split holds the separator. */
  lemma {:induction false} SplitPartsNoSep(s: string, sep: char)
    ensures forall i :: 0 <= i < |Split(s, sep)| ==> sep !in Split(s, sep)[i]
    decreases |s|
  {
    if |s| > 0 {
      SplitPartsNoSep(s[1..], sep);
      var rest := Split(s[1..], sep);
      if s[0] != sep {
        assert sep !in [s[0]] + rest[0];
      }
    }
  }

  /** arr.join(sep); the empty array joins to the empty string. */
  function Join(parts: seq<string>, sep: char): string {
    if |parts| == 0 then ""
    else if |parts| == 1 then parts[0]
    else parts[0] + [sep] + Join(parts[1..], sep)
  }

  /** s.split(sep).slice(-1)[0]: the text after the last separator. */
  function LastSegment(s: string, sep: char): string {
    var parts := Split(s, sep);
    parts[|parts| - 1]
  }

  /** s.slice(1): the string without its first character ("" stays ""). */
  function SliceFrom1(s: string): (r: string)
    ensures s == [] ==> r == []
    ensures s != [] ==> s == [s[0]] + r
  {
    if |s| == 0 then "" else s[1..]
  }

  lemma {:induction false} JoinSplit(s: string, sep: char)
    ensures Join(Split(s, sep), sep) == s
    decreases |s|
  {
    if |s| > 0 {
      var rest := Split(s[1..], sep);
      JoinSplit(s[1..], sep);
      if s[0] == sep {
        assert Split(s, sep) == [""] + rest;
        assert ([""] + rest)[1..] == rest;
        assert s == [s[0]] + s[1..];
      } else {
        var parts := Split(s, sep);
        assert parts == [[s[0]] + rest[0]] + rest[1..];
        if |rest| == 1 {
          assert s == [s[0]] + s[1..];
        } else {
          assert parts[1..] == rest[1..];
          assert Join(rest, sep) == rest[0] + [sep] + Join(rest[1..], sep);
          assert s == [s[0]] + s[1..];
        }
      }
    }
  }

  lemma {:induction false} SplitNoSep(s: string, sep: char)
    requires sep !in s
    ensures Split(s, sep) == [s]
    decreases |s|
  {
    if |s| > 0 {
      SplitNoSep(s[1..], sep);
      assert s == [s[0]] + s[1..];
    }
  }

  /** Splitting at a separator splits each side independently. */
  lemma {:induction false} SplitAtSep(a: string, b: string, sep: char)
    ensures Split(a + [sep] + b, sep) == Split(a, sep) + Split(b, sep)
    decreases |a|
  {
    if |a| == 0 {
      assert a + [sep] + b == [sep] + b;
      SplitCons(sep, b, sep);
    } else {
      var c, a' := a[0], a[1..];
      assert a == [c] + a';
      assert a + [sep] + b == [c] + (a' + [sep] + b);
      SplitAtSep(a', b, sep);
      SplitAtSepStep(c, a', b, sep);
    }
  }

  /** One more leading character keeps split distributing over the separator. */
  lemma SplitAtSepStep(c: char, a: string, b: string, sep: char)
    requires Split(a + [sep] + b, sep) == Split(a, sep) + Split(b, sep)
    ensures Split([c] + (a + [sep] + b), sep) == Split([c] + a, sep) + Split(b, sep)
  {
    if c == sep {
      SplitAtSepStepSep(a, b, sep);
    } else {
      SplitAtSepStepOther(c, a, b, sep);
    }
  }

  lemma SplitAtSepStepSep(a: string, b: string, sep: char)
    requires Split(a + [sep] + b, sep) == Split(a, sep) + Split(b, sep)
    ensures Split([sep] + (a + [sep] + b), sep) == Split([sep] + a, sep) + Split(b, sep)
  {
    var ra, sb := Split(a, sep), Split(b, sep);
    calc {
      Split([sep] + (a + [sep] + b), sep);
    == { SplitCons(sep, a + [sep] + b, sep); }
      [""] + (ra + sb);
    ==
      ([""] + ra) + sb;
    == { SplitCons(sep, a, sep); }
      Split([sep] + a, sep) + sb;
    }
  }

  lemma SplitAtSepStepOther(c: char, a: string, b: string, sep: char)
    requires c != sep
    requires Split(a + [sep] + b, sep) == Split(a, sep) + Split(b, sep)
    ensures Split([c] + (a + [sep] + b), sep) == Split([c] + a, sep) + Split(b, sep)
  {
    var ra, sb := Split(a, sep), Split(b, sep);
    var rest := Split(a + [sep] + b, sep);
    calc {
      Split([c] + (a + [sep] + b), sep);
    == { SplitCons(c, a + [sep] + b, sep); }
      [[c] + rest[0]] + rest[1..];
    == { AppendHeadTail(ra, sb); }
      [[c] + ra[0]] + (ra[1..] + sb);
    ==
      ([[c] + ra[0]] + ra[1..]) + sb;
    == { SplitCons(c, a, sep); }
      Split([c] + a, sep) + sb;
    }
  }

  /** The head and tail of a concatenation whose left part is not empty. */
  lemma AppendHeadTail<T>(x: seq<T>, y: seq<T>)
    requires |x| >= 1
    ensures (x + y)[0] == x[0]
    ensures (x + y)[1..] == x[1..] + y
  {
    assert x == [x[0]] + x[1..];
  }

  /** How split treats the first character. */
  lemma SplitCons(c: char, s: string, sep: char)
    ensures Split([c] + s, sep) ==
      if c == sep then [""] + Split(s, sep)
      else [[c] + Split(s, sep)[0]] + Split(s, sep)[1..]
  {
    assert ([c] + s)[0] == c;
    assert ([c] + s)[1..] == s;
  }

  /** split undoes join when no piece holds the separator. */
  lemma {:induction false} SplitJoin(parts: seq<string>, sep: char)
    requires |parts| >= 1
    requires forall i :: 0 <= i < |parts| ==> sep !in parts[i]
    ensures Split(Join(parts, sep), sep) == parts
    decreases |parts|
  {
    if |parts| == 1 {
      SplitNoSep(parts[0], sep);
    } else {
      SplitJoin(parts[1..], sep);
      SplitAtSep(parts[0], Join(parts[1..], sep), sep);
      SplitNoSep(parts[0], sep);
      assert parts == [parts[0]] + parts[1..];
    }
  }

  lemma {:induction false} JoinSnoc(parts: seq<string>, x: string, sep: char)
    requires |parts| >= 1
    ensures Join(parts + [x], sep) == Join(parts, sep) + [sep] + x
    decreases |parts|
  {
    if |parts| == 1 {
      assert parts + [x] == [parts[0], x];
    } else {
      assert (parts + [x])[1..] == parts[1..] + [x];
      JoinSnoc(parts[1..], x, sep);
    }
  }

  /**
   * The last segment holds no separator, and the string is either that
   * segment alone (no separator in it) or some prefix, a separator, and
   * the segment.
   */
  lemma LastSegmentSplit(s: string, sep: char)
    ensures sep !in LastSegment(s, sep)
    ensures sep !in s ==> LastSegment(s, sep) == s
    ensures sep in s ==>
      var parts := Split(s, sep);
      s == Join(parts[..|parts| - 1], sep) + [sep] + LastSegment(s, sep)
  {
    var parts := Split(s, sep);
    var n := |parts|;
    JoinSplit(s, sep);
    SplitPartsNoSep(s, sep);
    if n == 1 {
      assert s == parts[0];
    } else {
      var init := parts[..n - 1];
      assert parts == init + [parts[n - 1]];
      JoinSnoc(init, parts[n - 1], sep);
      assert s[|Join(init, sep)|] == sep;
    }
  }

  /** The segment after a final separator is whatever follows it. */
  lemma LastSegmentAfterSep(a: string, b: string, sep: char)
    requires sep !in b
    ensures LastSegment(a + [sep] + b, sep) == b
  {
    SplitAtSep(a, b, sep);
    SplitNoSep(b, sep);
  }

  /** The last segment is empty exactly when s is empty or ends with the separator. */
  lemma LastSegmentEmpty(s: string, sep: char)
    ensures LastSegment(s, sep) == "" <==> (s == "" || s[|s| - 1] == sep)
  {
    LastSegmentSplit(s, sep);
    var last := LastSegment(s, sep);
    if sep in s {
      var pre := Join(Split(s, sep)[..|Split(s, sep)| - 1], sep);
      assert s == pre + [sep] + last;
      if last != "" {
        assert s[|s| - 1] == last[|last| - 1];
        assert last[|last| - 1] in last;
      }
    }
  }

  /** pat occurs in s starting at index j. */
  predicate OccursAt(s: string, pat: string, j: nat) {
    j + |pat| <= |s| && s[j..j + |pat|] == pat
  }

  /** The first index at which pat occurs in s, if any (String.prototype.indexOf). */
  function IndexOf(s: string, pat: string): (r: Option<nat>)
    ensures r.Some? ==> OccursAt(s, pat, r.value)
    ensures r.Some? ==> forall j: nat :: j < r.value ==> !OccursAt(s, pat, j)
    ensures r.None? ==> forall j: nat :: !OccursAt(s, pat, j)
    decreases |s|
  {
    if |s| < |pat| then None
    else if s[..|pat|] == pat then Some(0)
    else
      var tail := IndexOf(s[1..], pat);
      assert forall j: nat :: 0 < j ==> (OccursAt(s, pat, j) <==> OccursAt(s[1..], pat, j - 1)) by {
        forall j: nat | 0 < j ensures OccursAt(s, pat, j) <==> OccursAt(s[1..], pat, j - 1) {
          if j + |pat| <= |s| {
            var shifted, here := s[1..][j - 1..j - 1 + |pat|], s[j..j + |pat|];
            forall t | 0 <= t < |pat| ensures shifted[t] == here[t] {
              assert s[1..][j - 1 + t] == s[j + t];
            }
            assert shifted == here;
          }
        }
      }
      match tail
      case None => None
      case Some(i) => Some(i + 1)
  }

  /**
   * The replacement text of String.prototype.replace for a string pattern
   * (GetSubstitution with no capture groups): "$$" is "$", "$&" the matched
   * text, "$`" the text before the match, "$'" the text after it; every other
   * character, including any other "$", stands for itself.
   */
  function Substitute(rep: string, matched: string, before: string, after: string): string
  {
    if |rep| == 0 then ""
    else if |rep| >= 2 && rep[0] == '$' && IsPatternChar(rep[1]) then
      PatternText(rep[1], matched, before, after) + Substitute(rep[2..], matched, before, after)
    else [rep[0]] + Substitute(rep[1..], matched, before, after)
  }

  /** The characters that may follow '$' in a replacement pattern without capture groups. */
  predicate IsPatternChar(c: char) {
    c == '$' || c == '&' || c == '`' || c == '\''
  }

  /** The text a two-character replacement pattern "$c" stands for. */
  function PatternText(c: char, matched: string, before: string, after: string): string
    requires IsPatternChar(c)
  {
    if c == '$' then "$" else if c == '&' then matched else if c == '`' then before else after
  }

  /** A replacement without "$" is inserted verbatim. */
  lemma {:induction false} SubstitutePlain(rep: string, matched: string, before: string, after: string)
    requires '$' !in rep
    ensures Substitute(rep, matched, before, after) == rep
    decreases |rep|
  {
    if |rep| > 0 {
      assert rep[0] != '$';
      assert '$' !in rep[1..];
      SubstitutePlain(rep[1..], matched, before, after);
      assert rep == [rep[0]] + rep[1..];
    }
  }

  /**
   * Between two texts without '$', "$$" becomes "$", "$&" the matched text,
   * "$`" the text before the match and "$'" the text after it.
   */
  lemma {:induction false} SubstitutePattern(x: string, c: char, y: string, matched: string, before: string, after: string)
    requires '$' !in x && '$' !in y
    requires IsPatternChar(c)
    ensures Substitute(x + ['$', c] + y, matched, before, after) == x + PatternText(c, matched, before, after) + y
    decreases |x|
  {
    var p := ['$', c];
    var t := PatternText(c, matched, before, after);
    if x == [] {
      assert x + p + y == p + y;
      SubstitutePatternHead(c, y, matched, before, after);
    } else {
      assert '$' !in x[1..];
      calc {
        Substitute(x + p + y, matched, before, after);
      == { assert x + p + y == [x[0]] + (x[1..] + p + y);
           SubstituteCons(x[0], x[1..] + p + y, matched, before, after); }
        [x[0]] + Substitute(x[1..] + p + y, matched, before, after);
      == { SubstitutePattern(x[1..], c, y, matched, before, after); }
        [x[0]] + (x[1..] + t + y);
      == { assert x == [x[0]] + x[1..]; }
        x + t + y;
      }
    }
  }

  /** A pattern "$c" at the front of the replacement, followed by text without '$'. */
  lemma SubstitutePatternHead(c: char, y: string, matched: string, before: string, after: string)
    requires '$' !in y
    requires IsPatternChar(c)
    ensures Substitute(['$', c] + y, matched, before, after) == PatternText(c, matched, before, after) + y
  {
    var rep := ['$', c] + y;
    assert rep[2..] == y;
    SubstitutePlain(y, matched, before, after);
  }

  /** A leading character other than '$' stands for itself. */
  lemma SubstituteCons(ch: char, r: string, matched: string, before: string, after: string)
    requires ch != '$'
    ensures Substitute([ch] + r, matched, before, after) == [ch] + Substitute(r, matched, before, after)
  {
    var rep := [ch] + r;
    assert rep[0] == ch && rep[1..] == r;
  }

  /** s.replace(pat, rep) with a string pattern: only the first occurrence is replaced. */
  function ReplaceFirst(s: string, pat: string, rep: string): (r: string)
    ensures IndexOf(s, pat).None? ==> r == s
    ensures IndexOf(s, pat).Some? ==>
      var i := IndexOf(s, pat).value;
      var tail := s[i + |pat|..];
      |r| == i + |Substitute(rep, pat, s[..i], tail)| + |tail| &&
      r[..i] == s[..i] &&
      r[i..|r| - |tail|] == Substitute(rep, pat, s[..i], tail) &&
      r[|r| - |tail|..] == tail
  {
    match IndexOf(s, pat)
    case None => s
    case Some(i) =>
      s[..i] + Substitute(rep, pat, s[..i], s[i + |pat|..]) + s[i + |pat|..]
  }

  /**
   * Replacing with a text without '$' puts that text in place of the first
   * occurrence of the pattern and leaves everything else as it was.
   */
  lemma ReplaceFirstPlain(s: string, pat: string, rep: string, i: nat)
    requires '$' !in rep
    requires OccursAt(s, pat, i)
    requires forall j: nat :: j < i ==> !OccursAt(s, pat, j)
    ensures ReplaceFirst(s, pat, rep) == s[..i] + rep + s[i + |pat|..]
  {
    var tail := s[i + |pat|..];
    IndexOfFirst(s, pat, i);
    assert ReplaceFirst(s, pat, rep) == s[..i] + Substitute(rep, pat, s[..i], tail) + tail;
    SubstitutePlain(rep, pat, s[..i], tail);
  }

  /** The first index where the pattern occurs is what IndexOf finds. */
  lemma IndexOfFirst(s: string, pat: string, i: nat)
    requires OccursAt(s, pat, i)
    requires forall j: nat :: j < i ==> !OccursAt(s, pat, j)
    ensures IndexOf(s, pat) == Some(i)
  {
  }
}
