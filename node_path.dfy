/**
 * Node's POSIX path.basename(path, suffix), on the inputs a repository URL
 * can take: trailing separators are ignored, the text after the last '/'
 * is taken, and the suffix is removed from it only when it is a proper
 * suffix (the segment is longer than the suffix). A path that equals the
 * suffix itself yields the empty string, as in Node.
 */
module NodePath {
  import opened JsText

  /** p without its trailing run of '/' characters. */
  function StripTrailingSlashes(p: string): string {
    if |p| > 0 && p[|p| - 1] == '/' then StripTrailingSlashes(p[..|p| - 1]) else p
  }

  /** A run of n separators. */
  function Slashes(n: nat): (r: string)
    ensures |r| == n
  {
    if n == 0 then "" else Slashes(n - 1) + "/"
  }

  /** seg ends with ext and is strictly longer than it. */
  predicate HasProperSuffix(seg: string, ext: string) {
    |ext| < |seg| && seg[|seg| - |ext|..] == ext
  }

  function Basename(p: string, ext: string): (r: string)
    ensures '/' !in r
  {
    if ext != "" && p == ext then ""
    else
      var seg := LastSegment(StripTrailingSlashes(p), '/');
      LastSegmentSplit(StripTrailingSlashes(p), '/');
      if HasProperSuffix(seg, ext) then seg[..|seg| - |ext|] else seg
  }

  /**
   * For a path that (after its trailing separators) ends in a non-empty
   * segment without '/', the base name is that segment, with ext removed
   * when ext is a proper suffix of it.
   */
  lemma BasenameOfSegment(dir: string, seg: string, trailing: nat, ext: string)
    requires '/' !in seg && seg != ""
    requires '/' !in ext
    ensures var p := dir + "/" + seg + Slashes(trailing);
      Basename(p, ext) == if HasProperSuffix(seg, ext) then seg[..|seg| - |ext|] else seg
  {
    var slashes := Slashes(trailing);
    var p := dir + "/" + seg + slashes;
    assert p[|dir|] == '/';
    assert p[|dir|] in p;
    StripSlashRun(dir + "/" + seg, trailing);
    assert dir + "/" + seg == dir + ['/'] + seg;
    LastSegmentAfterSep(dir, seg, '/');
  }

  /** Appending a run of '/' to a path that does not end with '/' is undone by stripping. */
  lemma {:induction false} StripSlashRun(q: string, trailing: nat)
    requires q != [] && q[|q| - 1] != '/'
    ensures StripTrailingSlashes(q + Slashes(trailing)) == q
    decreases trailing
  {
    var p := q + Slashes(trailing);
    if trailing > 0 {
      assert p[..|p| - 1] == q + Slashes(trailing - 1);
      StripSlashRun(q, trailing - 1);
    } else {
      assert p == q;
    }
  }
}
