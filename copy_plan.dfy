/**
 * Copy planning: what `copy2app` and `copyFile` ask of the file system.
 * The file system is an abstract tree with '/' as separator; copying a
 * file is reduced to emitting a (source, target) pair, and `mkdirp.sync`
 * to emitting the directory it is asked to create.
 */
module CopyPlan {
  import opened Optional
  import opened JsText
  import opened Config
  import opened Identity

  const Sep: char := '/'

  /** An entry of a directory tree; a directory lists its entries in `readdir` order. */
  datatype Node = File(name: string) | Dir(name: string, entries: seq<Node>)

  /** Every entry below the node has a non-empty name without a separator. */
  predicate WellNamed(n: Node)
    decreases n
  {
    n.name != "" && Sep !in n.name &&
    (n.Dir? ==> forall k :: 0 <= k < |n.entries| ==> WellNamed(n.entries[k]))
  }

  /** The first entry of a listing with the given name. */
  function Find(entries: seq<Node>, name: string): (r: Option<Node>)
    ensures r.Some? ==> r.value in entries && r.value.name == name
    ensures r.None? ==> forall k :: 0 <= k < |entries| ==> entries[k].name != name
  {
    if entries == [] then None
    else if entries[0].name == name then Some(entries[0])
    else
      var r := Find(entries[1..], name);
      assert forall k :: 1 <= k < |entries| ==> entries[k] == entries[1..][k - 1];
      r
  }

  /** Find returns the entry at the first index carrying the name. */
  lemma {:induction false} FindFirst(entries: seq<Node>, name: string, k: nat)
    requires k < |entries| && entries[k].name == name
    requires forall j :: 0 <= j < k ==> entries[j].name != name
    ensures Find(entries, name) == Some(entries[k])
    decreases k
  {
    if k > 0 {
      assert entries[0].name != name;
      FindFirst(entries[1..], name, k - 1);
    }
  }

  /**
   * Follows path segments from a node; empty and "." segments stay in place
   * inside a directory, and any segment left over at a file fails (ENOTDIR).
   */
  function Resolve(node: Node, segs: seq<string>): Option<Node>
    decreases |segs|
  {
    if segs == [] then Some(node)
    else if node.File? then None
    else if segs[0] == "" || segs[0] == "." then Resolve(node, segs[1..])
    else
      match Find(node.entries, segs[0])
      case None => None
      case Some(child) => Resolve(child, segs[1..])
  }

  /** Resolving a concatenation resolves the first part, then the second from where it ends. */
  lemma {:induction false} ResolveAppend(node: Node, a: seq<string>, b: seq<string>)
    ensures Resolve(node, a + b) ==
      match Resolve(node, a)
      case None => None
      case Some(n) => Resolve(n, b)
    decreases |a|
  {
    if a == [] {
      assert a + b == b;
    } else {
      assert (a + b)[0] == a[0] && (a + b)[1..] == a[1..] + b;
      if node.Dir? && !(a[0] == "" || a[0] == ".") {
        match Find(node.entries, a[0])
        case None =>
        case Some(child) => ResolveAppend(child, a[1..], b);
      } else if node.Dir? {
        ResolveAppend(node, a[1..], b);
      }
    }
  }

  /** The entry a path names, relative to the working directory `root`. */
  function Lookup(root: Node, path: string): Option<Node> {
    Resolve(root, Split(path, Sep))
  }

  datatype Step =
    | Mkdirp(dir: string)              // mkdirp.sync(dir)
    | CopyPair(src: string, dst: string) // copy(src, dst): bytes and atime/mtime

  /**
   * The directory copyFile asks mkdirp for when `dst` does not exist:
   * `dst` itself when its last '/'-segment is empty, otherwise the
   * segments before the last one joined again.
   */
  function DirToCreate(dst: string): string {
    var parts := Split(dst, Sep);
    if parts[|parts| - 1] == "" then dst else Join(parts[..|parts| - 1], Sep)
  }

  /**
   * `dst` itself if it is empty or ends with the separator; otherwise `dst`
   * without its last segment and the separator before it, or "" when `dst`
   * has no separator.
   */
  lemma DirToCreateSpec(dst: string)
    ensures dst == "" || dst[|dst| - 1] == Sep ==> DirToCreate(dst) == dst
    ensures dst != "" && dst[|dst| - 1] != Sep && Sep in dst ==>
      dst == DirToCreate(dst) + [Sep] + LastSegment(dst, Sep) && LastSegment(dst, Sep) != ""
    ensures dst != "" && dst[|dst| - 1] != Sep && Sep !in dst ==> DirToCreate(dst) == ""
    ensures Sep !in LastSegment(dst, Sep)
  {
    LastSegmentEmpty(dst, Sep);
    LastSegmentSplit(dst, Sep);
    if Sep !in dst {
      SplitNoSep(dst, Sep);
    }
  }

  /** The mkdirp request a copyFile call makes, given which destinations exist. */
  function MkdirStep(dst: string, present: set<string>): seq<Step> {
    if dst in present then [] else [Mkdirp(DirToCreate(dst))]
  }

  /**
   * copyFile(src, dst) once the source is known to be `node`: a file is
   * copied to `dst` plus the source's last segment; a directory's entries
   * are visited in order, a subdirectory with `name + "/"` added to the
   * destination, a file with the destination unchanged.
   */
  function Walk(node: Node, src: string, dst: string, present: set<string>): seq<Step>
    decreases node, 1
  {
    MkdirStep(dst, present) +
    match node
    case File(_) => [CopyPair(src, dst + LastSegment(src, Sep))]
    case Dir(_, _) => WalkEntries(node, 0, src, dst, present)
  }

  /** The `list.forEach` over a directory's entries from index k on. */
  function WalkEntries(dir: Node, k: nat, src: string, dst: string, present: set<string>): seq<Step>
    requires dir.Dir? && k <= |dir.entries|
    decreases dir, 0, |dir.entries| - k
  {
    if k == |dir.entries| then []
    else
      var e := dir.entries[k];
      var tempDst := if e.Dir? then dst + e.name + [Sep] else dst;
      Walk(e, src + [Sep] + e.name, tempDst, present) + WalkEntries(dir, k + 1, src, dst, present)
  }

  /** copyFile(src, dst) against the tree `root`; a missing source yields only the mkdirp step. */
  function CopyFilePlan(root: Node, present: set<string>, src: string, dst: string): seq<Step> {
    match Lookup(root, src)
    case None => MkdirStep(dst, present)
    case Some(node) => Walk(node, src, dst, present)
  }

  /** The copy pairs of a plan, in order. */
  function Pairs(steps: seq<Step>): (r: seq<Step>)
    ensures forall i :: 0 <= i < |r| ==> r[i].CopyPair?
  {
    if steps == [] then []
    else (if steps[0].CopyPair? then [steps[0]] else []) + Pairs(steps[1..])
  }

  lemma {:induction false} PairsAppend(a: seq<Step>, b: seq<Step>)
    ensures Pairs(a + b) == Pairs(a) + Pairs(b)
    decreases |a|
  {
    if a != [] {
      assert (a + b)[1..] == a[1..] + b;
      PairsAppend(a[1..], b);
    } else {
      assert a + b == b;
    }
  }

  /** Relative paths (as segment lists) of the files below a directory's entries from k on, in walk order. */
  function FilesIn(dir: Node, k: nat): (r: seq<seq<string>>)
    requires dir.Dir? && k <= |dir.entries|
    ensures forall i :: 0 <= i < |r| ==> |r[i]| >= 1
    decreases dir, |dir.entries| - k
  {
    if k == |dir.entries| then []
    else
      var e := dir.entries[k];
      (match e
       case File(n) => [[n]]
       case Dir(n, _) => Prefixed(n, FilesIn(e, 0))) + FilesIn(dir, k + 1)
  }

  /** Every path with a leading directory name added. */
  function Prefixed(n: string, ps: seq<seq<string>>): (r: seq<seq<string>>)
    ensures |r| == |ps|
    ensures forall i :: 0 <= i < |r| ==> r[i] == [n] + ps[i]
  {
    if ps == [] then [] else [[n] + ps[0]] + Prefixed(n, ps[1..])
  }

  /** The copy pair expected for each relative file path: `src/a/b/f` to `dst + "a/b/f"`. */
  function PairsFor(ps: seq<seq<string>>, src: string, dst: string): (r: seq<Step>)
    ensures |r| == |ps|
  {
    if ps == [] then []
    else [CopyPair(src + [Sep] + Join(ps[0], Sep), dst + Join(ps[0], Sep))] + PairsFor(ps[1..], src, dst)
  }

  lemma {:induction false} PairsForAppend(a: seq<seq<string>>, b: seq<seq<string>>, src: string, dst: string)
    ensures PairsFor(a + b, src, dst) == PairsFor(a, src, dst) + PairsFor(b, src, dst)
    decreases |a|
  {
    if a != [] {
      assert (a + b)[1..] == a[1..] + b;
      PairsForAppend(a[1..], b, src, dst);
    } else {
      assert a + b == b;
    }
  }

  /** Descending into directory `n` is the same as prefixing `n/` to every relative path. */
  lemma {:induction false} PairsForPrefixed(n: string, ps: seq<seq<string>>, src: string, dst: string)
    requires forall i :: 0 <= i < |ps| ==> |ps[i]| >= 1
    ensures PairsFor(Prefixed(n, ps), src, dst) == PairsFor(ps, src + [Sep] + n, dst + n + [Sep])
    decreases |ps|
  {
    if ps != [] {
      var p := ps[0];
      assert Prefixed(n, ps)[1..] == Prefixed(n, ps[1..]);
      PairsForPrefixed(n, ps[1..], src, dst);
      assert ([n] + p)[1..] == p;
      assert Join([n] + p, Sep) == n + [Sep] + Join(p, Sep);
      assert src + [Sep] + Join([n] + p, Sep) == src + [Sep] + n + [Sep] + Join(p, Sep);
      assert dst + Join([n] + p, Sep) == dst + n + [Sep] + Join(p, Sep);
    }
  }

  /** A file entry `n` of a directory is copied to the unchanged destination plus `n`. */
  lemma WalkFileEntryPairs(n: string, src: string, dst: string, present: set<string>)
    requires Sep !in n
    ensures Pairs(Walk(File(n), src + [Sep] + n, dst, present)) == PairsFor([[n]], src, dst)
  {
    PairsAppend(MkdirStep(dst, present), [CopyPair(src + [Sep] + n, dst + LastSegment(src + [Sep] + n, Sep))]);
    LastSegmentAfterSep(src, n, Sep);
    assert Join([n], Sep) == n;
  }

  /** A subdirectory entry is walked with its name added to both the source and the destination. */
  lemma {:induction false} WalkDirEntryPairs(e: Node, src: string, dst: string, present: set<string>)
    requires e.Dir? && WellNamed(e)
    ensures Pairs(Walk(e, src + [Sep] + e.name, dst + e.name + [Sep], present)) ==
      PairsFor(Prefixed(e.name, FilesIn(e, 0)), src, dst)
    decreases e, 1
  {
    var src' := src + [Sep] + e.name;
    var dst' := dst + e.name + [Sep];
    PairsAppend(MkdirStep(dst', present), WalkEntries(e, 0, src', dst', present));
    WalkEntriesPairs(e, 0, src', dst', present);
    PairsForPrefixed(e.name, FilesIn(e, 0), src, dst);
  }

  /**
   * Walking a directory's entries copies every file below them, and only
   * files, with source `src + "/" + rel` and target `dst + rel` for its
   * relative path `rel`: directories add no pair and nothing is skipped.
   */
  lemma {:induction false} WalkEntriesPairs(dir: Node, k: nat, src: string, dst: string, present: set<string>)
    requires dir.Dir? && k <= |dir.entries| && WellNamed(dir)
    ensures Pairs(WalkEntries(dir, k, src, dst, present)) == PairsFor(FilesIn(dir, k), src, dst)
    decreases dir, 0, |dir.entries| - k
  {
    if k < |dir.entries| {
      var e := dir.entries[k];
      assert WellNamed(e);
      var tempDst := if e.Dir? then dst + e.name + [Sep] else dst;
      var head := Walk(e, src + [Sep] + e.name, tempDst, present);
      var own := if e.File? then [[e.name]] else Prefixed(e.name, FilesIn(e, 0));
      assert FilesIn(dir, k) == own + FilesIn(dir, k + 1);
      PairsAppend(head, WalkEntries(dir, k + 1, src, dst, present));
      WalkEntriesPairs(dir, k + 1, src, dst, present);
      PairsForAppend(own, FilesIn(dir, k + 1), src, dst);
      if e.File? {
        WalkFileEntryPairs(e.name, src, dst, present);
      } else {
        WalkDirEntryPairs(e, src, dst, present);
      }
    }
  }

  /** The number of files below a directory's entries from k on. */
  function FileCount(dir: Node, k: nat): nat
    requires dir.Dir? && k <= |dir.entries|
    decreases dir, |dir.entries| - k
  {
    if k == |dir.entries| then 0
    else
      var e := dir.entries[k];
      (if e.File? then 1 else FileCount(e, 0)) + FileCount(dir, k + 1)
  }

  lemma {:induction false} FilesInCount(dir: Node, k: nat)
    requires dir.Dir? && k <= |dir.entries|
    ensures |FilesIn(dir, k)| == FileCount(dir, k)
    decreases dir, |dir.entries| - k
  {
    if k < |dir.entries| {
      var e := dir.entries[k];
      FilesInCount(dir, k + 1);
      if e.Dir? { FilesInCount(e, 0); }
    }
  }

  /**
   * copyFile on a directory source: the first step is the mkdirp request
   * (when `dst` is missing), and there is exactly one copy pair per file
   * anywhere below the directory, `src + "/" + rel` to `dst + rel`.
   */
  lemma CopyDirectory(root: Node, present: set<string>, src: string, dst: string)
    requires Lookup(root, src).Some? && Lookup(root, src).value.Dir? && WellNamed(Lookup(root, src).value)
    ensures var dir := Lookup(root, src).value;
      var plan := CopyFilePlan(root, present, src, dst);
      plan[..|MkdirStep(dst, present)|] == MkdirStep(dst, present) &&
      Pairs(plan) == PairsFor(FilesIn(dir, 0), src, dst) &&
      |Pairs(plan)| == FileCount(dir, 0)
  {
    var dir := Lookup(root, src).value;
    PairsAppend(MkdirStep(dst, present), WalkEntries(dir, 0, src, dst, present));
    WalkEntriesPairs(dir, 0, src, dst, present);
    FilesInCount(dir, 0);
  }

  /**
   * copyFile on a file source `base/f`: at most the mkdirp request, then one
   * copy to `dst + f`, whether or not `dst` ends with the separator.
   */
  lemma CopySingleFile(root: Node, present: set<string>, base: string, f: string, dst: string)
    requires Sep !in f
    requires Lookup(root, base + [Sep] + f).Some? && Lookup(root, base + [Sep] + f).value.File?
    ensures CopyFilePlan(root, present, base + [Sep] + f, dst) ==
      MkdirStep(dst, present) + [CopyPair(base + [Sep] + f, dst + f)]
  {
    LastSegmentAfterSep(base, f, Sep);
  }

  /**
   * A path naming a file, followed by the separator, names nothing: such a
   * source copies nothing and leaves only the mkdirp request.
   */
  lemma FileTrailingSeparator(root: Node, present: set<string>, p: string, dst: string)
    requires Lookup(root, p).Some? && Lookup(root, p).value.File?
    ensures Lookup(root, p + [Sep]) == None
    ensures CopyFilePlan(root, present, p + [Sep], dst) == MkdirStep(dst, present)
  {
    assert p + [Sep] == p + [Sep] + "";
    SplitAtSep(p, "", Sep);
    ResolveAppend(root, Split(p, Sep), [""]);
  }

  /** copy2app's calls: one copyFile per key, reading under `.statictmp/<name>` and writing to the value minus its first character. */
  datatype Call = Call(src: string, dst: string)

  function CallFor(repoName: string, entry: (string, string)): Call {
    Call(StaticRoot + repoName + entry.0, SliceFrom1(entry.1))
  }

  function Copy2AppCalls(repoName: string, files: Option<FileMap>): seq<Call> {
    match files
    case None => []
    case Some(fm) => seq(|fm|, i requires 0 <= i < |fm| => CallFor(repoName, fm[i]))
  }

  /** copy2app(repoName, files): the for-in loop over the file map. */
  method Copy2App(repoName: string, files: Option<FileMap>) returns (calls: seq<Call>)
    ensures files.None? ==> calls == []
    ensures files.Some? ==> |calls| == |files.value|
    ensures files.Some? ==> forall i :: 0 <= i < |calls| ==>
      calls[i].src == StaticRoot + repoName + files.value[i].0 && calls[i].dst == SliceFrom1(files.value[i].1)
    ensures calls == Copy2AppCalls(repoName, files)
  {
    calls := [];
    if files.Some? {
      var fm := files.value;
      for i := 0 to |fm|
        invariant |calls| == i
        invariant forall j :: 0 <= j < i ==> calls[j] == CallFor(repoName, fm[j])
      {
        calls := calls + [Call(StaticRoot + repoName + fm[i].0, SliceFrom1(fm[i].1))];
      }
    }
  }

  /** The steps of a sequence of copyFile calls, one call after the other. */
  function PlanCalls(root: Node, present: set<string>, calls: seq<Call>): seq<Step> {
    if calls == [] then []
    else CopyFilePlan(root, present, calls[0].src, calls[0].dst) + PlanCalls(root, present, calls[1..])
  }

  /** Everything one copy2app call asks of the file system. */
  function Copy2AppPlan(root: Node, present: set<string>, repoName: string, files: Option<FileMap>): seq<Step> {
    PlanCalls(root, present, Copy2AppCalls(repoName, files))
  }

  /** copy2app with a single key naming a file `dir/f` of the workspace. */
  lemma Copy2AppOneFile(root: Node, present: set<string>, repoName: string, dir: string, f: string, target: string)
    requires Sep !in f
    requires var src := StaticRoot + repoName + dir + [Sep] + f;
      Lookup(root, src).Some? && Lookup(root, src).value.File?
    ensures Copy2AppPlan(root, present, repoName, Some([(dir + [Sep] + f, target)])) ==
      MkdirStep(SliceFrom1(target), present) + [CopyPair(StaticRoot + repoName + dir + [Sep] + f, SliceFrom1(target) + f)]
  {
    var base := StaticRoot + repoName + dir;
    assert StaticRoot + repoName + (dir + [Sep] + f) == base + [Sep] + f;
    CopySingleFile(root, present, base, f, SliceFrom1(target));
    var calls := Copy2AppCalls(repoName, Some([(dir + [Sep] + f, target)]));
    assert calls == [Call(base + [Sep] + f, SliceFrom1(target))];
    assert PlanCalls(root, present, calls) == CopyFilePlan(root, present, base + [Sep] + f, SliceFrom1(target)) + PlanCalls(root, present, calls[1..]);
    assert calls[1..] == [];
  }

  /**
   * A file map entry `dir/f: /out/f` whose target is missing creates `out`
   * and copies the file to `out/f` followed by f again: a file source is
   * copied to the destination text with the source's basename appended, so
   * `/lib/widget.js: /vendor/widget.js` writes `vendor/widget.jswidget.js`.
   */
  lemma FileTargetGainsBasename(root: Node, present: set<string>, repoName: string, dir: string, out: string, f: string)
    requires Sep !in f && f != ""
    requires var src := StaticRoot + repoName + dir + [Sep] + f;
      Lookup(root, src).Some? && Lookup(root, src).value.File?
    requires out + [Sep] + f !in present
    ensures Copy2AppPlan(root, present, repoName, Some([(dir + [Sep] + f, [Sep] + out + [Sep] + f)])) ==
      [Mkdirp(out), CopyPair(StaticRoot + repoName + dir + [Sep] + f, out + [Sep] + f + f)]
  {
    var target := [Sep] + out + [Sep] + f;
    assert SliceFrom1(target) == out + [Sep] + f;
    Copy2AppOneFile(root, present, repoName, dir, f, target);
    DirToCreateOfFile(out, f);
  }

  /** For a destination `a/f` with a non-empty last segment f, mkdirp is asked for `a`. */
  lemma DirToCreateOfFile(a: string, f: string)
    requires Sep !in f && f != ""
    ensures DirToCreate(a + [Sep] + f) == a
  {
    var d := a + [Sep] + f;
    LastSegmentAfterSep(a, f, Sep);
    assert d[|d| - 1] == f[|f| - 1];
    assert d[|a|] == Sep;
    DirToCreateSpec(d);
    assert d[..|a|] == a;
  }
}
