/**
 * The per-repository pipeline of `pull`: the synchronous for-in loop that
 * either copies from an existing workspace or starts a clone, and the clone
 * callbacks that pick a revision in the variable `commit` shared by the
 * whole loop, reset to it when it is truthy, and copy.
 * git clone and git reset are reduced to success or failure inputs; the
 * order in which clones complete is an input sequence.
 */
module Pipeline {
  import opened Optional
  import opened Config
  import opened Identity

  datatype Action =
    | Clone(url: string, path: string)                   // git clone <url> <path>
    | CloneFailed                                        // logger.error of a failed clone
    | Reset(dir: string, rev: Value)                     // git reset --hard <rev>, run in dir
    | ResetFailed                                        // logger.error of a failed reset
    | CopyToApp(repoName: string, files: Option<FileMap>) // copy2app(name, files)

  /** An action taken on behalf of the repository at index `repo` of the configuration. */
  datatype Event = Event(repo: nat, action: Action)

  /** The completion of the clone started for repository `repo`, and of the reset that may follow it. */
  datatype Completion = Completion(repo: nat, cloneOk: bool, resetOk: bool)

  /** Actions of one clone callback and the value `commit` holds afterwards. */
  datatype Outcome = Outcome(actions: seq<Action>, commit: Value)

  /** The events of a run so far and the value of the shared `commit`. */
  datatype RunState = RunState(events: seq<Event>, commit: Value)

  /** The revision after the callback's key tests: `commit` over `tag`; with neither, the previous value. */
  function SelectRevision(prev: Value, repo: Repo): Value {
    var afterTag := if repo.tag.Some? then repo.tag.value else prev;
    if repo.commit.Some? then repo.commit.value else afterTag
  }

  /** The clone callback of repository `name`, entered with `commit == prev`. */
  function AfterClone(name: string, repo: Repo, prev: Value, cloneOk: bool, resetOk: bool): Outcome {
    if !cloneOk then Outcome([CloneFailed], prev)
    else
      var rev := SelectRevision(prev, repo);
      if Truthy(rev) then
        Outcome([Reset(ResetRoot(name), rev)] + (if resetOk then [CopyToApp(name, repo.file)] else [ResetFailed]), rev)
      else Outcome([CopyToApp(name, repo.file)], rev)
  }

  /** One repository from start to end: the loop body and, for a clone, its callbacks. */
  function RepoPipeline(name: string, repo: Repo, hasWorkspace: bool, cloneOk: bool, resetOk: bool, prev: Value): Outcome {
    if hasWorkspace then Outcome([CopyToApp(name, repo.file)], prev)
    else
      var url := RepoUrl(name, repo);
      var after := AfterClone(name, repo, prev, cloneOk, resetOk);
      Outcome([Clone(url, GetGitPath(url))] + after.actions, after.commit)
  }

  /** What the synchronous loop body does for one repository. */
  function Launch(name: string, repo: Repo, existing: set<string>): Action {
    var url := RepoUrl(name, repo);
    var path := GetGitPath(url);
    if path in existing then CopyToApp(name, repo.file) else Clone(url, path)
  }

  /** The actions of the for-in loop, one per repository, in order. */
  function LaunchActions(repos: seq<(string, Repo)>, existing: set<string>): (r: seq<Action>)
    ensures |r| == |repos|
  {
    seq(|repos|, i requires 0 <= i < |repos| => Launch(repos[i].0, repos[i].1, existing))
  }

  /** Action k issued for repository k. */
  function Indexed(acts: seq<Action>): (r: seq<Event>)
    ensures |r| == |acts|
  {
    if acts == [] then [] else Indexed(acts[..|acts| - 1]) + [Event(|acts| - 1, acts[|acts| - 1])]
  }

  /** Numbering one more action appends one event. */
  lemma IndexedStep(acts: seq<Action>, i: nat)
    requires i < |acts|
    ensures Indexed(acts[..i + 1]) == Indexed(acts[..i]) + [Event(i, acts[i])]
  {
    assert acts[..i + 1][..i] == acts[..i];
  }

  function LaunchEvents(repos: seq<(string, Repo)>, existing: set<string>): seq<Event> {
    Indexed(LaunchActions(repos, existing))
  }

  /** Every completion names a configured repository. */
  predicate InRange(repos: seq<(string, Repo)>, cs: seq<Completion>) {
    forall k :: 0 <= k < |cs| ==> cs[k].repo < |repos|
  }

  /** The actions of one callback, each attributed to repository i. */
  function ForRepo(i: nat, acts: seq<Action>): (r: seq<Event>)
    ensures |r| == |acts|
  {
    if acts == [] then [] else [Event(i, acts[0])] + ForRepo(i, acts[1..])
  }

  /** The clone callbacks in completion order, threading the shared `commit` from `undefined`. */
  function Run(repos: seq<(string, Repo)>, cs: seq<Completion>): RunState
    requires InRange(repos, cs)
    decreases |cs|
  {
    if cs == [] then RunState([], Undefined)
    else
      var before := Run(repos, cs[..|cs| - 1]);
      var c := cs[|cs| - 1];
      var o := AfterClone(repos[c.repo].0, repos[c.repo].1, before.commit, c.cloneOk, c.resetOk);
      RunState(before.events + ForRepo(c.repo, o.actions), o.commit)
  }

  /** Everything `pull` does: the loop, then the callbacks. */
  function PullTrace(repos: seq<(string, Repo)>, existing: set<string>, cs: seq<Completion>): seq<Event>
    requires InRange(repos, cs)
  {
    LaunchEvents(repos, existing) + Run(repos, cs).events
  }

  /**
   * The callback of one clone, entered with the shared `commit`: on success
   * it overwrites `commit` from the repository's keys and, when the result is
   * truthy, resets to it before copying.
   */
  method CloneCallback(name: string, repo: Repo, cloneOk: bool, resetOk: bool, commit: Value)
    returns (actions: seq<Action>, newCommit: Value)
    ensures Outcome(actions, newCommit) == AfterClone(name, repo, commit, cloneOk, resetOk)
  {
    newCommit := commit;
    if !cloneOk {
      actions := [CloneFailed];
      return;
    }
    if repo.tag.Some? { newCommit := repo.tag.value; }
    if repo.commit.Some? { newCommit := repo.commit.value; }
    if Truthy(newCommit) {
      actions := [Reset(ResetRoot(name), newCommit)];
      if resetOk {
        actions := actions + [CopyToApp(name, repo.file)];
      } else {
        actions := actions + [ResetFailed];
      }
    } else {
      actions := [CopyToApp(name, repo.file)];
    }
  }

  /** One iteration of the for-in loop: derive URL and workspace, then copy or clone. */
  method LaunchOne(name: string, repo: Repo, existing: set<string>) returns (action: Action)
    ensures action == Launch(name, repo, existing)
  {
    var repoUrl := RepoUrl(name, repo);
    var repoPath := GetGitPath(repoUrl);
    if repoPath in existing {
      action := CopyToApp(name, repo.file);
    } else {
      action := Clone(repoUrl, repoPath);
    }
  }

  /** The synchronous for-in loop of pull(): a copy or a clone per repository. */
  method LaunchAll(repos: seq<(string, Repo)>, existing: set<string>) returns (trace: seq<Event>)
    ensures trace == LaunchEvents(repos, existing)
  {
    ghost var acts := LaunchActions(repos, existing);
    trace := [];
    var i := 0;
    while i < |repos|
      invariant 0 <= i <= |repos|
      invariant trace == Indexed(acts[..i])
    {
      var action := LaunchOne(repos[i].0, repos[i].1, existing);
      IndexedStep(acts, i);
      trace := trace + [Event(i, action)];
      i := i + 1;
    }
    assert acts[..|repos|] == acts;
  }

  /** The clone callbacks in the order the clones complete, sharing one `commit`. */
  method RunCallbacks(repos: seq<(string, Repo)>, completions: seq<Completion>)
    returns (events: seq<Event>, commit: Value)
    requires InRange(repos, completions)
    ensures RunState(events, commit) == Run(repos, completions)
  {
    commit := Undefined;
    events := [];
    var k := 0;
    while k < |completions|
      invariant 0 <= k <= |completions|
      invariant Run(repos, completions[..k]) == RunState(events, commit)
    {
      var c := completions[k];
      var actions;
      actions, commit := CloneCallback(repos[c.repo].0, repos[c.repo].1, c.cloneOk, c.resetOk, commit);
      events := events + ForRepo(c.repo, actions);
      assert completions[..k + 1][..k] == completions[..k];
      k := k + 1;
    }
    assert completions[..|completions|] == completions;
  }

  /** pull(): the loop, then the callbacks; `commit` is the shared variable's final value. */
  method Pull(repos: seq<(string, Repo)>, existing: set<string>, completions: seq<Completion>)
    returns (trace: seq<Event>, commit: Value)
    requires InRange(repos, completions)
    ensures trace == PullTrace(repos, existing, completions)
    ensures commit == Run(repos, completions).commit
  {
    var launched := LaunchAll(repos, existing);
    var done;
    done, commit := RunCallbacks(repos, completions);
    trace := launched + done;
  }

  // ---------------------------------------------------------------------------
  // One repository

  predicate HasCopy(acts: seq<Action>) {
    exists j :: 0 <= j < |acts| && acts[j].CopyToApp?
  }

  predicate HasReset(acts: seq<Action>) {
    exists j :: 0 <= j < |acts| && acts[j].Reset?
  }

  /**
   * The ordering of one repository's pipeline: a missing workspace is cloned
   * first; a reset runs exactly when the clone succeeded and the selected
   * revision is truthy, in `.statictmp/<name>`; the copy happens exactly when
   * the workspace existed, or the clone succeeded and either no reset was
   * needed or it succeeded; a copy is always the last action, so it follows
   * any reset.
   */
  lemma PipelineOrdering(name: string, repo: Repo, hasWorkspace: bool, cloneOk: bool, resetOk: bool, prev: Value)
    ensures var o := RepoPipeline(name, repo, hasWorkspace, cloneOk, resetOk, prev);
      var rev := SelectRevision(prev, repo);
      |o.actions| >= 1 &&
      (!hasWorkspace <==> o.actions[0].Clone?) &&
      (HasReset(o.actions) <==> !hasWorkspace && cloneOk && Truthy(rev)) &&
      (forall j :: 0 <= j < |o.actions| && o.actions[j].Reset? ==> o.actions[j] == Reset(ResetRoot(name), rev)) &&
      (HasCopy(o.actions) <==> hasWorkspace || (cloneOk && (!Truthy(rev) || resetOk))) &&
      (forall j :: 0 <= j < |o.actions| && o.actions[j].CopyToApp? ==> j == |o.actions| - 1) &&
      o.commit == (if !hasWorkspace && cloneOk then rev else prev)
  {
    var o := RepoPipeline(name, repo, hasWorkspace, cloneOk, resetOk, prev);
    var rev := SelectRevision(prev, repo);
    var url := RepoUrl(name, repo);
    var clone := Clone(url, GetGitPath(url));
    var copy := CopyToApp(name, repo.file);
    if hasWorkspace {
      assert o.actions == [copy];
      assert o.actions[0].CopyToApp?;
    } else if !cloneOk {
      assert o.actions == [clone, CloneFailed];
    } else if Truthy(rev) && resetOk {
      assert o.actions == [clone, Reset(ResetRoot(name), rev), copy];
      assert o.actions[1].Reset? && o.actions[2].CopyToApp?;
    } else if Truthy(rev) {
      assert o.actions == [clone, Reset(ResetRoot(name), rev), ResetFailed];
      assert o.actions[1].Reset?;
    } else {
      assert o.actions == [clone, copy];
      assert o.actions[1].CopyToApp?;
    }
  }

  /** A failed reset is logged and the repository is not copied. */
  lemma ResetFailureStops(name: string, repo: Repo, prev: Value)
    requires Truthy(SelectRevision(prev, repo))
    ensures var o := RepoPipeline(name, repo, false, true, false, prev);
      !HasCopy(o.actions) && o.actions[|o.actions| - 1] == ResetFailed
  {
    var o := RepoPipeline(name, repo, false, true, false, prev);
    assert o.actions == [o.actions[0], o.actions[1], ResetFailed];
  }

  // ---------------------------------------------------------------------------
  // The whole run

  /** The actions taken for repository i, in order. */
  function Project(evs: seq<Event>, i: nat): seq<Action> {
    if evs == [] then []
    else (if evs[0].repo == i then [evs[0].action] else []) + Project(evs[1..], i)
  }

  lemma ProjectSingle(e: Event, i: nat)
    ensures Project([e], i) == if e.repo == i then [e.action] else []
  {
    assert [e][1..] == [];
  }

  lemma {:induction false} ProjectAppend(a: seq<Event>, b: seq<Event>, i: nat)
    ensures Project(a + b, i) == Project(a, i) + Project(b, i)
    decreases |a|
  {
    if a == [] {
      assert a + b == b;
    } else {
      var ab := a + b;
      assert ab[0] == a[0];
      assert ab[1..] == a[1..] + b;
      ProjectAppend(a[1..], b, i);
      var h := if a[0].repo == i then [a[0].action] else [];
      assert Project(ab, i) == h + Project(a[1..] + b, i);
      assert Project(a, i) == h + Project(a[1..], i);
      assert h + (Project(a[1..], i) + Project(b, i)) == (h + Project(a[1..], i)) + Project(b, i);
    }
  }

  lemma {:induction false} ProjectForRepo(j: nat, acts: seq<Action>, i: nat)
    ensures Project(ForRepo(j, acts), i) == if i == j then acts else []
    decreases |acts|
  {
    if acts != [] {
      ProjectForRepo(j, acts[1..], i);
      var t := ForRepo(j, acts);
      assert t == [Event(j, acts[0])] + ForRepo(j, acts[1..]);
      assert t[0] == Event(j, acts[0]);
      assert t[1..] == ForRepo(j, acts[1..]);
      assert acts == [acts[0]] + acts[1..];
    }
  }

  /** Repository i sees exactly action i. */
  lemma {:induction false} ProjectIndexed(acts: seq<Action>, i: nat)
    ensures Project(Indexed(acts), i) == if i < |acts| then [acts[i]] else []
    decreases |acts|
  {
    if acts != [] {
      var n := |acts| - 1;
      var init := acts[..n];
      var e := Event(n, acts[n]);
      ProjectIndexed(init, i);
      ProjectAppend(Indexed(init), [e], i);
      ProjectSingle(e, i);
      if i < n { assert init[i] == acts[i]; }
    }
  }

  /** The loop issues exactly one action per repository. */
  lemma ProjectLaunch(repos: seq<(string, Repo)>, existing: set<string>, i: nat)
    ensures Project(LaunchEvents(repos, existing), i) ==
      if i < |repos| then [Launch(repos[i].0, repos[i].1, existing)] else []
  {
    ProjectIndexed(LaunchActions(repos, existing), i);
  }

  /** The actions for repository i after one more completion. */
  lemma ProjectRunStep(repos: seq<(string, Repo)>, cs: seq<Completion>, i: nat)
    requires InRange(repos, cs) && cs != []
    ensures InRange(repos, cs[..|cs| - 1])
    ensures var c := cs[|cs| - 1];
      var before := Run(repos, cs[..|cs| - 1]);
      Project(Run(repos, cs).events, i) == Project(before.events, i) +
        if c.repo == i then AfterClone(repos[i].0, repos[i].1, before.commit, c.cloneOk, c.resetOk).actions else []
  {
    var c := cs[|cs| - 1];
    var before := Run(repos, cs[..|cs| - 1]);
    var o := AfterClone(repos[c.repo].0, repos[c.repo].1, before.commit, c.cloneOk, c.resetOk);
    ProjectAppend(before.events, ForRepo(c.repo, o.actions), i);
    ProjectForRepo(c.repo, o.actions, i);
  }

  /** A repository none of whose clones complete gets no callback actions. */
  lemma {:induction false} ProjectRunAbsent(repos: seq<(string, Repo)>, cs: seq<Completion>, i: nat)
    requires InRange(repos, cs)
    requires forall k :: 0 <= k < |cs| ==> cs[k].repo != i
    ensures Project(Run(repos, cs).events, i) == []
    decreases |cs|
  {
    if cs != [] {
      ProjectRunStep(repos, cs, i);
      ProjectRunAbsent(repos, cs[..|cs| - 1], i);
    }
  }

  /**
   * A repository whose clone completes once, as completion k, gets exactly
   * the actions of its clone callback, entered with the `commit` value the
   * earlier completions left behind.
   */
  lemma {:induction false} ProjectRunOnce(repos: seq<(string, Repo)>, cs: seq<Completion>, i: nat, k: nat)
    requires InRange(repos, cs)
    requires k < |cs| && cs[k].repo == i
    requires forall k' :: 0 <= k' < |cs| && k' != k ==> cs[k'].repo != i
    ensures InRange(repos, cs[..k])
    ensures Project(Run(repos, cs).events, i) ==
      AfterClone(repos[i].0, repos[i].1, Run(repos, cs[..k]).commit, cs[k].cloneOk, cs[k].resetOk).actions
    decreases |cs|
  {
    var n := |cs|;
    ProjectRunStep(repos, cs, i);
    if k == n - 1 {
      ProjectRunAbsent(repos, cs[..n - 1], i);
    } else {
      var prefix := cs[..n - 1];
      assert prefix[..k] == cs[..k];
      assert forall k' :: 0 <= k' < |prefix| && k' != k ==> prefix[k'].repo != i;
      ProjectRunOnce(repos, prefix, i, k);
    }
  }

  /**
   * A schedule of completions as the clone callbacks can deliver them: each
   * names a repository whose workspace was missing, and each such repository
   * completes exactly once.
   */
  predicate Schedule(repos: seq<(string, Repo)>, existing: set<string>, cs: seq<Completion>) {
    InRange(repos, cs) &&
    (forall k :: 0 <= k < |cs| ==> Launch(repos[cs[k].repo].0, repos[cs[k].repo].1, existing).Clone?) &&
    (forall k, k' :: 0 <= k < k' < |cs| ==> cs[k].repo != cs[k'].repo) &&
    (forall i :: 0 <= i < |repos| && Launch(repos[i].0, repos[i].1, existing).Clone? ==>
       exists k :: 0 <= k < |cs| && cs[k].repo == i)
  }

  /** In a whole run, a repository with an existing workspace is only copied from. */
  lemma ExistingRepoInPull(repos: seq<(string, Repo)>, existing: set<string>, cs: seq<Completion>, i: nat)
    requires Schedule(repos, existing, cs)
    requires i < |repos| && GetGitPath(RepoUrl(repos[i].0, repos[i].1)) in existing
    ensures Project(PullTrace(repos, existing, cs), i) == [CopyToApp(repos[i].0, repos[i].1.file)]
  {
    ProjectAppend(LaunchEvents(repos, existing), Run(repos, cs).events, i);
    ProjectLaunch(repos, existing, i);
    forall k | 0 <= k < |cs| ensures cs[k].repo != i {
      assert Launch(repos[cs[k].repo].0, repos[cs[k].repo].1, existing).Clone?;
    }
    ProjectRunAbsent(repos, cs, i);
  }

  /**
   * In a whole run, a repository whose workspace was missing follows its
   * pipeline exactly: the actions for it are those of RepoPipeline with the
   * outcome of its completion k, entered with the `commit` value left by the
   * completions before k.
   */
  lemma ClonedRepoInPull(repos: seq<(string, Repo)>, existing: set<string>, cs: seq<Completion>, i: nat)
    requires Schedule(repos, existing, cs)
    requires i < |repos| && GetGitPath(RepoUrl(repos[i].0, repos[i].1)) !in existing
    ensures exists k :: 0 <= k < |cs| && cs[k].repo == i
    ensures forall k :: 0 <= k < |cs| && cs[k].repo == i ==>
      InRange(repos, cs[..k]) &&
      Project(PullTrace(repos, existing, cs), i) ==
        RepoPipeline(repos[i].0, repos[i].1, false, cs[k].cloneOk, cs[k].resetOk, Run(repos, cs[..k]).commit).actions
  {
    assert Launch(repos[i].0, repos[i].1, existing).Clone?;
    var k :| 0 <= k < |cs| && cs[k].repo == i;
    ProjectAppend(LaunchEvents(repos, existing), Run(repos, cs).events, i);
    ProjectLaunch(repos, existing, i);
    ProjectRunOnce(repos, cs, i, k);
  }

  /**
   * The shared `commit` leaks between repositories: after a repository
   * pinned to tag v, a repository with neither `tag` nor `commit` is reset to
   * v as well, while in the other completion order it is copied unreset.
   */
  lemma SharedRevisionLeaks(a: string, b: string, v: string)
    requires v != ""
    ensures var repos := [(a, Repo(None, Some(Str(v)), None, None)), (b, Repo(None, None, None, None))];
      Run(repos, [Completion(0, true, true), Completion(1, true, true)]).events ==
        [Event(0, Reset(ResetRoot(a), Str(v))), Event(0, CopyToApp(a, None)),
         Event(1, Reset(ResetRoot(b), Str(v))), Event(1, CopyToApp(b, None))] &&
      Run(repos, [Completion(1, true, true), Completion(0, true, true)]).events ==
        [Event(1, CopyToApp(b, None)),
         Event(0, Reset(ResetRoot(a), Str(v))), Event(0, CopyToApp(a, None))]
  {
    var repos := [(a, Repo(None, Some(Str(v)), None, None)), (b, Repo(None, None, None, None))];
    var ra := [Event(0, Reset(ResetRoot(a), Str(v))), Event(0, CopyToApp(a, None))];
    var rb := [Event(1, Reset(ResetRoot(b), Str(v))), Event(1, CopyToApp(b, None))];
    var first := [Completion(0, true, true), Completion(1, true, true)];
    assert first[..1][..0] == [];
    assert ForRepo(0, [Reset(ResetRoot(a), Str(v)), CopyToApp(a, None)]) == ra by {
      assert [Reset(ResetRoot(a), Str(v)), CopyToApp(a, None)][1..] == [CopyToApp(a, None)];
    }
    assert ForRepo(1, [Reset(ResetRoot(b), Str(v)), CopyToApp(b, None)]) == rb by {
      assert [Reset(ResetRoot(b), Str(v)), CopyToApp(b, None)][1..] == [CopyToApp(b, None)];
    }
    assert Run(repos, first[..1]) == RunState(ra, Str(v));
    assert Run(repos, first) == RunState(ra + rb, Str(v));
    var second := [Completion(1, true, true), Completion(0, true, true)];
    assert second[..1][..0] == [];
    assert ForRepo(1, [CopyToApp(b, None)]) == [Event(1, CopyToApp(b, None))];
    assert Run(repos, second[..1]) == RunState([Event(1, CopyToApp(b, None))], Undefined);
    assert Run(repos, second) == RunState([Event(1, CopyToApp(b, None))] + ra, Str(v));
  }

  /** A failed clone, or a repository with neither key, leaves the shared `commit` as it was. */
  lemma CommitKeptWithoutKeys(repos: seq<(string, Repo)>, cs: seq<Completion>, k: nat)
    requires InRange(repos, cs) && k < |cs|
    requires !cs[k].cloneOk || (repos[cs[k].repo].1.tag.None? && repos[cs[k].repo].1.commit.None?)
    ensures InRange(repos, cs[..k]) && InRange(repos, cs[..k + 1])
    ensures Run(repos, cs[..k + 1]).commit == Run(repos, cs[..k]).commit
  {
    assert cs[..k + 1][..k] == cs[..k];
  }

  /** Completion c overwrites the shared `commit`: its clone succeeded and its repository has `tag` or `commit`. */
  predicate SetsRevision(repos: seq<(string, Repo)>, c: Completion)
    requires c.repo < |repos|
  {
    c.cloneOk && (repos[c.repo].1.tag.Some? || repos[c.repo].1.commit.Some?)
  }

  /** The revision a repository's keys name: `commit` when present, `tag` otherwise. */
  function KeyRevision(repo: Repo): Value
    requires repo.tag.Some? || repo.commit.Some?
  {
    if repo.commit.Some? then repo.commit.value else repo.tag.value
  }

  /**
   * The final value of the shared `commit`: the key revision of the last
   * completion that overwrote it, or `undefined` when none did.
   */
  lemma {:induction false} RunCommitClosedForm(repos: seq<(string, Repo)>, cs: seq<Completion>)
    requires InRange(repos, cs)
    ensures (forall k :: 0 <= k < |cs| ==> !SetsRevision(repos, cs[k])) ==> Run(repos, cs).commit == Undefined
    ensures forall k ::
      (0 <= k < |cs| && SetsRevision(repos, cs[k]) && forall j :: k < j < |cs| ==> !SetsRevision(repos, cs[j])) ==>
        Run(repos, cs).commit == KeyRevision(repos[cs[k].repo].1)
    decreases |cs|
  {
    if cs != [] {
      var n := |cs|;
      var prefix := cs[..n - 1];
      var c := cs[n - 1];
      assert forall k :: 0 <= k < n - 1 ==> prefix[k] == cs[k];
      RunCommitClosedForm(repos, prefix);
      var before := Run(repos, prefix);
      var o := AfterClone(repos[c.repo].0, repos[c.repo].1, before.commit, c.cloneOk, c.resetOk);
      assert Run(repos, cs).commit == o.commit;
      if SetsRevision(repos, c) {
        assert o.commit == KeyRevision(repos[c.repo].1);
      } else {
        assert o.commit == before.commit;
      }
    }
  }
}
