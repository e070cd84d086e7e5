# istatic: a Dafny model of `pull`

istatic is a Node.js command-line tool that vendors static files from git
repositories into an application. The configuration file maps each
repository name to an optional `url`, an optional `tag` or `commit`, and a
`file` map from paths inside the repository to paths in the application.

`pull` handles each repository in turn:
- It derives a clone URL from the configuration, or from a fixed template
  when `url` is missing.
- It derives a workspace path under `.statictmp/` from the basename of that
  URL.
- If the workspace already exists, it copies the mapped files at once.
- Otherwise it clones the repository. When the clone finishes, it picks a
  revision and resets to it if the revision is truthy. It then copies the
  mapped files.
- Copying a directory walks it recursively and creates missing destination
  directories first.

The model is written over values and traces:
- The file system is a tree of `Node`s, plus a set of the paths that exist.
- Each git command becomes a success or failure input.
- The order in which the asynchronous clones complete is an input sequence.
- What `pull` does is a sequence of `Event`s, one per action, each tagged
  with the repository it belongs to.

Modules:
- `Optional`: an `Option` type.
- `JsText`: the JavaScript string operations the code relies on. These are
  `trim`, `split`/`join` with a one-character separator, `slice(1)`, and
  `replace` with a string pattern (first occurrence only, with the `$$`,
  `$&`, `` $` `` and `$'` replacement patterns).
- `NodePath`: Node's `path.basename(p, ext)` for POSIX paths.
- `Config`: JavaScript values and the configuration record of a repository.
  A key that is absent is `None`, matching the `in` tests.
- `Identity`: the default URL, `getGitPath`, and the `.statictmp/<name>`
  root that `reset` and `copy2app` use.
- `CopyPlan`: `copyFile` and `copy2app` as the list of mkdirp and copy steps
  they request.
- `Pipeline`: the `for…in` loop of `pull`, the clone and reset callbacks,
  and the shared `commit` variable.

Three behaviours of the code are easy to misread:
- **File targets.** A file source is copied to the destination *text* with
  the source's last segment appended (`dst + src.split(sep).slice(-1)[0]`,
  istatic.js:76). So `/lib/widget.js: /vendor/widget.js` writes
  `vendor/widget.jswidget.js`, not `vendor/widget.js`.
  `CopyPlan.FileTargetGainsBasename` proves this.
- **Clone path vs. reset root.** The clone target uses only the URL's
  basename (istatic.js:32), while `reset` and `copy2app` use
  `.statictmp/<name>` (istatic.js:96, 113). The two differ for a name such
  as `owner/project` (`Identity.ClonePathOfOwnerName`). For the default URL
  of a name without `$`, they coincide exactly when the name is non-empty
  and holds no `/` (`Identity.ClonePathMatchesResetRoot`). A `url` key
  whose basename differs from the name separates them too.
- **Revision is shared.** The revision lives in one variable, `commit`, for
  the whole loop (istatic.js:124). A repository with neither `tag` nor
  `commit` is reset to the value the shared `commit` holds when its clone
  completes, if that value is truthy (istatic.js:148), and is copied
  without a reset otherwise. The result therefore depends on completion order
  (`Pipeline.SharedRevisionLeaks`). After the run, `commit` holds the key
  revision of the last successful clone that had a `tag` or `commit` key
  (`Pipeline.RunCommitClosedForm`).

## Model

| member | source | states |
|---|---|---|
| JsText.IsSpace | istatic.js:32 | the characters `trim` removes: ECMAScript WhiteSpace and LineTerminator; used by `JsText.TrimStartSpec` and `JsText.TrimEndSpec` |
| JsText.TrimStart | istatic.js:32 | the front half of `trim`; specified by `JsText.TrimStartSpec` |
| JsText.TrimEnd | istatic.js:32 | the back half of `trim`; specified by `JsText.TrimEndSpec` |
| JsText.TrimStartSpec | istatic.js:32 | trimming the front leaves a suffix of the input, every removed character is white space, and the result is empty or starts with a non-space |
| JsText.TrimEndSpec | istatic.js:32 | trimming the back leaves a prefix of the input, every removed character is white space, and the result is empty or ends with a non-space |
| JsText.TrimUnchanged | istatic.js:32 | a string with no white space at either end is left as it is by `trim` |
| JsText.TrimEnds | istatic.js:32 | the result of `trim` is empty or has a non-space at both ends |
| JsText.Trim | istatic.js:32 | `trim`; specified by `JsText.TrimStartSpec`, `JsText.TrimEndSpec`, `JsText.TrimEnds` and `Identity.TrimAround` |
| JsText.Split | istatic.js:65 | `split` yields at least one part |
| JsText.SplitPartsNoSep | istatic.js:65 | no part of a split contains the separator |
| JsText.JoinSplit | istatic.js:65 | joining the parts of a split with the same separator gives back the original string |
| JsText.SplitJoin | istatic.js:65 | splitting a join of separator-free parts gives back the parts |
| JsText.SplitNoSep | istatic.js:65 | a string without the separator splits into itself alone |
| JsText.SplitAtSep | istatic.js:65 | splitting `a + sep + b` gives the parts of `a` followed by the parts of `b` |
| JsText.SplitAtSepStep | istatic.js:65 | that distribution survives one more leading character |
| JsText.Join | istatic.js:71 | `join`; specified by `JsText.JoinSplit`, `JsText.SplitJoin` and `JsText.JoinSnoc` |
| JsText.JoinSnoc | istatic.js:71 | joining `parts + [x]` is the join of parts, the separator, then x |
| JsText.LastSegmentSplit | istatic.js:76 | the last segment has no separator; it is the whole string when there is no separator, otherwise what follows the last separator |
| JsText.LastSegmentAfterSep | istatic.js:76 | the last segment of `a + sep + b` is b when b has no separator |
| JsText.LastSegmentEmpty | istatic.js:68 | the last segment is empty exactly when the string is empty or ends with the separator |
| JsText.LastSegment | istatic.js:76 | `split(sep).slice(-1)[0]`; specified by `JsText.LastSegmentSplit`, `JsText.LastSegmentAfterSep` and `JsText.LastSegmentEmpty` |
| JsText.SliceFrom1 | istatic.js:97 | `slice(1)` drops the first character, and leaves an empty string empty |
| JsText.IndexOf | istatic.js:134 | the result is the first position where the pattern occurs, or none when it occurs nowhere |
| JsText.SubstitutePlain | istatic.js:134 | a replacement text without `$` is inserted verbatim |
| JsText.PatternText | istatic.js:133-134 | the text a pattern stands for: `$$` gives `$`, `$&` the matched text, `` $` `` the text before the match, `$'` the text after it; used by `JsText.SubstitutePattern` |
| JsText.SubstitutePattern | istatic.js:133-134 | between two texts free of `$`, `$$` becomes `$`, `$&` the matched text, `` $` `` the text before the match and `$'` the text after it |
| JsText.Substitute | istatic.js:133-134 | the replacement text of `replace`; specified by `JsText.SubstitutePlain` and `JsText.SubstitutePattern` |
| JsText.ReplaceFirst | istatic.js:133-134 | a string without the pattern is returned unchanged; otherwise the text before the first occurrence and the text after it are kept, and the replacement text for that occurrence stands between them |
| JsText.ReplaceFirstPlain | istatic.js:133-134 | with a replacement free of `$`, the first occurrence, and only it, is replaced by the replacement verbatim |
| NodePath.Slashes | istatic.js:32 | a run of n slashes has length n |
| NodePath.Basename | istatic.js:32 | the basename never contains `/` |
| NodePath.HasProperSuffix | istatic.js:32 | the test `path.basename` makes before removing `.git`: ext is a strict suffix of the last segment; used by `NodePath.BasenameOfSegment` |
| NodePath.BasenameOfSegment | istatic.js:32 | the basename of `dir/seg///` is seg, with ext removed when it is a proper suffix of seg |
| NodePath.StripSlashRun | istatic.js:32 | trailing slashes after a non-slash end are all removed |
| NodePath.StripTrailingSlashes | istatic.js:32 | the trailing-separator removal of `path.basename`; specified by `NodePath.StripSlashRun` |
| Identity.RepoUrl | istatic.js:131-134 | the clone URL; specified by `Identity.RepoUrlShape` |
| Identity.RepoUrlShape | istatic.js:131-134 | the URL is the `url` value verbatim when the key is present, and otherwise the host prefix, the replacement text for the name, then `.git` |
| Identity.DefaultUrl | istatic.js:133-134 | the template with `{name}` replaced; specified by `Identity.DefaultUrlShape` and `Identity.DollarPairCollapses` |
| Identity.PlaceholderPosition | istatic.js:133-134 | `{name}` first occurs right after `http://code.dapps.douban.com/` in the template |
| Identity.DefaultUrlShape | istatic.js:133-134 | the default URL is host prefix, the substituted name, then `.git`; a name without `$` is inserted verbatim |
| Identity.DefaultUrlPlain | istatic.js:133-134 | a name without `$` is inserted verbatim between the host prefix and `.git` |
| Identity.DollarPairCollapses | istatic.js:133-134 | for a name `x$$y` with no other `$`, the URL holds `x$y` |
| Identity.GetGitPath | istatic.js:31-33 | the workspace path; specified by `Identity.GitPathIsOneSegment`, `Identity.GitPathIgnoresSpace`, `Identity.GitPathOfPlainUrl` and `Identity.GitPathOfSuffixedUrl` |
| Identity.GitPathIsOneSegment | istatic.js:31-33 | the workspace path is `.statictmp/` followed by one segment without `/` |
| Identity.GitPathIgnoresSpace | istatic.js:31-33 | white space around the URL does not change the workspace path |
| Identity.GitPathOfPlainUrl | istatic.js:31-33 | a URL ending in `/foo` (optionally with trailing slashes and white space) maps to `.statictmp/foo` |
| Identity.GitPathOfSuffixedUrl | istatic.js:31-33 | a URL ending in `/foo.git` maps to the same workspace `.statictmp/foo` |
| Identity.GitPathOfRepoUrl | istatic.js:31-33 | a URL `dir/seg.git` whose start is not white space maps to `.statictmp/seg` |
| Identity.CoreEnds | istatic.js:32 | a path `dir/seg///` whose first and last characters are not white space is non-empty, starts and ends with a non-space, and is kept whole by `trim` |
| Identity.TrimAround | istatic.js:32 | `trim` removes exactly the white space around a core with non-space ends |
| Identity.ResetRoot | istatic.js:111-114 | `.statictmp/<name>`, where reset runs and (istatic.js:96) copy2app reads; compared with the clone path by `Identity.ClonePathMatchesResetRoot` |
| Identity.ClonePathOfPlainName | istatic.js:131-136 | for a name without `$` or `/`, the clone target is `.statictmp/<name>` |
| Identity.OwnerClonePath | istatic.js:131-136 | `owner/project` is cloned to `.statictmp/project` |
| Identity.ClonePathOfOwnerName | istatic.js:131-136 | `owner/project` is cloned to `.statictmp/project`, while reset and copy2app address `.statictmp/owner/project`, a different path |
| Identity.ClonePathMatchesResetRoot | istatic.js:131-136 | for a name without `$`, the clone target equals the reset root exactly when the name is non-empty and has no `/` |
| CopyPlan.Find | istatic.js:75-81 | a found entry is one of the directory's entries and carries the requested name; no entry is found exactly when none carries that name |
| CopyPlan.FindFirst | istatic.js:75-81 | when several entries carry the name, the first of them is found |
| CopyPlan.Resolve | istatic.js:75-77 | how `statSync` resolves a path's segments; specified by `CopyPlan.ResolveAppend` and `CopyPlan.FileTrailingSeparator` |
| CopyPlan.ResolveAppend | istatic.js:75-77 | resolving two lists of segments one after the other is resolving the first, then the second from the node it reaches, and fails when the first fails |
| CopyPlan.Lookup | istatic.js:75-77 | the node `statSync(src)` describes, or none when it throws; specified by `CopyPlan.FileTrailingSeparator`, `CopyPlan.CopyDirectory` and `CopyPlan.CopySingleFile` |
| CopyPlan.FileTrailingSeparator | istatic.js:75-77 | a file path followed by `/` names nothing (ENOTDIR), so copyFile on it asks only for the mkdirp step |
| CopyPlan.DirToCreate | istatic.js:67-73 | the directory mkdirp is asked for; specified by `CopyPlan.DirToCreateSpec` |
| CopyPlan.MkdirStep | istatic.js:67-73 | no step when `dst` exists, one mkdirp step for `DirToCreate(dst)` otherwise; used by `CopyPlan.CopyDirectory` and `CopyPlan.CopySingleFile` |
| CopyPlan.Walk | istatic.js:75-86 | the steps of copyFile once `src` is known; specified by `CopyPlan.WalkFileEntryPairs` and `CopyPlan.WalkDirEntryPairs` |
| CopyPlan.WalkEntries | istatic.js:78-86 | the `forEach` over a listing; specified by `CopyPlan.WalkEntriesPairs` |
| CopyPlan.CopyFilePlan | istatic.js:63-91 | everything one copyFile call asks for; specified by `CopyPlan.CopyDirectory`, `CopyPlan.CopySingleFile` and `CopyPlan.FileTrailingSeparator` |
| CopyPlan.DirToCreateSpec | istatic.js:67-73 | a missing `dst` ending in `/` (or empty) is created itself; otherwise its last segment is dropped, leaving "" when it has no `/` |
| CopyPlan.DirToCreateOfFile | istatic.js:71 | for `a/f` with non-empty f, mkdirp is asked for `a` |
| CopyPlan.Pairs | istatic.js:75-86 | the extracted steps are all copies |
| CopyPlan.PairsAppend | istatic.js:75-86 | the copies of two step lists in sequence are the copies of each, in order |
| CopyPlan.FilesIn | istatic.js:78-86 | every file below a directory has a non-empty relative path |
| CopyPlan.Prefixed | istatic.js:81-84 | prefixing relative paths keeps their number and puts the name in front of each |
| CopyPlan.PairsFor | istatic.js:76-84 | one copy per relative path |
| CopyPlan.PairsForAppend | istatic.js:79 | copies for concatenated path lists are concatenated |
| CopyPlan.PairsForPrefixed | istatic.js:80-84 | descending into subdirectory n is the same as copying its paths from `src/n` to `dst + n + "/"` |
| CopyPlan.WalkFileEntryPairs | istatic.js:76 | a file entry `n` is copied once, to `dst + n` |
| CopyPlan.WalkDirEntryPairs | istatic.js:80-84 | a subdirectory entry copies every file below it, with its name prefixed on both sides |
| CopyPlan.WalkEntriesPairs | istatic.js:78-86 | the walk over entries from k on copies exactly the files below them, in order, `src/rel` to `dst + rel` |
| CopyPlan.FilesInCount | istatic.js:78-86 | the number of files listed is the file count of the tree |
| CopyPlan.CopyDirectory | istatic.js:63-91 | copyFile on a directory first asks for the mkdirp step, then makes one copy per file below it, `src/rel` to `dst + rel` |
| CopyPlan.CopySingleFile | istatic.js:63-76 | copyFile on a file `base/f` asks for at most the mkdirp step, then copies to `dst + f`; f is never empty here, since `base/` names no file |
| CopyPlan.Copy2App | istatic.js:93-100 | one copyFile call per file-map key, in order: source `.statictmp/<repoName><key>` and target the value without its first character; none without a file map |
| CopyPlan.Copy2AppCalls | istatic.js:93-100 | the copyFile calls of copy2app; `CopyPlan.Copy2App` is proved to compute them |
| CopyPlan.CallFor | istatic.js:96-97 | one copyFile call of copy2app: source `.statictmp/<repoName><key>`, target the value without its first character; the loop of `CopyPlan.Copy2App` is proved to build one per key |
| CopyPlan.PlanCalls | istatic.js:95-98 | the steps of the calls one after the other; unfolded in `CopyPlan.Copy2AppOneFile` |
| CopyPlan.Copy2AppPlan | istatic.js:93-100 | everything one copy2app call asks for; specified by `CopyPlan.Copy2AppOneFile` and `CopyPlan.FileTargetGainsBasename` |
| CopyPlan.Copy2AppOneFile | istatic.js:93-100 | a single key naming a file `dir/f` creates the target's directory when missing, then copies to the target plus f |
| CopyPlan.FileTargetGainsBasename | istatic.js:76 | the entry `dir/f: /out/f` creates `out` and writes `out/ff`, so the source's basename is doubled |
| Pipeline.ForRepo | istatic.js:141-164 | attributing a callback's actions to a repository keeps their number |
| Pipeline.SelectRevision | istatic.js:145-146 | the revision after the key tests; its effect on a whole run is stated by `Pipeline.RunCommitClosedForm` |
| Pipeline.AfterClone | istatic.js:143-163 | one clone callback; specified by `Pipeline.PipelineOrdering`, `Pipeline.ResetFailureStops` and `Pipeline.CommitKeptWithoutKeys` |
| Pipeline.RepoPipeline | istatic.js:130-163 | one repository from loop body to last callback; specified by `Pipeline.PipelineOrdering` |
| Pipeline.Launch | istatic.js:130-142 | the loop body; `Pipeline.LaunchOne` is proved to compute it |
| Pipeline.LaunchEvents | istatic.js:129-142 | the loop's numbered actions; specified by `Pipeline.ProjectLaunch` |
| Pipeline.Run | istatic.js:143-163 | the callbacks in completion order; specified by `Pipeline.ProjectRunOnce`, `Pipeline.ProjectRunAbsent` and `Pipeline.RunCommitClosedForm` |
| Pipeline.PullTrace | istatic.js:121-168 | the whole run; specified by `Pipeline.ExistingRepoInPull` and `Pipeline.ClonedRepoInPull` |
| Pipeline.CloneCallback | istatic.js:143-163 | the clone callback's actions and the new `commit` are those of one completion of the pipeline |
| Pipeline.LaunchOne | istatic.js:130-142 | one iteration issues a copy when the workspace exists and a clone of the derived URL into the derived path otherwise |
| Pipeline.LaunchActions | istatic.js:129-142 | the loop has one action per repository |
| Pipeline.Indexed | istatic.js:129-142 | numbering the loop's actions keeps their count |
| Pipeline.IndexedStep | istatic.js:129-142 | numbering one more action appends one event carrying its index |
| Pipeline.LaunchAll | istatic.js:129-142 | the loop issues, in order, one copy (existing workspace) or one clone (missing workspace) per repository |
| Pipeline.RunCallbacks | istatic.js:143-163 | the callbacks, taken in completion order, produce exactly the events of the run and leave the final `commit` |
| Pipeline.Pull | istatic.js:121-168 | the trace is the loop's events followed by the callbacks' events, and `commit` ends as the run leaves it |
| Pipeline.PipelineOrdering | istatic.js:138-163 | Clone first exactly when the workspace is missing; reset exactly when the clone succeeded and the revision is truthy, in `.statictmp/<name>`; copy exactly when the workspace existed or the clone succeeded and no reset was needed or it succeeded; copy only as the last action |
| Config.Truthy | istatic.js:148 | JavaScript truthiness of undefined, null, booleans, integers and strings, which decides whether a reset runs; used by `Pipeline.PipelineOrdering` and `Pipeline.ResetFailureStops` |
| Pipeline.ResetFailureStops | istatic.js:153-155 | a failed reset is logged as the last action and nothing is copied |
| Pipeline.ProjectAppend | istatic.js:129-166 | the actions of one repository in a concatenated trace are those of each part, in order |
| Pipeline.ProjectForRepo | istatic.js:141-164 | a repository sees its own tagged actions and none of another's |
| Pipeline.ProjectIndexed | istatic.js:129-142 | in numbered actions, repository i sees exactly action i |
| Pipeline.ProjectLaunch | istatic.js:129-142 | the loop gives each repository exactly one action |
| Pipeline.ProjectRunStep | istatic.js:143-163 | one more completion adds only the completed repository's callback actions |
| Pipeline.ProjectRunAbsent | istatic.js:143-163 | a repository with no completion gets no callback actions |
| Pipeline.ProjectRunOnce | istatic.js:143-163 | a repository that completes once gets exactly its callback's actions, run with the `commit` the earlier completions left |
| Pipeline.Schedule | istatic.js:135-164 | the completions the callbacks can deliver: each names a repository whose clone the loop started, and each such repository completes exactly once; required by `Pipeline.ExistingRepoInPull` and `Pipeline.ClonedRepoInPull` |
| Pipeline.ExistingRepoInPull | istatic.js:129-166 | in a whole run, a repository whose workspace exists is only copied from |
| Pipeline.ClonedRepoInPull | istatic.js:129-166 | in a whole run, a repository whose workspace is missing completes once and follows its pipeline exactly, entered with the `commit` left by earlier completions |
| Pipeline.SharedRevisionLeaks | istatic.js:124-158 | after a repository pinned to tag v, a repository with no revision keys is also reset to v; in the other order it is copied without a reset |
| Pipeline.CommitKeptWithoutKeys | istatic.js:143-148 | a failed clone, or a repository with neither key, leaves the shared `commit` unchanged |
| Pipeline.RunCommitClosedForm | istatic.js:124-158 | after a run, `commit` is `undefined` when no completion had a successful clone and a `tag` or `commit` key; otherwise it is the key revision (`commit` over `tag`) of the last such completion |

## Left out

- I/O is left out. The `child_process.exec` wrapper and the event library
  (istatic.js:13-22) are not modelled. Each git command is a success or
  failure input, and git's own behaviour is not modelled. `lib/event` is not
  part of this model.
- Reading `static.yaml` and YAML parsing (`getConfig`, istatic.js:35-42) are
  left out. The configuration is the parsed list of `(name, Repo)` pairs, in
  `for…in` order. JavaScript's ordering of integer-like keys first is not
  modelled.
- `makeTmpDir` (istatic.js:24-29) is left out. It passes a callback to
  `existsSync`, which ignores it, so it never creates anything.
- The byte transfer is not modelled: `copy`'s streams, `util.pump`, and
  setting the target's access and modification times from the source
  (istatic.js:44-61). A copy is one `CopyPair` step.
- `process.chdir` is left out. So is the fact that the working directory is
  not restored after a failed reset (istatic.js:112-118). The reset records
  the directory it runs in.
- `Pipeline.AfterClone`: `process.chdir(PATH_STATIC + name)`
  (istatic.js:113) throws ENOENT when `.statictmp/<name>` does not exist.
  That is the case for `owner/project`, whose clone went to
  `.statictmp/project`. Then no reset runs and nothing is copied. The
  exception is raised inside the `cp.exec` callback, through `lib/event`,
  which is not part of this model. What follows depends on that library:
  unless it catches the exception, Node ends the process and no later
  callback runs. The model records the `Reset`, takes its outcome from the
  `resetOk` input, and goes on with the remaining completions.
- Logging is left out (`logger.info`/`logger.error`, apart from the failure
  events): clone output, `HEAD is now at`, and the copy messages.
- Concurrency is taken as the order in which clones complete. Each reset
  completes right after its own clone callback, before the next clone's
  callback.
- The callbacks of `fs.readdir` (istatic.js:78) are modelled in depth-first
  order. Node may interleave them or run them after later `copyFile` calls.
- `CopyPlan.CopyFilePlan`: `existsSync(dst)` is read from a fixed set of
  present paths. The directories that mkdirp creates during the same run
  are not added to that set.
- `CopyPlan.CopyFilePlan`: a missing source makes `statSync` throw. So
  does a file path followed by more segments, such as `f/` (ENOTDIR). When
  `copy2app` runs inside the `for…in` loop (existing workspace,
  istatic.js:139), the throw aborts the rest of `copy2app` and of the loop.
  When it runs from a clone or reset callback (istatic.js:152, 158), the
  loop has already finished. The throw is then raised inside the `cp.exec`
  callback, through `lib/event`, which is not part of this model. Unless
  that library catches it, Node ends the process and no later callback
  runs. In every case the model records only the mkdirp step for that call
  and carries on with the next key and the remaining completions.
- `NodePath.Basename` models Node's POSIX `path.basename` for ordinary paths.
  Two degenerate cases are left out: all-slash paths of four or more
  characters, and a last segment that is a proper tail of `.git` followed by
  `/`.
- `JsText.SliceFrom1`: JavaScript strings are UTF-16. When the first
  character of a target lies outside the Basic Multilingual Plane,
  `slice(1)` leaves a lone surrogate. The model's strings are sequences of
  code points, so it drops the whole character.
- `Config.Repo`: a repository entry that is `null` or not an object makes
  `'url' in repo` throw a TypeError (istatic.js:131). So does a `file` value
  that is not a string, at `.slice(1)` (istatic.js:97). The model's entries
  are always records and its file map values are always strings.
- `Config.Value`: `url` values other than strings are not handled. Floating
  point numbers, `NaN` and dates are not among the values, so their
  truthiness is not modelled.
- `CopyPlan.Lookup` resolves paths without `..` segments. It knows only
  files and directories, not links or other file kinds.
- `Pipeline.CloneCallback`: `repo` is re-read from `repos[name]`
  (istatic.js:144). The model takes the entry the completion names, which
  is the same value.
