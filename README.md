# go-mod-promote core, modelled in Dafny

go-mod-promote moves a Go project to a new version of a dependency module. It has three parts:

- **Tasks.** A task is configured for the dependency. There are four kinds:
  - sync a directory of the module into the project;
  - turn a file's `diff -u` between the old and the new module version into a patch;
  - check a regular expression against a file of the new version;
  - a go-mod-replace task, which is declared but not implemented.

  Each task yields a change set (files to copy, files to delete, patches). Change sets from several tasks are aggregated.
- **The go.mod editor.** It updates required versions and queues prioritised replace directives. At the end, `Finish` sorts the queue by priority and merges it into the manifest, so the highest priority is written last and wins.
- **Version helpers.** They split a module version into its release and its revision hash, and define the three priority tiers.

The model has one Dafny module per concern:

| file | module | models |
|---|---|---|
| `errors.dfy` | `Errors` | `Option`, `Outcome` (value or error), and the error values the core reports |
| `api.dfy` | `Api` | `GoModVersion.Release` / `Hash`, the `GoModReplacePriority` tiers (a Go `int32`), `GoModReplace` |
| `tasks_result.dfy` | `TaskResults` | `Patch`, `Copy`, `Delete`, `Result`, `Result.IsEmpty`, `Result.Apply`, `AggregateResult` |
| `tasks_diff.dfy` | `TaskDiffs` | `TaskDiff.run`: exit-code handling and the header rewrite of the scan loop |
| `tasks_sync.dfy` | `TaskSyncs` | `walkDirectory` and `TaskSyncDirectory.run` (the copy / delete plan) |
| `tasks_run.dfy` | `Tasks` | `Task.Run` (the dispatcher), `TaskRegexp.run`, `TaskGoModReplace.run` |
| `gomod.dfy` | `GoMods` | `GoMod` as a class over a manifest class (`ModFile`): `GetReplaces`, `GetVersionForPackage`, `AddReplace`, `UpdatePackage`, `addReplace`, `Finish` |

### Modelling choices

**The outside world.** The file system, subprocesses, SHA-256, `filepath`, `regexp` and the `modfile` library are reached through parameters:

- `filepath.Join` is a function `join`.
- `filepath.Walk` is the sequence of visits it calls back with.
- `filepath.Match` is a function `globMatch` that may fail.
- A file's hash is a function `hash` that may fail.
- `diff -u` is a function `runDiff`, which returns the exit status, the scanned lines and the scanner's error.
- `regexp.Compile`, `ioutil.ReadFile` and `FindSubmatch` are the fields `compile`, `readFile` and `findSubmatch` of `Tasks.World`.

**Bytes** are characters, one per byte.

**Go map iteration.** Go iterates maps in an unspecified order. The sync loops therefore pick their next key with `:|`, and their contracts hold for every order.

Their contracts say *which* copies and deletes the plan contains, one per path. They do not say in what order.

**Methods and the functions they are proved against.** Loops and in-place updates are methods, each proved against a function:

- `Rewrite` against `RewriteLines`;
- `WalkDirectory` against `Walked`;
- `AggregateResult` against `Gather`;
- `GoMod.Finish` against `SortByPriority` and `MergeAll`.

The properties the source promises are lemmas about those functions.

**The manifest.** The `modfile` library is not part of this model. `ModFile` stands in for its `File`: a class with the `require` and `replace` directive lists and the two operations the core calls.

- `AddRequire` updates the first require of the path, or appends one.
- `AddReplace` redirects the first entry selected by the old path (and the old version, when one is given), or appends one.
- The library's errors are abstracted as a set `rejected` of module paths it refuses.

## Model

| member | source | states |
|---|---|---|
| `Api.LastIndex` | pkg/api/api.go:21 | the result is -1 or an index holding the character, and no later index holds it |
| `Api.Release` | pkg/api/api.go:12-17 | the release followed by the prerelease is the canonical version; an invalid version (empty canonical form) gives "" |
| `Api.Hash` | pkg/api/api.go:19-23 | the hash is the dash-free suffix of the prerelease that follows its last dash; the whole prerelease when it has no dash |
| `Api.HashUnique` | pkg/api/api.go:19-23 | any dash-free suffix that follows a dash is the hash: the hash is the text after the last dash |
| `Api.PseudoVersionParts` | pkg/api/api.go:12-23 | for a pseudo-version base-timestamp-revision, Release gives the base and Hash the revision |
| `Api.PseudoVersionExample` | pkg/api/api.go:12-23 | v1.2.3-0.20210101000000-abcdef123456 has release v1.2.3 and hash abcdef123456 |
| `Api.PriorityTiersOrdered` | pkg/api/api.go:34-38 | upstream replace (200) < upstream package version (400) < managed package (1000) |
| `TaskResults.Copy.Apply` | pkg/tasks/tasks.go:61-63 | copying is a stub that never fails |
| `TaskResults.Delete.Apply` | pkg/tasks/tasks.go:67-69 | deleting is a stub that never fails |
| `TaskResults.Result.IsEmpty` | pkg/tasks/tasks.go:78-90 | true iff all three lists are empty |
| `TaskResults.Result.Apply` | pkg/tasks/tasks.go:92-106 | every patch is handed to the patch tool in order, and the result is always success |
| `TaskResults.AggregateResult` | pkg/tasks/tasks.go:108-120 | each list of the aggregate is the in-order concatenation of that list over the non-nil results |
| `TaskResults.GatherAppend` | pkg/tasks/tasks.go:108-120 | aggregating a concatenation of result lists concatenates the aggregates |
| `TaskResults.GatherMembers` | pkg/tasks/tasks.go:108-120 | an entry is in an aggregated list iff it is in that list of some non-nil result |
| `TaskResults.GatherEmpty` | pkg/tasks/tasks.go:108-120 | an aggregated list is empty iff that list is empty in every non-nil result |
| `TaskResults.AggregateEmpty` | pkg/tasks/tasks.go:78-120 | the aggregate is empty iff every non-nil result is empty |
| `TaskResults.AggregateExample` | pkg/tasks/tasks.go:108-120 | aggregating {copy a} and {delete b} gives {copy a, delete b} |
| `Tasks.RunGoModReplace` | pkg/tasks/tasks.go:207-209 | the go-mod-replace task always fails with "not implemented" |
| `Tasks.RunRegexp` | pkg/tasks/tasks.go:177-201 | success (with no change set) iff the pattern compiles, the source file is read and the pattern matches it; otherwise the compile error, the read error or the no-match error, in that order |
| `Tasks.RegexpIgnoresDestinations` | pkg/tasks/tasks.go:172-201 | the regexp task's outcome does not depend on its destinations |
| `Tasks.RunRunner` | pkg/tasks/tasks.go:122-124 | running a runner gives that implementation's outcome |
| `Tasks.Run` | pkg/tasks/tasks.go:133-160 | no implementation set: "no task implementation"; more than one: "more than one"; exactly one: that implementation's outcome |
| `TaskDiffs.ExitCheck` | pkg/tasks/tasks.go:232-237 | a failure of the diff tool is fatal iff it is an exit error with a code other than 1, and then that code is reported |
| `TaskDiffs.IndexOf` | pkg/tasks/tasks.go:266 | the result is -1 iff the character is absent; otherwise it is the first index holding it |
| `TaskDiffs.LineStart` | pkg/tasks/tasks.go:259-262 | the first four bytes of a header line: its three-byte marker and the next byte |
| `TaskDiffs.TabTail` | pkg/tasks/tasks.go:264-270 | the metadata kept is the line's suffix from the first tab after byte 3 (empty when there is none or it is byte 3) |
| `TaskDiffs.HeaderKeepsMetadata` | pkg/tasks/tasks.go:257-272 | a header line keeps its first four bytes and its tab-separated metadata; only the file path between them is replaced |
| `TaskDiffs.TabTailAt` | pkg/tasks/tasks.go:264-270 | when the first tab after byte 3 is at t > 3, the kept metadata is the line from t |
| `TaskDiffs.HeaderLineRewrite` | pkg/tasks/tasks.go:246-272 | a `+++ file<TAB>meta` header gets the new path and a `---` header the old path; marker and metadata are kept |
| `TaskDiffs.RewriteLinesAppend` | pkg/tasks/tasks.go:241-273 | rewriting a diff is line by line: it distributes over concatenation |
| `TaskDiffs.NoHeadersPassThrough` | pkg/tasks/tasks.go:251-255 | without header lines the output is the input, one newline restored after each line |
| `TaskDiffs.RewriteOne` | pkg/tasks/tasks.go:243-272 | the body of the scan loop for one line, with the tab looked up in the line as scanned (the corrected order), produces that line's rewrite |
| `TaskDiffs.RewriteHeaderOne` | pkg/tasks/tasks.go:257-272 | the header branch of the loop body: first four bytes, the new path, the kept metadata of the line as scanned (the corrected order), a newline |
| `TaskDiffs.Rewrite` | pkg/tasks/tasks.go:239-273 | the scan loop, in the corrected order, builds the rewrite of all lines, in order |
| `TaskDiffs.DiffOutcome` | pkg/tasks/tasks.go:216-286 | success iff the exit status is not fatal and the scanner has no error; then the result is exactly one patch, whose body is the rewrite of all scanned lines, and no copies or deletes; otherwise the exit error first, the scan error second |
| `TaskDiffs.Run` | pkg/tasks/tasks.go:216-286 | the diff task's outcome is DiffOutcome of the diff of the source file in the two module directories |
| `TaskDiffs.HeaderAsWrittenLosesMetadata` | pkg/tasks/tasks.go:259-270 | with the source's order, `--- a<TAB>X` rewritten to `old/dest` loses `<TAB>X`; the corrected rewrite keeps it |
| `TaskDiffs.HeaderAsWrittenAgrees` | pkg/tasks/tasks.go:259-270 | when the new path (tab-free) ends before every tab of the line from byte 4 on, the source's order and the corrected rewrite agree |
| `TaskDiffs.RewriteLinesAsWrittenAgrees` | pkg/tasks/tasks.go:241-273 | when every header's path, written from byte 4, stays inside the header line and ends before its tabs (so nothing spills past the line), the scan loop in the source's order produces the same diff as the corrected one |
| `TaskSyncs.Keep` | pkg/tasks/tasks.go:311-340 | a visit is recorded iff it has no error, is not a directory, passes the recursion filter and matches the glob (if any); the walk fails iff the visit carries an error or the glob match fails, with that error |
| `TaskSyncs.WalkedOk` | pkg/tasks/tasks.go:310-347 | a walk succeeds iff no visit's callback fails |
| `TaskSyncs.WalkedMembers` | pkg/tasks/tasks.go:310-347 | a successful walk records exactly the relative paths of the kept visits |
| `TaskSyncs.WalkedFirstError` | pkg/tasks/tasks.go:310-347 | a failed walk reports the error of the first failing visit |
| `TaskSyncs.WalkedStopsAtError` | pkg/tasks/tasks.go:311-314 | once a prefix of the walk has failed, the later visits change nothing |
| `TaskSyncs.WalkDirectory` | pkg/tasks/tasks.go:310-347 | the map's keys are the walk's recorded paths, all with empty values; an error iff and exactly as the walk fails |
| `TaskSyncs.HashSources` | pkg/tasks/tasks.go:369-383 | succeeds iff every source file also in the destination hashes; then those files hold their hash, the key set is unchanged, and there is one copy per source-only file; otherwise a failing file's error |
| `TaskSyncs.CompareDestinations` | pkg/tasks/tasks.go:385-403 | succeeds iff every destination file also in the source hashes; then there is one copy per shared file whose hashes differ and one delete per destination-only file; otherwise a failing file's error |
| `TaskSyncs.Run` | pkg/tasks/tasks.go:349-407 | a walk error is returned; if every shared file hashes on both sides, exactly one copy per planned copy path, one delete per destination-only path, no patches; if some shared source file fails to hash, the error of such a source file; otherwise the error of a shared destination file |
| `TaskSyncs.ExactlyFacts` | pkg/tasks/tasks.go:369-403 | a planned list has as many entries as paths, an entry for every path and only entries of paths |
| `TaskSyncs.ExactlyConcat` | pkg/tasks/tasks.go:378-398 | the copies of the two loops together list the union of their disjoint path sets, one entry per path |
| `TaskSyncs.PlanDisjoint` | pkg/tasks/tasks.go:369-403 | no path is planned both for a copy and for a delete, and every planned path was walked |
| `TaskSyncs.MirrorIsEmpty` | pkg/tasks/tasks.go:349-407 | a destination that already has the source's paths with equal hashes gives an empty result |
| `GoMods.FirstMatch` | pkg/gomod/go_mod.go:136-137 | -1 or the index of the first entry selected by the old path (and old version, if given); no earlier entry is selected |
| `GoMods.Rejection` | pkg/gomod/go_mod.go:91-93 | no error iff neither module path is refused by the manifest library |
| `GoMods.FirstRequire` | pkg/gomod/go_mod.go:91 | -1 or the index of the first require of the package; no earlier require names it |
| `GoMods.AddRequireEffect` | pkg/gomod/go_mod.go:91 | afterwards the first require of the path has the new version; requires of other paths are unchanged |
| `GoMods.AddReplaceEffect` | pkg/gomod/go_mod.go:125 | the first selected entry is redirected, or a new one appended; every other entry is unchanged; afterwards the first selected entry points at the new module |
| `GoMods.ModFile.AddRequire` | pkg/gomod/go_mod.go:91-93 | a refused path leaves the manifest alone; otherwise the requires become AddRequireEffect; replaces never change |
| `GoMods.ModFile.AddReplace` | pkg/gomod/go_mod.go:125-127 | a refused path leaves the manifest alone; otherwise the replaces become AddReplaceEffect; requires never change |
| `GoMods.Merge` | pkg/gomod/go_mod.go:123-152 | a library error leaves the table; otherwise the replace is added and, for a non-empty comment, the first selected entry's comments become just the marked comment while every other entry stays as added; the old and new modules are exactly those after the add |
| `GoMods.MergeNeverMissesComment` | pkg/gomod/go_mod.go:134-151 | the "entry was not found" error never arises: the only error is the library's |
| `GoMods.MergeKeepsComments` | pkg/gomod/go_mod.go:129-132 | a replace without a comment leaves every existing entry's comment untouched |
| `GoMods.MergeAllLastWins` | pkg/gomod/go_mod.go:160-165 | after merging a queue (with version-less selectors for the path), the path is replaced by the last queued replace for it, or as before if none |
| `GoMods.Insert` | pkg/gomod/go_mod.go:156-158 | inserting into a sorted queue keeps it sorted and adds exactly one entry |
| `GoMods.SortByPriority` | pkg/gomod/go_mod.go:156-158 | the sorted queue is a permutation of the queue, in ascending priority |
| `GoMods.SortedLastHasTopPriority` | pkg/api/api.go:42 | in a sorted queue, the last replace for a path has the highest priority among those for it |
| `GoMods.GoMod.constructor` | pkg/gomod/go_mod.go:38-42 | a new editor has the parsed manifest, its path and an empty queue |
| `GoMods.GoMod.GetReplaces` | pkg/gomod/go_mod.go:59-65 | one entry per manifest replace, in order, with zero priority and no comment |
| `GoMods.GoMod.GetVersionForPackage` | pkg/gomod/go_mod.go:67-78 | the version of the first require of the package; "package not found" iff there is none |
| `GoMods.GoMod.AddReplace` | pkg/gomod/go_mod.go:80-85 | the replace is appended to the queue; never an error |
| `GoMods.GoMod.UpdatePackage` | pkg/gomod/go_mod.go:87-121 | a refused path is returned with nothing changed; otherwise the require is updated and, iff the manifest replaces the package, a version-less managed-priority replace to the new version is queued |
| `GoMods.GoMod.AddReplaceToFile` | pkg/gomod/go_mod.go:123-152 | the manifest's replaces and the error are exactly Merge of the old replaces; requires unchanged |
| `GoMods.GoMod.Finish` | pkg/gomod/go_mod.go:154-165 | the queue is sorted (a permutation in ascending priority) and merged in that order, stopping at the first error |
| `GoMods.FinishHighestPriorityWins` | pkg/gomod/go_mod.go:154-165 | after a successful Finish, a module with queued (version-less) replaces is replaced by one of the highest priority among them |

## Left out

- `TaskDiffs.RewriteOne`, `TaskDiffs.RewriteHeaderOne`, `TaskDiffs.Rewrite`, `TaskDiffs.DiffOutcome` and `TaskDiffs.Run` model the corrected header rewrite: the tab is looked up in the line as scanned. The source writes the path first (see Findings). `TaskDiffs.RewriteLinesAsWrittenAgrees` states when the two agree: every header's path fits inside its line, before its tabs.
- `TaskDiffs.HeaderAsWritten`: the source's write can also run past the scanned token into the scanner's buffer, over the line's `\n` and the start of the next line, which the scanner then returns changed. The model overwrites only the token itself, so this spill is not modelled.
- `Patch.Apply` (tasks.go:26-54) runs the `patch -p 1` subprocess. That is I/O; `TaskResults.Result.Apply` only records the patches handed to it.
- `TaskResults.Result.Apply`: a failing patch is only logged, with the message "applied Patch[n] successfully"; a patch that succeeds is not logged. Logging is not modelled.
- Logging via `log.Printf`, as in the regexp task's submatch loop, is left out everywhere.
- The scanner of `TaskDiff.run` is an input: its split lines and its error. Carriage-return stripping and the 64 KiB token limit are left to it.
- A header token of exactly three bytes: `b[:4]` then reads the scanner buffer's next byte. This is modelled as that line's `\n` terminator. For a line ending in CRLF, the scanner drops the `\r` but that byte is still the fourth one; the model does not cover this case.
- Content lines that begin with `+++` or `---` are rewritten as headers, exactly as the source does. The model states no special property for them.
- `filepath.Join`, `filepath.Base`, `filepath.Rel`, `filepath.Match`, `filepath.Walk`, SHA-256 and `regexp` are parameters, not definitions.
- A `filepath.Rel` error of a non-directory visit is folded into the visit's error. The source calls `Rel` only after skipping directories, so a `Rel` error on a directory is never seen, and the model has no such visit.
- `TaskSyncs.Run` states the copies and deletes as sets, one entry per path. It does not state their order, because Go's map iteration order is unspecified.
- `TaskSyncs.Run`: when several shared source files fail to hash, it states only that the error is one of theirs; likewise for shared destination files when every source file hashes. The map iteration order decides which.
- `NewGoModFromPath` and `NewGoModFromContext` read and parse a file. They are left out; `GoMod.constructor` takes the parsed manifest.
- `Finish` continues after the merge with `File.Format`, `WriteFile`, `go mod verify` and optionally `go mod vendor`. These are I/O and left out; the model ends after the merge loop.
- The `modfile` library is not part of this model.
  - `ModFile` assumes how `AddRequire` and `AddReplace` behave, as described above.
  - Their error conditions are abstracted as a set of refused paths.
  - Comments are one list of tokens per entry.
- `GoMods.GoMod.GetReplaces`: in the source, each returned replace aliases its manifest entry's `Syntax` pointer. Aliasing is not modelled; the entries are values.
- `GoMods.SortByPriority`: `sort.Slice` is not stable, so the order of equal priorities is not stated.
- `GoMods.FinishHighestPriorityWins`: the winner is stated only for modules whose queued replaces carry no old version; a versioned selector can pick a different entry.
- The context accessors (`pkg/context/context.go`) are left out. The model passes the before/after directories and the project root as `Tasks.Context`.

## Findings

| source | as written | input that shows it | evidently intended | confidence | as-written member | corrected member |
|---|---|---|---|---|---|---|
| pkg/tasks/tasks.go:259-270 | `append(b[:4], path...)` writes the new path into the scanned line's own buffer before the tab is searched for in that same buffer, so a path longer than the original overwrites the tab and the timestamp is dropped; a path that runs past the token's end also overwrites the buffered line terminator and the start of the next line | header `--- a<TAB>X` with destination path `old/dest`: the output is `--- old/dest` instead of `--- old/dest<TAB>X` (and the buffered text after the token is overwritten) | keep everything after the path of the original line, as the comment at line 264 says | high, not executed | `TaskDiffs.HeaderAsWrittenLosesMetadata` | `TaskDiffs.HeaderKeepsMetadata` |
