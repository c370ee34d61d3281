/**
 * A task of the promotion configuration: at most one of four implementations is set, and
 * Task.Run dispatches to it. Also the two small implementations (regexp, go-mod replace).
 */
module Tasks {
  import opened Errors
  import opened TaskResults
  import TaskDiffs
  import TaskSyncs

  /** The values the task reads from its context: the two downloaded module trees and the project root. */
  datatype Context = Context(beforeDir: string, afterDir: string, rootPath: string)

  /**
   * The collaborators a task reaches through the standard library and the operating system:
   * filepath.Join, the diff subprocess, filepath.Walk, filepath.Match, the file hash,
   * regexp.Compile (its error), ioutil.ReadFile and Regexp.FindSubmatch.
   */
  datatype World = World(
    join: (string, string) -> string,
    runDiff: (string, string) -> TaskDiffs.DiffOutput,
    walk: string -> seq<TaskSyncs.Visit>,
    globMatch: (string, string) -> Outcome<bool>,
    hash: string -> Outcome<string>,
    compile: string -> Option<Error>,
    readFile: string -> Outcome<seq<char>>,
    findSubmatch: (string, seq<char>) -> seq<seq<char>>)

  datatype TaskGoModReplace = TaskGoModReplace(name: string)

  /** The go-mod-replace task is declared but not implemented: it always fails with NotImplemented. */
  function RunGoModReplace(t: TaskGoModReplace): (r: Outcome<Option<Result>>)
    ensures r == Fail(NotImplemented)
  {
    Fail(NotImplemented)
  }

  datatype RegexpSpec = RegexpSpec(path: string, regexp: string)

  datatype TaskRegexp = TaskRegexp(source: RegexpSpec, destinations: seq<RegexpSpec>)

  /**
   * The regexp task only checks that its source pattern matches the source file of the new
   * module version; it produces no change set and never looks at its destinations.
   */
  function RunRegexp(t: TaskRegexp, ctx: Context, w: World): (r: Outcome<Option<Result>>)
    ensures r.Ok? ==> r.value.None?
    ensures r.Ok? <==> && w.compile(t.source.regexp).None?
                       && w.readFile(w.join(ctx.afterDir, t.source.path)).Ok?
                       && |w.findSubmatch(t.source.regexp, w.readFile(w.join(ctx.afterDir, t.source.path)).value)| > 0
    ensures w.compile(t.source.regexp).Some? ==> r == Fail(w.compile(t.source.regexp).value)
    ensures w.compile(t.source.regexp).None? && w.readFile(w.join(ctx.afterDir, t.source.path)).Fail?
            ==> r == Fail(w.readFile(w.join(ctx.afterDir, t.source.path)).error)
    ensures r.Fail? && w.compile(t.source.regexp).None? && w.readFile(w.join(ctx.afterDir, t.source.path)).Ok?
            ==> r == Fail(RegexpNoMatch(t.source.regexp, t.source.path))
  {
    match w.compile(t.source.regexp)
    case Some(e) => Fail(e)
    case None =>
      match w.readFile(w.join(ctx.afterDir, t.source.path))
      case Fail(e) => Fail(e)
      case Ok(data) =>
        if |w.findSubmatch(t.source.regexp, data)| == 0 then Fail(RegexpNoMatch(t.source.regexp, t.source.path))
        else Ok(None)
  }

  /** Whatever the destinations, the regexp task behaves the same. */
  lemma RegexpIgnoresDestinations(t: TaskRegexp, ds: seq<RegexpSpec>, ctx: Context, w: World)
    ensures RunRegexp(t.(destinations := ds), ctx, w) == RunRegexp(t, ctx, w)
  {
  }

  /** A task configuration: each implementation is an optional (nil-able) pointer. */
  datatype Task = Task(
    syncDirectory: Option<TaskSyncs.TaskSyncDirectory>,
    diff: Option<TaskDiffs.TaskDiff>,
    goModReplace: Option<TaskGoModReplace>,
    regexp: Option<TaskRegexp>)

  /** The taskRunner interface: one variant per implementation. */
  datatype Runner =
    | SyncRunner(sync: TaskSyncs.TaskSyncDirectory)
    | DiffRunner(diff: TaskDiffs.TaskDiff)
    | GoModReplaceRunner(goModReplace: TaskGoModReplace)
    | RegexpRunner(regexp: TaskRegexp)

  /** How many implementations a task sets. */
  function Populated(t: Task): nat
  {
    (if t.syncDirectory.Some? then 1 else 0) + (if t.diff.Some? then 1 else 0)
    + (if t.goModReplace.Some? then 1 else 0) + (if t.regexp.Some? then 1 else 0)
  }

  /** What a runner's run may return in a given context. */
  ghost predicate RunnerOutcome(runner: Runner, ctx: Context, w: World, r: Outcome<Option<Result>>)
  {
    match runner
    case SyncRunner(s) =>
      TaskSyncs.SyncOutcome(s, w.join(ctx.afterDir, s.source), w.join(ctx.rootPath, s.destination),
                            w.join, w.walk, w.globMatch, w.hash, r)
    case DiffRunner(d) =>
      r == TaskDiffs.DiffOutcome(w.runDiff(w.join(ctx.beforeDir, d.source), w.join(ctx.afterDir, d.source)),
                                 w.join("new", d.destination), w.join("old", d.destination))
    case GoModReplaceRunner(g) => r == RunGoModReplace(g)
    case RegexpRunner(x) => r == RunRegexp(x, ctx, w)
  }

  /** taskRunner.run, dispatched on the implementation. */
  method RunRunner(runner: Runner, ctx: Context, w: World) returns (r: Outcome<Option<Result>>)
    ensures RunnerOutcome(runner, ctx, w, r)
  {
    match runner
    case SyncRunner(s) =>
      r := TaskSyncs.Run(s, ctx.afterDir, ctx.rootPath, w.join, w.walk, w.globMatch, w.hash);
    case DiffRunner(d) =>
      r := TaskDiffs.Run(d, ctx.beforeDir, ctx.afterDir, w.join, w.runDiff);
    case GoModReplaceRunner(g) =>
      r := RunGoModReplace(g);
    case RegexpRunner(x) =>
      r := RunRegexp(x, ctx, w);
  }

  /**
   * Task.Run: collects the set implementations in declaration order and runs the only one;
   * none or several is an error.
   */
  method Run(t: Task, ctx: Context, w: World) returns (r: Outcome<Option<Result>>)
    ensures Populated(t) == 0 ==> r == Fail(NoTaskImplementation)
    ensures Populated(t) > 1 ==> r == Fail(MoreThanOneTaskImplementation)
    ensures Populated(t) == 1 && t.syncDirectory.Some? ==> RunnerOutcome(SyncRunner(t.syncDirectory.value), ctx, w, r)
    ensures Populated(t) == 1 && t.diff.Some? ==> RunnerOutcome(DiffRunner(t.diff.value), ctx, w, r)
    ensures Populated(t) == 1 && t.goModReplace.Some? ==> r == Fail(NotImplemented)
    ensures Populated(t) == 1 && t.regexp.Some? ==> r == RunRegexp(t.regexp.value, ctx, w)
  {
    var runners: seq<Runner> := [];
    if t.syncDirectory.Some? {
      runners := runners + [SyncRunner(t.syncDirectory.value)];
    }
    if t.diff.Some? {
      runners := runners + [DiffRunner(t.diff.value)];
    }
    if t.goModReplace.Some? {
      runners := runners + [GoModReplaceRunner(t.goModReplace.value)];
    }
    if t.regexp.Some? {
      runners := runners + [RegexpRunner(t.regexp.value)];
    }
    if |runners| == 0 {
      return Fail(NoTaskImplementation);
    }
    if |runners| > 1 {
      return Fail(MoreThanOneTaskImplementation);
    }
    r := RunRunner(runners[0], ctx, w);
  }
}
