/**
 * The benchmark sweep end to end: read the options, expand the grid, register the
 * combinations (skipping completed directories), then, unless `no-sim` is set, launch
 * the registered simulations through the slot scheduler, terminate whatever is still
 * alive when it stops, and delete the events file of every registered directory.
 *
 * The host (process lifetimes and exit values), the hash-set and hash-map iteration
 * orders, the files present at the start, the files the simulations write and the
 * paths whose deletion fails are all parameters.
 */
module RunBenchmark {
  import opened Wrappers
  import opened Collections
  import opened Text
  import opened BenchmarkGrid
  import opened BenchmarkRegistry
  import opened BenchmarkScheduler

  /** The command-line options of the sweep; an absent option is `None`. The parallelism
      degree is already an integer (parsing it is not modelled). */
  datatype Options = Options(
    configPath: string,
    parallelSims: Option<int>,
    baseOutputPath: Option<string>,
    noSim: Option<string>)

  function SweepOf(opts: Options, show: Show): Sweep {
    Sweep(opts.baseOutputPath.GetOr("outputs"), opts.configPath, show)
  }

  function ParallelSims(opts: Options): int {
    opts.parallelSims.GetOr(1)
  }

  predicate NoSim(opts: Options) {
    ParseBoolean(opts.noSim.GetOr("false"))
  }

  /** The raw combinations, in the order the hash sets `dims` iterate in. */
  function Grid(dims: seq<seq<Value>>): (combos: seq<seq<Value>>)
    requires IsIterationOrder(dims)
    ensures |combos| == 11520 && AllWellTyped(combos)
    ensures forall i | 0 <= i < |combos| :: RealsOf(Overrides(Decode(combos[i]))) <= DeclaredReals()
  {
    DeclaredGridSize(dims);
    var combos := CartesianProduct(dims);
    forall i | 0 <= i < |combos| ensures WellTyped(combos[i]) && RealsOf(Overrides(Decode(combos[i]))) <= DeclaredReals() {
      DeclaredGridReals(dims, combos[i]);
    }
    combos
  }

  /** The task map the registry loop leaves. */
  function SweepTasks(opts: Options, dims: seq<seq<Value>>, show: Show, fs: set<string>): map<string, Task>
    requires IsIterationOrder(dims)
  {
    Registered(Entries(SweepOf(opts, show), Grid(dims)), fs)
  }

  /** The files left once the registry loop has deleted the events files of completed
      directories. */
  function FilesAfterRegistry(opts: Options, dims: seq<seq<Value>>, show: Show, fs: set<string>, undeletable: set<string>): set<string>
    requires IsIterationOrder(dims)
  {
    fs - (SkipCleaned(Entries(SweepOf(opts, show), Grid(dims)), fs) - undeletable)
  }

  function EventsOf(keys: set<string>): set<string> {
    set k | k in keys :: Events(k)
  }

  /** The events files of the keys in `order`. */
  function EventsIn(order: seq<string>): set<string> {
    set j | 0 <= j < |order| :: Events(order[j])
  }

  /** The final loop: try to delete the events file of every key in `order`. A missing
      file or a path in `undeletable` makes the deletion fail, which is only reported. */
  method DeleteEventsFiles(order: seq<string>, files: set<string>, undeletable: set<string>)
    returns (remaining: set<string>)
    ensures remaining == files - (EventsIn(order) - undeletable)
  {
    remaining := files;
    for i := 0 to |order|
      invariant remaining == files - (EventsIn(order[..i]) - undeletable)
    {
      assert EventsIn(order[..i + 1]) == EventsIn(order[..i]) + {Events(order[i])} by {
        assert forall j | 0 <= j < i :: order[..i + 1][j] == order[..i][j];
      }
      var outputEventsFile := Events(order[i]);
      if outputEventsFile in remaining && outputEventsFile !in undeletable {
        remaining := remaining - {outputEventsFile};
      }
    }
    assert order[..|order|] == order;
  }

  /** What a sweep leaves: the task map, the keys launched (in launch order), whether the
      scheduler stopped on a failure, the keys whose processes were forcibly terminated,
      and the files at the end. */
  datatype SweepOutcome = SweepOutcome(
    tasks: map<string, Task>,
    launched: seq<string>,
    failed: bool,
    terminated: set<string>,
    files: set<string>)

  /** A negative parallelism degree makes the slot array's allocation throw, after the
      registry loop has already deleted what it deletes. */
  datatype SweepError = NegativeArraySize(parallelSims: int, files: set<string>)

  /** What running the registered `tasks` with `loop` guarantees: every launched key is
      registered and launched once; only launched keys are terminated, and none after a
      run without failure; without failure every launched simulation exited with 0 and,
      with the corrected loop and at least one slot, every key was launched; with the loop
      as written and one slot at most one key is launched; a failure points at a launched
      simulation with a non-zero exit value; the launches are the first ones of the
      loop specification over the map's iteration order, and the terminated keys are
      exactly the launched ones whose process is still alive when the loop stops; at the
      end the events file of every registered key, launched or not, is gone unless its
      deletion failed, and every other file is still there. */
  predicate Executed(loop: Loop, tasks: map<string, Task>, files: set<string>, undeletable: set<string>,
                     host: Host, produced: set<string>, parallelSims: nat, o: SweepOutcome)
  {
    && o.tasks == tasks
    && (forall i | 0 <= i < |o.launched| :: o.launched[i] in tasks)
    && (forall i, j | 0 <= i < j < |o.launched| :: o.launched[i] != o.launched[j])
    && (forall k | k in o.terminated :: k in o.launched)
    && (!o.failed ==> o.terminated == {})
    && (!o.failed && loop == Refilling && parallelSims > 0 ==> forall k | k in tasks :: k in o.launched)
    && (loop == AsWritten && parallelSims == 1 ==> |o.launched| <= 1)
    && (!o.failed ==> forall i | 0 <= i < |o.launched| :: host.exitValue(i) == 0)
    && (o.failed ==> exists i | 0 <= i < |o.launched| :: host.exitValue(i) != 0)
    && |o.launched| == Run(host, loop, |tasks|, EmptySlots(parallelSims), 0).started
    && o.failed == Run(host, loop, |tasks|, EmptySlots(parallelSims), 0).failed
    && o.terminated == (set i | i in LiveTasks(host, Run(host, loop, |tasks|, EmptySlots(parallelSims), 0).slots)
                                  && i < |o.launched| :: o.launched[i])
    && o.files == (files + produced) - (EventsOf(tasks.Keys) - undeletable)
  }

  /** RunBenchmark.java:156-209: queue the registered tasks in the map's order, run the slot
      scheduler (`AsWritten` is the source's loop, `Refilling` the corrected one),
      terminate what is still alive, delete the events files. */
  method Execute(loop: Loop, tasks: map<string, Task>, files: set<string>, undeletable: set<string>,
                 host: Host, produced: set<string>, parallelSims: nat) returns (o: SweepOutcome)
    ensures Executed(loop, tasks, files, undeletable, host, produced, parallelSims, o)
  {
    var order := IterationOrder(tasks.Keys);
    var started, failed, killed := RunAndTerminate(host, loop, |order|, parallelSims);
    var launched := order[..started];
    var terminated := set t | t in killed :: order[t];
    TerminatedAreLaunched(order, started, killed);
    var remaining := DeleteEventsFiles(order, files + produced, undeletable);
    EventsOfOrder(order, tasks.Keys);
    if failed {
      var t: nat :| t < started && host.exitValue(t) != 0;
      assert launched[t] == order[t];
    }
    o := SweepOutcome(tasks, launched, failed, terminated, remaining);
  }

  /** Killed launch indices name the same keys in the queue and in its launched prefix. */
  lemma TerminatedAreLaunched(order: seq<string>, started: nat, killed: set<nat>)
    requires started <= |order| && forall t | t in killed :: t < started
    ensures (set t | t in killed :: order[t]) == (set t | t in killed && t < |order[..started]| :: order[..started][t])
  {
  }

  /** Deleting along the queue reaches the events file of every registered key. */
  lemma EventsOfOrder(order: seq<string>, keys: set<string>)
    requires Enumerates(order, keys)
    ensures EventsIn(order) == EventsOf(keys)
  {
    forall k | k in keys ensures Events(k) in EventsIn(order) {
      var j :| 0 <= j < |order| && order[j] == k;
    }
  }

  /** The sweep as written, with the source's scheduler loop. `produced` are the files
      the simulations write; `host` decides how long each launched simulation runs and
      how it exits, indexed by launch order. */
  method RunSweep(opts: Options, dims: seq<seq<Value>>, show: Show, fs: set<string>,
                  undeletable: set<string>, host: Host, produced: set<string>)
    returns (r: Result<SweepOutcome, SweepError>)
    requires IsIterationOrder(dims)
    ensures r.Err? <==> !NoSim(opts) && ParallelSims(opts) < 0
    ensures r.Err? ==> r.error.files == FilesAfterRegistry(opts, dims, show, fs, undeletable)
    ensures r.Ok? && NoSim(opts) ==>
      r.value == SweepOutcome(SweepTasks(opts, dims, show, fs), [], false, {},
                              FilesAfterRegistry(opts, dims, show, fs, undeletable))
    ensures r.Ok? && !NoSim(opts) ==>
      Executed(AsWritten, SweepTasks(opts, dims, show, fs), FilesAfterRegistry(opts, dims, show, fs, undeletable),
               undeletable, host, produced, ParallelSims(opts), r.value)
  {
    var combos := Grid(dims);
    var sweep := SweepOf(opts, show);
    var simulationTasks, files := Register(sweep, combos, fs, undeletable);
    var parallelSims := opts.parallelSims.GetOr(1);
    var noSim := ParseBoolean(opts.noSim.GetOr("false"));
    if noSim {
      return Ok(SweepOutcome(simulationTasks, [], false, {}, files));
    }
    if parallelSims < 0 {
      return Err(NegativeArraySize(parallelSims, files));
    }
    var o := Execute(AsWritten, simulationTasks, files, undeletable, host, produced, parallelSims);
    return Ok(o);
  }

  /** A directory that held its completion marker still holds it after the sweep, so a
      second sweep over the same files skips it again. */
  lemma CompletedDirectoriesStayCompleted(opts: Options, dims: seq<seq<Value>>, show: Show,
                                          fs: set<string>, undeletable: set<string>, produced: set<string>, dir: string)
    requires IsIterationOrder(dims)
    requires Marker(dir) in fs
    ensures Marker(dir) in FilesAfterRegistry(opts, dims, show, fs, undeletable)
    ensures Marker(dir) in (FilesAfterRegistry(opts, dims, show, fs, undeletable) + produced)
                           - (EventsOf(SweepTasks(opts, dims, show, fs).Keys) - undeletable)
  {
    MarkerNeverCleaned(Entries(SweepOf(opts, show), Grid(dims)), |Grid(dims)|, fs);
    assert Entries(SweepOf(opts, show), Grid(dims))[..|Grid(dims)|] == Entries(SweepOf(opts, show), Grid(dims));
    forall k | k in SweepTasks(opts, dims, show, fs).Keys ensures Events(k) != Marker(dir) {
      MarkerIsNotEvents(dir, k);
    }
  }
}
