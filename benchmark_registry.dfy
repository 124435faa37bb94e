/**
 * The registry loop of the benchmark sweep: every raw combination gets its output
 * directory; a directory that already holds the completion marker is skipped (and its
 * events file deleted, best effort); every other one is put into the task map under
 * its directory, a later combination overwriting an earlier one with the same key.
 */
module BenchmarkRegistry {
  import opened Text
  import opened BenchmarkGrid

  const MARKER_FILE: string := "modestats.csv"
  const EVENTS_FILE: string := "output_events.xml.gz"

  /** The completion marker of an output directory. */
  function Marker(dir: string): string { PathOf(dir, MARKER_FILE) }

  /** The large events file of an output directory. */
  function Events(dir: string): string { PathOf(dir, EVENTS_FILE) }

  /** A marker path is never an events path, so deleting events files never hides a
      marker. */
  lemma MarkerIsNotEvents(d1: string, d2: string)
    ensures Marker(d1) != Events(d2)
  {
    var m, e := Marker(d1), Events(d2);
    assert m[|m| - 1] == 'v';
    assert e[|e| - 1] == 'z';
  }

  /** The command-line arguments of one simulation. */
  type Task = seq<string>

  /** What every combination of one sweep shares: the output root, the configuration
      path handed on to each simulation, and the number formatting. */
  datatype Sweep = Sweep(baseOutputPath: string, configPath: string, show: Show)

  predicate AllWellTyped(combos: seq<seq<Value>>) {
    forall i | 0 <= i < |combos| :: WellTyped(combos[i])
  }

  /** The registry key (output directory) of a raw combination. */
  function KeyOf(sweep: Sweep, params: seq<Value>): string
    requires WellTyped(params)
  {
    OutputDirectory(sweep.baseOutputPath, Overrides(Decode(params)), sweep.show)
  }

  /** The arguments registered for a raw combination. */
  function ArgsOf(sweep: Sweep, params: seq<Value>): (args: Task)
    requires WellTyped(params)
    ensures |args| == 26 && args[7] == KeyOf(sweep, params)
  {
    SimArgs(sweep.configPath, Overrides(Decode(params)), KeyOf(sweep, params), sweep.show)
  }

  /** A combination as the registry sees it: its key and its arguments. */
  datatype Entry = Entry(key: string, args: Task)

  function EntryOf(sweep: Sweep, params: seq<Value>): (e: Entry)
    requires WellTyped(params)
    ensures e.key == KeyOf(sweep, params) && e.args == ArgsOf(sweep, params)
  {
    Entry(KeyOf(sweep, params), ArgsOf(sweep, params))
  }

  function Entries(sweep: Sweep, combos: seq<seq<Value>>): (es: seq<Entry>)
    requires AllWellTyped(combos)
    ensures |es| == |combos|
    ensures forall i | 0 <= i < |combos| :: es[i] == EntryOf(sweep, combos[i])
  {
    seq(|combos|, i requires 0 <= i < |combos| => EntryOf(sweep, combos[i]))
  }

  /** The task map after registering `entries` in order against the file set `fs`. */
  function Registered(entries: seq<Entry>, fs: set<string>): map<string, Task> {
    if |entries| == 0 then map[]
    else
      var last := entries[|entries| - 1];
      var prev := Registered(entries[..|entries| - 1], fs);
      if Marker(last.key) in fs then prev else prev[last.key := last.args]
  }

  /** The events files the skip branch deletes: those of marked directories that exist. */
  function SkipCleaned(entries: seq<Entry>, fs: set<string>): set<string> {
    set i | 0 <= i < |entries| && Marker(entries[i].key) in fs && Events(entries[i].key) in fs
      :: Events(entries[i].key)
  }

  /** The loop of the sweep over the cartesian product. Deleting a path in
      `undeletable` fails and is only reported, so that file stays. */
  method Register(sweep: Sweep, combos: seq<seq<Value>>, fs: set<string>, undeletable: set<string>)
    returns (tasks: map<string, Task>, files: set<string>)
    requires AllWellTyped(combos)
    ensures tasks == Registered(Entries(sweep, combos), fs)
    ensures files == fs - (SkipCleaned(Entries(sweep, combos), fs) - undeletable)
  {
    ghost var entries := Entries(sweep, combos);
    ghost var cleaned: set<string> := {};
    tasks, files := map[], fs;
    for i := 0 to |combos|
      invariant tasks == Registered(entries[..i], fs)
      invariant cleaned == SkipCleaned(entries[..i], fs)
      invariant files == fs - (cleaned - undeletable)
    {
      var outputDirectory := KeyOf(sweep, combos[i]);
      var outputEventsFile := Events(outputDirectory);
      MarkerNeverCleaned(entries, i, fs);
      RegisterStep(entries, i, fs);
      SkipCleanedStep(entries, i, fs);
      if Marker(outputDirectory) in files {
        DeleteStep(fs, cleaned, undeletable, outputEventsFile);
        if outputEventsFile in fs {
          cleaned := cleaned + {outputEventsFile};
        }
        if outputEventsFile in files && outputEventsFile !in undeletable {
          files := files - {outputEventsFile};
        }
        continue;
      }
      var simArgs := ArgsOf(sweep, combos[i]);
      tasks := tasks[outputDirectory := simArgs];
    }
    assert entries[..|combos|] == entries;
  }

  /** Deleting one more events file (best effort) keeps the file set equal to the start
      set minus the deletable part of what has been cleaned. */
  lemma DeleteStep(fs: set<string>, cleaned: set<string>, undeletable: set<string>, e: string)
    ensures var files := fs - (cleaned - undeletable);
      (if e in files && e !in undeletable then files - {e} else files)
        == fs - ((if e in fs then cleaned + {e} else cleaned) - undeletable)
  {
  }

  /** One step of the loop, stated on entries: deleting events files never removes the
      marker the next step looks for. */
  lemma MarkerNeverCleaned(entries: seq<Entry>, i: nat, fs: set<string>)
    requires i <= |entries|
    ensures forall key :: Marker(key) !in SkipCleaned(entries[..i], fs)
  {
    forall key, e | e in SkipCleaned(entries[..i], fs) ensures e != Marker(key) {
      var j :| 0 <= j < i && e == Events(entries[..i][j].key);
      MarkerIsNotEvents(key, entries[..i][j].key);
    }
  }

  lemma RegisterStep(entries: seq<Entry>, i: nat, fs: set<string>)
    requires i < |entries|
    ensures Registered(entries[..i + 1], fs) ==
      if Marker(entries[i].key) in fs then Registered(entries[..i], fs)
      else Registered(entries[..i], fs)[entries[i].key := entries[i].args]
  {
    assert entries[..i + 1][..i] == entries[..i];
  }

  lemma SkipCleanedStep(entries: seq<Entry>, i: nat, fs: set<string>)
    requires i < |entries|
    ensures SkipCleaned(entries[..i + 1], fs) == SkipCleaned(entries[..i], fs) +
      (if Marker(entries[i].key) in fs && Events(entries[i].key) in fs then {Events(entries[i].key)} else {})
  {
    var prefix, next := entries[..i], entries[..i + 1];
    var extra := if Marker(entries[i].key) in fs && Events(entries[i].key) in fs then {Events(entries[i].key)} else {};
    forall e | e in SkipCleaned(next, fs) ensures e in SkipCleaned(prefix, fs) + extra {
      var j :| 0 <= j < i + 1 && Marker(next[j].key) in fs && Events(next[j].key) in fs && e == Events(next[j].key);
      if j < i { assert next[j] == prefix[j]; }
    }
    forall e | e in SkipCleaned(prefix, fs) + extra ensures e in SkipCleaned(next, fs) {
      if e in SkipCleaned(prefix, fs) {
        var j :| 0 <= j < i && Marker(prefix[j].key) in fs && Events(prefix[j].key) in fs && e == Events(prefix[j].key);
        assert next[j] == prefix[j];
      } else {
        assert next[i] == entries[i];
      }
    }
  }

  /** A key is registered exactly when some entry carries it and its directory has no
      completion marker. */
  lemma {:induction false} RegisteredKeys(entries: seq<Entry>, fs: set<string>, key: string)
    ensures key in Registered(entries, fs) <==>
      Marker(key) !in fs && exists i :: 0 <= i < |entries| && entries[i].key == key
  {
    if |entries| > 0 {
      var init := entries[..|entries| - 1];
      RegisteredKeys(init, fs, key);
      if exists i :: 0 <= i < |init| && init[i].key == key {
        var i :| 0 <= i < |init| && init[i].key == key;
        assert entries[i] == init[i];
      }
      if exists i :: 0 <= i < |entries| && entries[i].key == key {
        var i :| 0 <= i < |entries| && entries[i].key == key;
        if i < |init| { assert init[i] == entries[i]; }
      }
    }
  }

  /** Last write wins: a registered key holds the arguments of the LAST entry carrying it. */
  lemma {:induction false} LastWriteWins(entries: seq<Entry>, fs: set<string>, key: string)
    requires key in Registered(entries, fs)
    ensures exists j :: (0 <= j < |entries| && entries[j].key == key
      && Registered(entries, fs)[key] == entries[j].args
      && forall j' | j < j' < |entries| :: entries[j'].key != key)
  {
    var n := |entries|;
    var init := entries[..n - 1];
    if entries[n - 1].key == key {
      RegisteredKeys(entries, fs, key);
      assert Registered(entries, fs)[key] == entries[n - 1].args;
    } else {
      LastWriteWins(init, fs, key);
      var j :| 0 <= j < |init| && init[j].key == key
        && Registered(init, fs)[key] == init[j].args
        && forall j' | j < j' < |init| :: init[j'].key != key;
      assert entries[j] == init[j];
      forall j' | j < j' < n ensures entries[j'].key != key {
        if j' < n - 1 { assert entries[j'] == init[j']; }
      }
    }
  }

  /** The surviving arguments agree with those of EVERY combination sharing the key,
      except possibly for the vulnerable time and alpha. `reals` holds the doubles the
      names print; for the declared grid that is `DeclaredReals()` (see `Grid`). */
  lemma SurvivorAgreesWithColliders(sweep: Sweep, combos: seq<seq<Value>>, fs: set<string>, key: string, i: nat,
                                    reals: set<real>)
    requires AllWellTyped(combos)
    requires WellFormed(sweep.show, reals)
    requires forall k | 0 <= k < |combos| :: RealsOf(Overrides(Decode(combos[k]))) <= reals
    requires key in Registered(Entries(sweep, combos), fs)
    requires i < |combos| && KeyOf(sweep, combos[i]) == key
    ensures |Registered(Entries(sweep, combos), fs)[key]| == 26
    ensures forall k | 0 <= k < 26 && k != VULNERABLE_TIME_ARG && k != WEIGHT_ALPHA_ARG ::
      Registered(Entries(sweep, combos), fs)[key][k] == ArgsOf(sweep, combos[i])[k]
  {
    var entries := Entries(sweep, combos);
    LastWriteWins(entries, fs, key);
    var j :| 0 <= j < |entries| && entries[j].key == key
      && Registered(entries, fs)[key] == entries[j].args
      && forall j' | j < j' < |entries| :: entries[j'].key != key;
    var ej, ei := Overrides(Decode(combos[j])), Overrides(Decode(combos[i]));
    SameDirectoryIffSameExperiment(sweep.baseOutputPath, ej, ei, sweep.show, reals);
    CollidingArgumentsDifferOnlyInDroppedValues(sweep.configPath, ej, ei, key, sweep.show);
  }
}
