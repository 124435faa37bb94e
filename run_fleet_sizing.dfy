/**
 * The fleet-sizing sweep: for one vulnerable-user probability and one vulnerable
 * interaction time, run one simulation per fleet size 50, 100, ..., 1000, in that
 * order and one after the other, skipping every output directory that already holds
 * its completion marker.
 */
module RunFleetSizing {
  import opened Wrappers
  import opened Text
  import opened BenchmarkRegistry

  /** The options; an absent option is `None`, a present one is already parsed. */
  datatype Options = Options(
    configPath: string,
    vulnerableProbability: Option<real>,
    vulnerableTime: Option<int>)

  const DEFAULT_VULNERABLE_PROBABILITY: real := 0.5
  const DEFAULT_VULNERABLE_TIME: int := 120

  function Probability(opts: Options): real {
    opts.vulnerableProbability.GetOr(DEFAULT_VULNERABLE_PROBABILITY)
  }

  function InteractionTime(opts: Options): int {
    opts.vulnerableTime.GetOr(DEFAULT_VULNERABLE_TIME)
  }

  /** `i * 50` for `i` from 1 to 20. */
  function FleetSizes(): (sizes: seq<int>)
    ensures |sizes| == 20
    ensures forall k | 0 <= k < 20 :: sizes[k] == (k + 1) * 50
  {
    seq(20, k requires 0 <= k < 20 => (k + 1) * 50)
  }

  /** The output directory of one run. */
  function Directory(opts: Options, fleetSize: int, show: Show): string {
    "outputs_fleet_sizing/output_" + show.ofFixed1(Probability(opts)) + "_"
      + show.ofInt(InteractionTime(opts)) + "_" + show.ofInt(fleetSize)
  }

  /** The arguments RunFleetSizing.java:32-39 hands to the simulation of one fleet size. The
      simulation overwrites the vehicles file it is given with the one of its own
      `--fleet-size` option, which is absent here, so every run uses the default fleet. */
  function SimArgsAsWritten(opts: Options, fleetSize: int, show: Show): (args: seq<string>)
    ensures |args| == 12
  {
    [ "--config-path", opts.configPath,
      "--vulnerable-probability", show.ofFixed1(Probability(opts)),
      "--vulnerable-time", show.ofInt(InteractionTime(opts)),
      "--config:controler.outputDirectory", Directory(opts, fleetSize, show),
      "--config:controler.lastIteration", "0",
      "--config:multiModeDrt.drt[mode=drt].vehiclesFile", VehiclesFile(fleetSize, show) ]
  }

  /** The arguments of one fleet size with the fleet size also passed as `--fleet-size`,
      so that the simulation's own choice of vehicles file agrees with the directory. */
  function SimArgs(opts: Options, fleetSize: int, show: Show): (args: seq<string>)
    ensures |args| == 14 && args[..12] == SimArgsAsWritten(opts, fleetSize, show)
  {
    SimArgsAsWritten(opts, fleetSize, show) + ["--fleet-size", show.ofInt(fleetSize)]
  }

  /** The fleet sizes among `sizes`, in order, whose directory has no completion marker. */
  function Pending(opts: Options, sizes: seq<int>, show: Show, fs: set<string>): seq<int>
    decreases |sizes|
  {
    if |sizes| == 0 then []
    else
      var rest := Pending(opts, sizes[..|sizes| - 1], show, fs);
      var last := sizes[|sizes| - 1];
      if Marker(Directory(opts, last, show)) in fs then rest else rest + [last]
  }

  /** The simulation calls, one argument list per pending fleet size, as written. */
  function Calls(opts: Options, sizes: seq<int>, show: Show, fs: set<string>): (calls: seq<seq<string>>)
  {
    var pending := Pending(opts, sizes, show, fs);
    seq(|pending|, k requires 0 <= k < |pending| => SimArgsAsWritten(opts, pending[k], show))
  }

  /** The driver's main loop: the simulations it calls, in call order. */
  method RunSweep(opts: Options, show: Show, fs: set<string>) returns (calls: seq<seq<string>>)
    ensures calls == Calls(opts, FleetSizes(), show, fs)
  {
    var fleetSizes := FleetSizes();
    ghost var pending: seq<int> := [];
    calls := [];
    for i := 0 to |fleetSizes|
      invariant pending == Pending(opts, fleetSizes[..i], show, fs)
      invariant |calls| == |pending|
      invariant forall k | 0 <= k < |calls| :: calls[k] == SimArgsAsWritten(opts, pending[k], show)
    {
      assert fleetSizes[..i + 1][..i] == fleetSizes[..i];
      var fleetSize := fleetSizes[i];
      var outputDirectory := Directory(opts, fleetSize, show);
      if Marker(outputDirectory) in fs {
        continue;
      }
      calls := calls + [SimArgsAsWritten(opts, fleetSize, show)];
      pending := pending + [fleetSize];
    }
    assert fleetSizes[..|fleetSizes|] == fleetSizes;
  }

  /** A fleet size is run exactly when it is one of `sizes` and its directory has no
      completion marker. */
  lemma {:induction false} PendingMembers(opts: Options, sizes: seq<int>, show: Show, fs: set<string>, s: int)
    ensures s in Pending(opts, sizes, show, fs) <==> s in sizes && Marker(Directory(opts, s, show)) !in fs
    decreases |sizes|
  {
    if |sizes| > 0 {
      var init := sizes[..|sizes| - 1];
      PendingMembers(opts, init, show, fs, s);
      assert sizes == init + [sizes[|sizes| - 1]];
    }
  }

  /** Strictly increasing sizes stay strictly increasing once the completed ones are
      dropped. */
  lemma {:induction false} PendingAscending(opts: Options, sizes: seq<int>, show: Show, fs: set<string>)
    requires forall i, j | 0 <= i < j < |sizes| :: sizes[i] < sizes[j]
    ensures forall i, j | 0 <= i < j < |Pending(opts, sizes, show, fs)| ::
      Pending(opts, sizes, show, fs)[i] < Pending(opts, sizes, show, fs)[j]
    decreases |sizes|
  {
    if |sizes| > 0 {
      var init := sizes[..|sizes| - 1];
      var last := sizes[|sizes| - 1];
      PendingAscending(opts, init, show, fs);
      var rest := Pending(opts, init, show, fs);
      assert forall a, b | 0 <= a < b < |rest| :: rest[a] < rest[b];
      forall x | x in rest ensures x < last {
        PendingMembers(opts, init, show, fs, x);
        var k :| 0 <= k < |init| && init[k] == x;
        assert sizes[k] == x;
      }
      var p := Pending(opts, sizes, show, fs);
      if Marker(Directory(opts, last, show)) !in fs {
        assert p == rest + [last];
        forall i, j | 0 <= i < j < |p| ensures p[i] < p[j] {
          if j == |rest| {
            assert p[i] == rest[i] && rest[i] in rest && p[j] == last;
          } else {
            assert p[i] == rest[i] && p[j] == rest[j];
          }
        }
      }
    }
  }

  /** The driver runs the pending fleet sizes in ascending order, each at most once, and
      exactly those of 50, ..., 1000 whose directory is not yet complete. */
  lemma CallsInAscendingFleetSize(opts: Options, show: Show, fs: set<string>)
    ensures var p := Pending(opts, FleetSizes(), show, fs);
      && |Calls(opts, FleetSizes(), show, fs)| == |p|
      && (forall i, j | 0 <= i < j < |p| :: p[i] < p[j])
      && (forall s :: s in p <==>
            (50 <= s <= 1000 && s % 50 == 0 && Marker(Directory(opts, s, show)) !in fs))
  {
    var sizes := FleetSizes();
    PendingAscending(opts, sizes, show, fs);
    forall s ensures s in Pending(opts, sizes, show, fs) <==>
      (50 <= s <= 1000 && s % 50 == 0 && Marker(Directory(opts, s, show)) !in fs)
    {
      PendingMembers(opts, sizes, show, fs, s);
      if 50 <= s <= 1000 && s % 50 == 0 {
        assert sizes[s / 50 - 1] == s;
      }
    }
  }

  /** Different fleet sizes write to different directories, so no run can make a later
      one look complete; and each run is told the very probability and time strings its
      directory is named after. */
  lemma DirectoriesDistinct(opts: Options, show: Show, s1: int, s2: int)
    requires InjectiveOnInts(show)
    ensures Directory(opts, s1, show) == Directory(opts, s2, show) <==> s1 == s2
    ensures SimArgsAsWritten(opts, s1, show)[7] == Directory(opts, s1, show)
    ensures Directory(opts, s1, show) == "outputs_fleet_sizing/output_" + SimArgsAsWritten(opts, s1, show)[3]
              + "_" + SimArgsAsWritten(opts, s1, show)[5] + "_" + show.ofInt(s1)
  {
    var prefix := "outputs_fleet_sizing/output_" + show.ofFixed1(Probability(opts)) + "_"
      + show.ofInt(InteractionTime(opts)) + "_";
    if Directory(opts, s1, show) == Directory(opts, s2, show) {
      assert Directory(opts, s1, show) == prefix + show.ofInt(s1);
      assert Directory(opts, s2, show) == prefix + show.ofInt(s2);
      SameSuffix(prefix, show.ofInt(s1), show.ofInt(s2));
    }
  }
}
