/**
 * The scenario preparation of a single simulation run: read the options (with their
 * defaults), point every DRT mode at the vehicles file of the fleet size, drop the
 * routes of DRT legs in the selected plans, and give every person an interaction time,
 * the vulnerable one with the configured probability.
 *
 * Number parsing, the random generator (as the stream of its `nextDouble` draws) and the
 * population's iteration order are parameters.
 */
module RunSimulation {
  import opened Wrappers
  import opened Text
  import opened Collections
  import opened Population
  import UserSpecificStopTime
  import InclusiveRejectionPenalty
  import BenchmarkGrid
  import RunFleetSizing

  /** The value that follows `flag` when `args` is read as "--name value" pairs; the
      first occurrence wins. */
  function FlagValue(args: seq<string>, flag: string): Option<string>
    decreases |args|
  {
    if |args| < 2 then None
    else if args[0] == flag then Some(args[1])
    else FlagValue(args[2..], flag)
  }

  /** A flag that is not the name of any pair has no value. */
  lemma {:induction false} FlagAbsent(args: seq<string>, flag: string)
    requires forall i | 0 <= i < |args| - 1 && i % 2 == 0 :: args[i] != flag
    ensures FlagValue(args, flag) == None
    decreases |args|
  {
    if |args| >= 2 {
      assert args[0] != flag;
      forall i | 0 <= i < |args[2..]| - 1 && i % 2 == 0 ensures args[2..][i] != flag {
        assert args[2..][i] == args[i + 2];
      }
      FlagAbsent(args[2..], flag);
    }
  }

  /** The first pair named `flag` gives its value. */
  lemma {:induction false} FlagAt(args: seq<string>, flag: string, i: nat)
    requires i < |args| - 1 && i % 2 == 0 && args[i] == flag
    requires forall j | 0 <= j < i && j % 2 == 0 :: args[j] != flag
    ensures FlagValue(args, flag) == Some(args[i + 1])
    decreases i
  {
    if i > 0 {
      assert args[0] != flag;
      forall j | 0 <= j < i - 2 && j % 2 == 0 ensures args[2..][j] != flag {
        assert args[2..][j] == args[j + 2];
      }
      FlagAt(args[2..], flag, i - 2);
    }
  }

  /** The options this driver reads; an absent option is `None`. */
  datatype Options = Options(
    randomSeed: Option<int>,
    fleetSize: Option<int>,
    vulnerableProbability: Option<real>,
    vulnerableTime: Option<real>)

  function IntOption(args: seq<string>, flag: string, readInt: string -> int): Option<int> {
    match FlagValue(args, flag)
    case Some(v) => Some(readInt(v))
    case None => None
  }

  function RealOption(args: seq<string>, flag: string, readDouble: string -> real): Option<real> {
    match FlagValue(args, flag)
    case Some(v) => Some(readDouble(v))
    case None => None
  }

  /** The options found in `args`, parsed by `Integer.parseInt` and `Double.parseDouble`. */
  function OptionsOf(args: seq<string>, readInt: string -> int, readDouble: string -> real): Options {
    Options(
      IntOption(args, "--random-seed", readInt),
      IntOption(args, "--fleet-size", readInt),
      RealOption(args, "--vulnerable-probability", readDouble),
      RealOption(args, "--vulnerable-time", readDouble))
  }

  const DEFAULT_RANDOM_SEED: int := 1234
  const DEFAULT_FLEET_SIZE: int := 100
  const DEFAULT_VULNERABLE_PROBABILITY: real := 0.0
  const DEFAULT_VULNERABLE_TIME: real := 120.0

  /** The interaction time of every person who is not drawn as vulnerable. */
  const REGULAR_INTERACTION_TIME: real := 60.0

  function RandomSeed(opts: Options): int { opts.randomSeed.GetOr(DEFAULT_RANDOM_SEED) }
  function FleetSize(opts: Options): int { opts.fleetSize.GetOr(DEFAULT_FLEET_SIZE) }
  function VulnerableProbability(opts: Options): real {
    opts.vulnerableProbability.GetOr(DEFAULT_VULNERABLE_PROBABILITY)
  }
  function VulnerableTime(opts: Options): real { opts.vulnerableTime.GetOr(DEFAULT_VULNERABLE_TIME) }

  /** Without any of its options a run uses seed 1234, 100 vehicles, nobody vulnerable
      (except on a draw of exactly 0) and 120 seconds for the vulnerable. */
  lemma Defaults(readInt: string -> int, readDouble: string -> real)
    ensures var opts := OptionsOf([], readInt, readDouble);
      && RandomSeed(opts) == 1234 && FleetSize(opts) == 100
      && VulnerableProbability(opts) == 0.0 && VulnerableTime(opts) == 120.0
  {
  }

  /** Every fleet-sizing run, as the driver writes its arguments, has no `--fleet-size`
      option, so its simulation uses the vehicles file of 100 vehicles; for any other
      fleet size that is not the file the driver named, as soon as distinct integers
      print differently. */
  lemma FleetSizingRunsUseDefaultFleet(opts: RunFleetSizing.Options, s: int, show: Show,
                                       readInt: string -> int, readDouble: string -> real)
    ensures var args := RunFleetSizing.SimArgsAsWritten(opts, s, show);
      && FleetSize(OptionsOf(args, readInt, readDouble)) == DEFAULT_FLEET_SIZE
      && (InjectiveOnInts(show) && s != DEFAULT_FLEET_SIZE ==>
            VehiclesFile(FleetSize(OptionsOf(args, readInt, readDouble)), show) != args[11])
  {
    var args := RunFleetSizing.SimArgsAsWritten(opts, s, show);
    forall i | 0 <= i < |args| - 1 && i % 2 == 0 ensures args[i] != "--fleet-size" {
      assert i in {0, 2, 4, 6, 8, 10};
    }
    FlagAbsent(args, "--fleet-size");
    if InjectiveOnInts(show) && s != DEFAULT_FLEET_SIZE && VehiclesFile(DEFAULT_FLEET_SIZE, show) == VehiclesFile(s, show) {
      SamePrefix("drt_vehicles_" + show.ofInt(DEFAULT_FLEET_SIZE), "drt_vehicles_" + show.ofInt(s), ".xml.gz");
      SameSuffix("drt_vehicles_", show.ofInt(DEFAULT_FLEET_SIZE), show.ofInt(s));
    }
  }

  /** Every simulation the fleet-sizing driver calls runs 100 vehicles, whatever size its
      directory is named after. */
  lemma FleetSizingCallsUseDefaultFleet(opts: RunFleetSizing.Options, show: Show, fs: set<string>,
                                        readInt: string -> int, readDouble: string -> real)
    ensures var calls := RunFleetSizing.Calls(opts, RunFleetSizing.FleetSizes(), show, fs);
      forall k | 0 <= k < |calls| :: FleetSize(OptionsOf(calls[k], readInt, readDouble)) == DEFAULT_FLEET_SIZE
  {
    var pending := RunFleetSizing.Pending(opts, RunFleetSizing.FleetSizes(), show, fs);
    forall k | 0 <= k < |pending|
      ensures FleetSize(OptionsOf(RunFleetSizing.SimArgsAsWritten(opts, pending[k], show), readInt, readDouble))
        == DEFAULT_FLEET_SIZE
    {
      FleetSizingRunsUseDefaultFleet(opts, pending[k], show, readInt, readDouble);
    }
  }

  /** `Integer.parseInt` reads back what `Integer.toString` printed. */
  ghost predicate ReadsBack(show: Show, readInt: string -> int) {
    forall n: int :: readInt(show.ofInt(n)) == n
  }

  /** With the fleet size passed as an option, each fleet-sizing run uses the vehicles
      file its directory is named after. */
  lemma FleetSizingRunsUseTheirFleet(opts: RunFleetSizing.Options, s: int, show: Show,
                                     readInt: string -> int, readDouble: string -> real)
    requires ReadsBack(show, readInt)
    ensures var args := RunFleetSizing.SimArgs(opts, s, show);
      && FleetSize(OptionsOf(args, readInt, readDouble)) == s
      && VehiclesFile(FleetSize(OptionsOf(args, readInt, readDouble)), show) == args[11]
  {
    var args := RunFleetSizing.SimArgs(opts, s, show);
    forall j | 0 <= j < 12 && j % 2 == 0 ensures args[j] != "--fleet-size" {
      assert j in {0, 2, 4, 6, 8, 10};
    }
    FlagAt(args, "--fleet-size", 12);
  }

  /** Every benchmark run passes its fleet size, so its simulation uses that fleet. */
  lemma BenchmarkRunsUseTheirFleet(configPath: string, e: BenchmarkGrid.Combination, dir: string, show: Show,
                                   readInt: string -> int, readDouble: string -> real)
    requires ReadsBack(show, readInt)
    ensures FleetSize(OptionsOf(BenchmarkGrid.SimArgs(configPath, e, dir, show), readInt, readDouble)) == e.fleetSize
  {
    var args := BenchmarkGrid.SimArgs(configPath, e, dir, show);
    assert args[..12] == ["--config-path", configPath,
                          "--vulnerable-probability", show.ofReal(e.vulnerableProbability),
                          "--vulnerable-time", show.ofInt(e.vulnerableTime),
                          "--config:controler.outputDirectory", dir,
                          "--config:controler.lastIteration", "0",
                          "--fleet-size", show.ofInt(e.fleetSize)];
    forall j | 0 <= j < 10 && j % 2 == 0 ensures args[j] != "--fleet-size" {
      assert args[j] == args[..12][j];
      assert j in {0, 2, 4, 6, 8};
    }
    assert args[10] == args[..12][10];
    FlagAt(args, "--fleet-size", 10);
  }

  /** The configuration of one DRT mode; only its mode name and vehicles file are modelled. */
  class DrtModeParams {
    var mode: string
    var vehiclesFile: string

    constructor (mode: string, vehiclesFile: string)
      ensures this.mode == mode && this.vehiclesFile == vehiclesFile
    {
      this.mode := mode;
      this.vehiclesFile := vehiclesFile;
    }
  }

  /** RunSimulation.java:74-80: every mode's vehicles file becomes the one of `fleetSize`, whatever
      the configuration had set; the mode names stay. */
  method SetVehiclesFiles(elements: seq<DrtModeParams>, fleetSize: int, show: Show)
    modifies set e | e in elements
    ensures forall e | e in elements :: e.vehiclesFile == VehiclesFile(fleetSize, show)
    ensures forall e | e in elements :: e.mode == old(e.mode)
  {
    for i := 0 to |elements|
      invariant forall k | 0 <= k < i :: elements[k].vehiclesFile == VehiclesFile(fleetSize, show)
      invariant forall e | e in elements :: e.mode == old(e.mode)
    {
      elements[i].vehiclesFile := VehiclesFile(fleetSize, show);
    }
  }

  /** A plan with the route of every leg of a DRT mode removed. */
  function ClearPlan(plan: seq<PlanElement>, drtModes: set<string>): (r: seq<PlanElement>)
    ensures |r| == |plan|
    ensures forall i | 0 <= i < |plan| && plan[i].Leg? && plan[i].mode in drtModes ::
      r[i] == Leg(plan[i].mode, None)
    ensures forall i | 0 <= i < |plan| && !(plan[i].Leg? && plan[i].mode in drtModes) ::
      r[i] == plan[i]
  {
    seq(|plan|, i requires 0 <= i < |plan| =>
      if plan[i].Leg? && plan[i].mode in drtModes then Leg(plan[i].mode, None) else plan[i])
  }

  /** Clearing twice is clearing once; afterwards no DRT leg has a route. */
  lemma ClearPlanIdempotent(plan: seq<PlanElement>, drtModes: set<string>)
    ensures ClearPlan(ClearPlan(plan, drtModes), drtModes) == ClearPlan(plan, drtModes)
    ensures forall i | 0 <= i < |plan| && ClearPlan(plan, drtModes)[i].Leg? &&
      ClearPlan(plan, drtModes)[i].mode in drtModes :: ClearPlan(plan, drtModes)[i].route == None
  {
  }

  /** What RunSimulation.java:85-90 leaves: the same persons, each with the DRT routes of its selected
      plan removed, and nothing else changed. */
  ghost predicate RoutesCleared(before: Persons, after: Persons, drtModes: set<string>) {
    && after.Keys == before.Keys
    && forall id | id in before ::
         after[id] == before[id].(selectedPlan := ClearPlan(before[id].selectedPlan, drtModes))
  }

  /** The interaction time of a person whose draw is `draw`. */
  function TimeFor(draw: real, probability: real, vulnerableTime: real): (t: real)
    ensures t == vulnerableTime || t == REGULAR_INTERACTION_TIME
  {
    if draw <= probability then vulnerableTime else REGULAR_INTERACTION_TIME
  }

  /** A person with `time` stored as its interaction time, every other attribute kept. */
  function WithTime(p: Person, time: real): Person {
    p.(attributes := p.attributes[INTERACTION_TIME_KEY := DoubleAttr(time)])
  }

  /** What RunSimulation.java:98-105 leaves: the same persons; the `i`-th in iteration order holds the
      interaction time of the `i`-th draw and is otherwise unchanged. */
  ghost predicate TimesAssigned(before: Persons, after: Persons, order: seq<PersonId>,
                                draws: nat -> real, probability: real, vulnerableTime: real) {
    && after.Keys == before.Keys
    && forall i | 0 <= i < |order| && order[i] in before ::
         after[order[i]] == WithTime(before[order[i]], TimeFor(draws(i), probability, vulnerableTime))
  }

  /** `Random.nextDouble` lies in [0, 1). */
  ghost predicate UnitDraws(draws: nat -> real) {
    forall i: nat :: 0.0 <= draws(i) < 1.0
  }

  /** The loaded scenario; only its population is modelled. */
  class Scenario {
    var persons: Persons

    constructor (persons: Persons)
      ensures this.persons == persons
    {
      this.persons := persons;
    }

    /** RunSimulation.java:85-90, one person at a time in any order. */
    method ClearDrtRoutes(drtModes: set<string>)
      modifies this
      ensures RoutesCleared(old(persons), persons, drtModes)
    {
      ghost var before := persons;
      var rest := persons.Keys;
      while rest != {}
        invariant rest <= before.Keys && persons.Keys == before.Keys
        invariant forall id | id in before && id !in rest ::
          persons[id] == before[id].(selectedPlan := ClearPlan(before[id].selectedPlan, drtModes))
        invariant forall id | id in rest :: persons[id] == before[id]
        decreases |rest|
      {
        var id :| id in rest;
        var p := persons[id];
        persons := persons[id := p.(selectedPlan := ClearPlan(p.selectedPlan, drtModes))];
        rest := rest - {id};
      }
    }

    /** RunSimulation.java:98-105: one draw per person in iteration order; a draw at or below the
        probability makes the person vulnerable. */
    method AssignInteractionTimes(order: seq<PersonId>, draws: nat -> real,
                                  probability: real, vulnerableTime: real)
      requires Enumerates(order, persons.Keys)
      modifies this
      ensures TimesAssigned(old(persons), persons, order, draws, probability, vulnerableTime)
    {
      ghost var before := persons;
      for i := 0 to |order|
        invariant persons.Keys == before.Keys
        invariant forall k | 0 <= k < i ::
          persons[order[k]] == WithTime(before[order[k]], TimeFor(draws(k), probability, vulnerableTime))
        invariant forall k | i <= k < |order| :: persons[order[k]] == before[order[k]]
      {
        var p := persons[order[i]];
        var drtInteractionTime := REGULAR_INTERACTION_TIME;
        if draws(i) <= probability {
          drtInteractionTime := vulnerableTime;
        }
        ghost var prev := persons;
        persons := persons[order[i] := WithTime(p, drtInteractionTime)];
        assert forall k | 0 <= k < |order| && k != i :: persons[order[k]] == prev[order[k]];
      }
    }
  }

  /** RunSimulation.java:53-105 without the engine: the options, the vehicles files, the cleared
      routes and the interaction times. `random(seed)` is the draw stream of a generator
      seeded with `seed`; `order` is the population's iteration order. */
  method Prepare(args: seq<string>, readInt: string -> int, readDouble: string -> real, show: Show,
                 elements: seq<DrtModeParams>, drtModes: set<string>, scenario: Scenario,
                 order: seq<PersonId>, random: int -> (nat -> real))
    requires Enumerates(order, scenario.persons.Keys)
    modifies scenario, set e | e in elements
    ensures var opts := OptionsOf(args, readInt, readDouble);
      && (forall e | e in elements :: e.vehiclesFile == VehiclesFile(FleetSize(opts), show) && e.mode == old(e.mode))
      && exists cleared :: RoutesCleared(old(scenario.persons), cleared, drtModes)
           && TimesAssigned(cleared, scenario.persons, order, random(RandomSeed(opts)),
                            VulnerableProbability(opts), VulnerableTime(opts))
  {
    var opts := OptionsOf(args, readInt, readDouble);
    var randomSeed := RandomSeed(opts);
    var fleetSize := FleetSize(opts);
    SetVehiclesFiles(elements, fleetSize, show);
    scenario.ClearDrtRoutes(drtModes);
    ghost var cleared := scenario.persons;
    var vulnerableProbability := VulnerableProbability(opts);
    var vulnerableTime := VulnerableTime(opts);
    scenario.AssignInteractionTimes(order, random(randomSeed), vulnerableProbability, vulnerableTime);
  }

  /** After the assignment every person has a Double interaction time: the vulnerable time
      exactly when its draw is at or below the probability, 60 otherwise; every other
      attribute and every plan is unchanged. */
  lemma AssignedTimes(before: Persons, after: Persons, order: seq<PersonId>,
                      draws: nat -> real, probability: real, vulnerableTime: real)
    requires Enumerates(order, before.Keys)
    requires TimesAssigned(before, after, order, draws, probability, vulnerableTime)
    ensures forall i | 0 <= i < |order| :: (order[i] in after &&
      DoubleAttribute(after[order[i]], INTERACTION_TIME_KEY) ==
        Some(if draws(i) <= probability then vulnerableTime else REGULAR_INTERACTION_TIME))
    ensures forall id | id in after :: exists i :: 0 <= i < |order| && order[i] == id
    ensures forall id | id in after :: (id in before
      && after[id].selectedPlan == before[id].selectedPlan && after[id].otherPlans == before[id].otherPlans
      && after[id].attributes.Keys == before[id].attributes.Keys + {INTERACTION_TIME_KEY}
      && forall key | key in before[id].attributes && key != INTERACTION_TIME_KEY ::
           after[id].attributes[key] == before[id].attributes[key])
  {
    forall id | id in after ensures (id in before
      && (exists i :: 0 <= i < |order| && order[i] == id)
      && after[id].selectedPlan == before[id].selectedPlan && after[id].otherPlans == before[id].otherPlans
      && after[id].attributes.Keys == before[id].attributes.Keys + {INTERACTION_TIME_KEY}
      && forall key | key in before[id].attributes && key != INTERACTION_TIME_KEY ::
           after[id].attributes[key] == before[id].attributes[key])
    {
      assert id in before;
      var i :| 0 <= i < |order| && order[i] == id;
      assert after[id] == WithTime(before[id], TimeFor(draws(i), probability, vulnerableTime));
    }
  }

  /** The same population, iteration order and draws (hence the same seed) always give
      the same assignment. */
  lemma AssignmentDeterministic(before: Persons, a1: Persons, a2: Persons, order: seq<PersonId>,
                                draws: nat -> real, probability: real, vulnerableTime: real)
    requires Enumerates(order, before.Keys)
    requires TimesAssigned(before, a1, order, draws, probability, vulnerableTime)
    requires TimesAssigned(before, a2, order, draws, probability, vulnerableTime)
    ensures a1 == a2
  {
    forall id | id in a1 ensures a1[id] == a2[id] {
      assert id in before;
      var k :| 0 <= k < |order| && order[k] == id;
    }
  }

  /** A probability of 1 or more makes everybody vulnerable and a negative one nobody;
      the default 0 makes vulnerable only a person whose draw is exactly 0. */
  lemma ProbabilityExtremes(before: Persons, after: Persons, order: seq<PersonId>,
                            draws: nat -> real, probability: real, vulnerableTime: real)
    requires Enumerates(order, before.Keys) && UnitDraws(draws)
    requires TimesAssigned(before, after, order, draws, probability, vulnerableTime)
    ensures probability >= 1.0 ==> forall id | id in after ::
      DoubleAttribute(after[id], INTERACTION_TIME_KEY) == Some(vulnerableTime)
    ensures probability < 0.0 ==> forall id | id in after ::
      DoubleAttribute(after[id], INTERACTION_TIME_KEY) == Some(REGULAR_INTERACTION_TIME)
    ensures probability == 0.0 ==> forall i | 0 <= i < |order| ::
      DoubleAttribute(after[order[i]], INTERACTION_TIME_KEY) ==
        Some(if draws(i) == 0.0 then vulnerableTime else REGULAR_INTERACTION_TIME)
  {
    AssignedTimes(before, after, order, draws, probability, vulnerableTime);
  }

  /** What the stop-time provider sees after the assignment: a group's stop duration is
      the largest of its members' assigned times, so 60 without a vulnerable member and,
      when the vulnerable time is at least 60, the vulnerable time with one. */
  lemma AssignedStopDuration(before: Persons, after: Persons, order: seq<PersonId>,
                             draws: nat -> real, probability: real, vulnerableTime: real,
                             passengers: seq<PersonId>)
    requires Enumerates(order, before.Keys)
    requires TimesAssigned(before, after, order, draws, probability, vulnerableTime)
    requires |passengers| > 0 && UserSpecificStopTime.AllKnown(after, passengers)
    ensures var r := UserSpecificStopTime.CalcStopDuration(after, passengers);
      && (r == vulnerableTime || r == REGULAR_INTERACTION_TIME)
      && ((forall i | 0 <= i < |order| && order[i] in passengers :: draws(i) > probability) ==>
            r == REGULAR_INTERACTION_TIME)
      && (vulnerableTime >= REGULAR_INTERACTION_TIME &&
          (exists i :: 0 <= i < |order| && order[i] in passengers && draws(i) <= probability) ==>
            r == vulnerableTime)
  {
    var r := UserSpecificStopTime.CalcStopDuration(after, passengers);
    var k0 := AssignedTimeOf(before, after, order, draws, probability, vulnerableTime, passengers[0]);
    var j :| 0 <= j < |passengers| && DoubleAttribute(after[passengers[j]], INTERACTION_TIME_KEY) == Some(r);
    var k := AssignedTimeOf(before, after, order, draws, probability, vulnerableTime, passengers[j]);
    assert order[k] in passengers;
    if exists i :: 0 <= i < |order| && order[i] in passengers && draws(i) <= probability {
      var i :| 0 <= i < |order| && order[i] in passengers && draws(i) <= probability;
      var m :| 0 <= m < |passengers| && passengers[m] == order[i];
      var km := AssignedTimeOf(before, after, order, draws, probability, vulnerableTime, passengers[m]);
      assert km == i;
    }
  }

  /** The position in iteration order of one person, and the time its draw gave it. */
  lemma AssignedTimeOf(before: Persons, after: Persons, order: seq<PersonId>,
                       draws: nat -> real, probability: real, vulnerableTime: real, id: PersonId)
    returns (k: nat)
    requires Enumerates(order, before.Keys)
    requires TimesAssigned(before, after, order, draws, probability, vulnerableTime)
    requires id in after
    ensures k < |order| && order[k] == id
    ensures DoubleAttribute(after[id], INTERACTION_TIME_KEY) == Some(TimeFor(draws(k), probability, vulnerableTime))
  {
    assert id in before;
    k :| 0 <= k < |order| && order[k] == id;
  }

  /** The rejection penalty as written reads a key nobody writes, so after the assignment
      its lowest interaction time is the fallback 60 whatever was drawn. */
  lemma AsWrittenPenaltyIgnoresAssignment(before: Persons, after: Persons, order: seq<PersonId>,
                                          draws: nat -> real, probability: real, vulnerableTime: real)
    requires Enumerates(order, before.Keys)
    requires TimesAssigned(before, after, order, draws, probability, vulnerableTime)
    requires forall id | id in before :: InclusiveRejectionPenalty.KEY_AS_WRITTEN !in before[id].attributes
    ensures InclusiveRejectionPenalty.LowestInteractionTime(after, InclusiveRejectionPenalty.KEY_AS_WRITTEN)
      == REGULAR_INTERACTION_TIME
  {
    AssignedTimes(before, after, order, draws, probability, vulnerableTime);
    InclusiveRejectionPenalty.MissingKeyGivesFallback(after, InclusiveRejectionPenalty.KEY_AS_WRITTEN);
  }

  /** With the key the writers use, the lowest interaction time is one of the assigned
      times and at most every one of them: the vulnerable time when everybody is drawn
      vulnerable, 60 when nobody is, their minimum otherwise. */
  lemma CorrectedPenaltyMinimum(before: Persons, after: Persons, order: seq<PersonId>,
                                draws: nat -> real, probability: real, vulnerableTime: real)
    requires Enumerates(order, before.Keys) && |order| > 0
    requires TimesAssigned(before, after, order, draws, probability, vulnerableTime)
    ensures var r := InclusiveRejectionPenalty.LowestInteractionTime(after, INTERACTION_TIME_KEY);
      && (exists i :: 0 <= i < |order| && r == TimeFor(draws(i), probability, vulnerableTime))
      && (forall i | 0 <= i < |order| :: r <= TimeFor(draws(i), probability, vulnerableTime))
  {
    AssignedTimes(before, after, order, draws, probability, vulnerableTime);
    var r := InclusiveRejectionPenalty.LowestInteractionTime(after, INTERACTION_TIME_KEY);
    assert TimeFor(draws(0), probability, vulnerableTime) in
      InclusiveRejectionPenalty.PopulationTimes(after, INTERACTION_TIME_KEY);
    var id :| id in after && DoubleAttribute(after[id], INTERACTION_TIME_KEY) == Some(r);
    var i :| 0 <= i < |order| && order[i] == id;
    assert r == TimeFor(draws(i), probability, vulnerableTime);
  }
}
