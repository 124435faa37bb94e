/**
 * FairInsertionCostCalculator: the cost of inserting a request into a vehicle's
 * schedule is the delegate's time loss divided by the request's stop duration, so a
 * passenger who needs a long stop is not penalised for that fixed handling time.
 */
module FairInsertionCost {
  import opened Wrappers
  import opened Population
  import opened UserSpecificStopTime

  /** A candidate insertion: where pickup and dropoff go in the vehicle's stop list. */
  datatype Insertion = Insertion(vehicleId: VehicleId, pickupIndex: nat, dropoffIndex: nat)

  /** The detour times the insertion search computed for the candidate. */
  datatype DetourTimeInfo = DetourTimeInfo(pickupTimeLoss: real, dropoffTimeLoss: real)

  /** A cost calculation strategy of the dispatcher, here only ever the engine's
      `RejectSoftConstraintViolations`, whose internals are not part of this model. */
  type CostStrategy = (DrtRequest, Insertion, DetourTimeInfo) -> real

  datatype FairInsertionCostCalculator = FairInsertionCostCalculator(
    delegate: CostStrategy,
    population: Persons)

  /** The constructor: the delegate is the soft-constraint strategy it creates, the
      stop durations come from the user-specific provider over `population`. */
  function Create(population: Persons, rejectSoftConstraintViolations: CostStrategy): (c: FairInsertionCostCalculator)
    ensures c.delegate == rejectSoftConstraintViolations
    ensures c.population == population
  {
    FairInsertionCostCalculator(rejectSoftConstraintViolations, population)
  }

  /** The insertion cost. Multiplied back by the stop duration it gives exactly the
      delegate's cost for the same request, insertion and detour times. */
  function CalcCost(c: FairInsertionCostCalculator, request: DrtRequest, insertion: Insertion, info: DetourTimeInfo): (r: real)
    requires AllKnown(c.population, request.passengerIds)
    requires CalcStopDuration(c.population, request.passengerIds) != 0.0
    ensures r * CalcStopDuration(c.population, request.passengerIds) == c.delegate(request, insertion, info)
  {
    var timeLoss := c.delegate(request, insertion, info);
    timeLoss / CalcStopDuration(c.population, request.passengerIds)
  }

  /** A request none of whose passengers has a Double interaction time is divided by 60. */
  lemma NoInteractionTimeDividesBySixty(c: FairInsertionCostCalculator, request: DrtRequest, insertion: Insertion, info: DetourTimeInfo)
    requires AllKnown(c.population, request.passengerIds)
    requires forall i | 0 <= i < |request.passengerIds| ::
      DoubleAttribute(c.population[request.passengerIds[i]], INTERACTION_TIME_KEY).None?
    ensures CalcCost(c, request, insertion, info) == c.delegate(request, insertion, info) / 60.0
  {
  }

  /** With a non-negative delegate cost, a longer stop never yields a larger cost. */
  lemma {:induction false} LongerStopNeverCostsMore(c: FairInsertionCostCalculator, r1: DrtRequest, r2: DrtRequest,
                                                   insertion: Insertion, info: DetourTimeInfo)
    requires AllKnown(c.population, r1.passengerIds) && AllKnown(c.population, r2.passengerIds)
    requires c.delegate(r1, insertion, info) == c.delegate(r2, insertion, info) >= 0.0
    requires 0.0 < CalcStopDuration(c.population, r1.passengerIds) <= CalcStopDuration(c.population, r2.passengerIds)
    ensures CalcCost(c, r2, insertion, info) <= CalcCost(c, r1, insertion, info)
  {
    var t := c.delegate(r1, insertion, info);
    DivisionAntitone(t, CalcStopDuration(c.population, r1.passengerIds), CalcStopDuration(c.population, r2.passengerIds));
  }

  lemma DivisionAntitone(t: real, d1: real, d2: real)
    requires t >= 0.0 && 0.0 < d1 <= d2
    ensures t / d2 <= t / d1
  {
    var k1, k2 := t / d1, t / d2;
    assert k1 * d1 == t && k2 * d2 == t;
    assert k2 >= 0.0;
    assert k2 * d1 <= k2 * d2;
  }

  /** The insertion example: delegate cost 30 becomes 0.5 for a 60-second stop and 0.125
      for a 240-second stop. */
  lemma InsertionCostExample(rejectSoftConstraintViolations: CostStrategy, insertion: Insertion, info: DetourTimeInfo)
    requires forall r: DrtRequest :: rejectSoftConstraintViolations(r, insertion, info) == 30.0
    ensures var population := map["a" := Person(map[INTERACTION_TIME_KEY := DoubleAttr(60.0)], [], []),
                                   "v" := Person(map[INTERACTION_TIME_KEY := DoubleAttr(240.0)], [], [])];
      var c := Create(population, rejectSoftConstraintViolations);
      && CalcCost(c, DrtRequest("r1", ["a"]), insertion, info) == 0.5
      && CalcCost(c, DrtRequest("r2", ["v"]), insertion, info) == 0.125
  {
    var population := map["a" := Person(map[INTERACTION_TIME_KEY := DoubleAttr(60.0)], [], []),
                          "v" := Person(map[INTERACTION_TIME_KEY := DoubleAttr(240.0)], [], [])];
    assert DoubleAttribute(population[["a"][0]], INTERACTION_TIME_KEY) == Some(60.0);
    assert DoubleAttribute(population[["v"][0]], INTERACTION_TIME_KEY) == Some(240.0);
  }
}
