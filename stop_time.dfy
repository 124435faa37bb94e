/**
 * UserSpecificStopTimeProvider: stop durations derived from each passenger's
 * `drtInteractionTime` attribute. Pickup takes the largest Double value among the
 * passengers (60 seconds when none has one); dropoff is always zero.
 */
module UserSpecificStopTime {
  import opened Wrappers
  import opened Population

  const DEFAULT_STOP_DURATION: real := 60.0

  type VehicleId = string

  /** A ride request as the dispatcher sees it; only the passenger ids are read. */
  datatype DrtRequest = DrtRequest(requestId: string, passengerIds: seq<PersonId>)

  /** A passenger stop-duration provider. Only the user-specific one is modelled;
      any other implementation is known by its class name alone. */
  datatype StopDurationProvider =
    | UserSpecificProvider(population: Persons)
    | OtherProvider(className: string)

  predicate AllKnown(population: Persons, ids: seq<PersonId>) {
    forall i | 0 <= i < |ids| :: ids[i] in population
  }

  /** The Double values the passengers' stream yields, in passenger order. */
  function InteractionTimes(population: Persons, ids: seq<PersonId>, key: string): (vs: seq<real>)
    requires AllKnown(population, ids)
    ensures forall v :: v in vs <==>
      exists i :: 0 <= i < |ids| && DoubleAttribute(population[ids[i]], key) == Some(v)
  {
    if ids == [] then []
    else
      var rest := InteractionTimes(population, ids[1..], key);
      match DoubleAttribute(population[ids[0]], key)
      case Some(v) => [v] + rest
      case None => rest
  }

  /** `DoubleStream.max().orElse(dflt)`. */
  function MaxOr(xs: seq<real>, dflt: real): (r: real)
    ensures xs == [] ==> r == dflt
    ensures xs != [] ==> r in xs
    ensures forall i | 0 <= i < |xs| :: xs[i] <= r
  {
    if xs == [] then dflt
    else if |xs| == 1 then xs[0]
    else
      var m := MaxOr(xs[1..], dflt);
      assert forall i | 1 <= i < |xs| :: xs[i] == xs[1..][i - 1];
      if xs[0] >= m then xs[0] else m
  }

  /** The stop duration for a group of passengers: the maximum of their Double-typed
      interaction times, or 60 when no passenger has one. Every id must belong to the
      population (a missing one dereferences null in the source). */
  function CalcStopDuration(population: Persons, passengers: seq<PersonId>): (r: real)
    requires AllKnown(population, passengers)
    ensures forall i | 0 <= i < |passengers| ::
      DoubleAttribute(population[passengers[i]], INTERACTION_TIME_KEY).Some? ==>
      DoubleAttribute(population[passengers[i]], INTERACTION_TIME_KEY).value <= r
    ensures (exists i :: 0 <= i < |passengers| && DoubleAttribute(population[passengers[i]], INTERACTION_TIME_KEY).Some?) ==>
      exists i :: 0 <= i < |passengers| && DoubleAttribute(population[passengers[i]], INTERACTION_TIME_KEY) == Some(r)
    ensures (forall i | 0 <= i < |passengers| :: DoubleAttribute(population[passengers[i]], INTERACTION_TIME_KEY).None?) ==>
      r == DEFAULT_STOP_DURATION
  {
    var vs := InteractionTimes(population, passengers, INTERACTION_TIME_KEY);
    var r := MaxOr(vs, DEFAULT_STOP_DURATION);
    assert forall i | 0 <= i < |passengers| && DoubleAttribute(population[passengers[i]], INTERACTION_TIME_KEY).Some? ::
      DoubleAttribute(population[passengers[i]], INTERACTION_TIME_KEY).value in vs;
    r
  }

  /** Pickup duration: the stop duration of the request's passengers. */
  function CalcPickupDuration(provider: StopDurationProvider, vehicle: Option<VehicleId>, request: DrtRequest): (r: real)
    requires provider.UserSpecificProvider?
    requires AllKnown(provider.population, request.passengerIds)
    ensures r == CalcStopDuration(provider.population, request.passengerIds)
  {
    CalcStopDuration(provider.population, request.passengerIds)
  }

  /** Dropoff duration: always zero, whatever the vehicle and request. */
  function CalcDropoffDuration(provider: StopDurationProvider, vehicle: Option<VehicleId>, request: DrtRequest): (r: real)
    requires provider.UserSpecificProvider?
    ensures r == 0.0
  {
    0.0
  }

  /** The result depends only on which passengers are listed, not on their order
      nor on repetitions. */
  lemma StopDurationIgnoresOrderAndDuplicates(population: Persons, a: seq<PersonId>, b: seq<PersonId>)
    requires AllKnown(population, a) && AllKnown(population, b)
    requires forall id :: id in a <==> id in b
    ensures CalcStopDuration(population, a) == CalcStopDuration(population, b)
  {
    var ra, rb := CalcStopDuration(population, a), CalcStopDuration(population, b);
    var key := INTERACTION_TIME_KEY;
    if i :| 0 <= i < |a| && DoubleAttribute(population[a[i]], key).Some? {
      var ia :| 0 <= ia < |a| && DoubleAttribute(population[a[ia]], key) == Some(ra);
      assert a[ia] in b;
      var jb :| 0 <= jb < |b| && b[jb] == a[ia];
      assert ra <= rb;
      assert a[i] in b;
      var j :| 0 <= j < |b| && b[j] == a[i];
      var ib :| 0 <= ib < |b| && DoubleAttribute(population[b[ib]], key) == Some(rb);
      assert b[ib] in a;
      var ja :| 0 <= ja < |a| && a[ja] == b[ib];
      assert rb <= ra;
    } else {
      forall j | 0 <= j < |b| ensures DoubleAttribute(population[b[j]], key).None? {
        assert b[j] in a;
      }
    }
  }

  /** 60 is a fallback, not a floor: when some passenger has a value and every value is
      below 60, the stop duration is below 60. */
  lemma FallbackIsNotAFloor(population: Persons, passengers: seq<PersonId>)
    requires AllKnown(population, passengers)
    requires exists i :: 0 <= i < |passengers| && DoubleAttribute(population[passengers[i]], INTERACTION_TIME_KEY).Some?
    requires forall i | 0 <= i < |passengers| && DoubleAttribute(population[passengers[i]], INTERACTION_TIME_KEY).Some? ::
      DoubleAttribute(population[passengers[i]], INTERACTION_TIME_KEY).value < DEFAULT_STOP_DURATION
    ensures CalcStopDuration(population, passengers) < DEFAULT_STOP_DURATION
  {
  }

  /** The vehicle argument has no influence on the pickup duration. */
  lemma PickupIgnoresVehicle(provider: StopDurationProvider, v1: Option<VehicleId>, v2: Option<VehicleId>, request: DrtRequest)
    requires provider.UserSpecificProvider?
    requires AllKnown(provider.population, request.passengerIds)
    ensures CalcPickupDuration(provider, v1, request) == CalcPickupDuration(provider, v2, request)
  {
  }
}
