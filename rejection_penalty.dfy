/**
 * InclusiveRejectionPenalty: the Alonso-Mora solver's penalty for rejecting a request
 * (or unassigning one that was assigned), scaled by how much longer the request's
 * pickup takes than the population's lowest interaction time, and scaled again by an
 * equity factor alpha when that ratio exceeds one.
 */
module InclusiveRejectionPenalty {
  import opened Wrappers
  import opened Population
  import opened UserSpecificStopTime

  /** The key the constructor reads, as written in the source (capital second I). */
  const KEY_AS_WRITTEN: string := "drtInteractionTIme"

  datatype ConstructionError = IllegalState(providerClassName: string)

  datatype Penalty = Penalty(
    unassignmentPenalty: real,
    baseRejectionPenalty: real,
    lowestInteractionTime: real,
    stopDurationProvider: StopDurationProvider,
    weightAlpha: real)

  /** A request as the Alonso-Mora assignment solver sees it. */
  datatype AlonsoMoraRequest = AlonsoMoraRequest(drtRequest: DrtRequest, isAssigned: bool)

  /** The set of Double values stored under `key` across the whole population. */
  ghost function PopulationTimes(population: Persons, key: string): set<real>
  {
    set id | id in population && DoubleAttribute(population[id], key).Some? :: DoubleAttribute(population[id], key).value
  }

  /** `min().orElse(dflt)` over a set of values; the population is a hash map, so its
      iteration order is unspecified and only the set of values matters. */
  ghost function MinOr(s: set<real>, dflt: real): (r: real)
    ensures s == {} ==> r == dflt
    ensures s != {} ==> r in s
    ensures forall x | x in s :: r <= x
    decreases |s|
  {
    if |s| == 0 then dflt
    else
      assert exists y :: y in s by {
        if forall y :: y !in s { assert false; }
      }
      var x :| x in s;
      if |s - {x}| == 0 then
        assert s == {x} by { forall y | y in s ensures y == x { assert y !in s - {x}; } }
        x
      else
        var m := MinOr(s - {x}, dflt);
        assert forall y | y in s :: y == x || y in s - {x};
        if x <= m then x else m
  }

  /** The lowest interaction time found under `key`, or 60 when nobody has one. */
  ghost function LowestInteractionTime(population: Persons, key: string): (r: real)
    ensures PopulationTimes(population, key) == {} ==> r == DEFAULT_STOP_DURATION
    ensures forall id | id in population && DoubleAttribute(population[id], key).Some? ::
      r <= DoubleAttribute(population[id], key).value
    ensures PopulationTimes(population, key) != {} ==>
      exists id :: id in population && DoubleAttribute(population[id], key) == Some(r)
  {
    var times := PopulationTimes(population, key);
    assert forall id | id in population && DoubleAttribute(population[id], key).Some? ::
      DoubleAttribute(population[id], key).value in times;
    MinOr(times, DEFAULT_STOP_DURATION)
  }

  /** Constructor shared by both readings of the key: fails unless the provider is the
      user-specific one. */
  ghost function CreateWithKey(population: Persons, unassignmentPenalty: real, baseRejectionPenalty: real,
                               provider: StopDurationProvider, weightAlpha: real, key: string): (r: Result<Penalty, ConstructionError>)
    ensures r.Ok? <==> provider.UserSpecificProvider?
    ensures provider.OtherProvider? ==> r == Err(IllegalState(provider.className))
    ensures r.Ok? ==> r.value == Penalty(unassignmentPenalty, baseRejectionPenalty,
                                         LowestInteractionTime(population, key), provider, weightAlpha)
  {
    var lowest := LowestInteractionTime(population, key);
    if provider.UserSpecificProvider? then
      Ok(Penalty(unassignmentPenalty, baseRejectionPenalty, lowest, provider, weightAlpha))
    else
      Err(IllegalState(provider.className))
  }

  /** The five-argument constructor exactly as written: it reads the misspelled key. */
  ghost function CreateAsWritten(population: Persons, unassignmentPenalty: real, baseRejectionPenalty: real,
                                 provider: StopDurationProvider, weightAlpha: real): (r: Result<Penalty, ConstructionError>)
    ensures r.Ok? <==> provider.UserSpecificProvider?
    ensures r.Ok? ==> r.value.lowestInteractionTime == LowestInteractionTime(population, KEY_AS_WRITTEN)
  {
    CreateWithKey(population, unassignmentPenalty, baseRejectionPenalty, provider, weightAlpha, KEY_AS_WRITTEN)
  }

  /** The five-argument constructor with the key every writer uses. */
  ghost function Create(population: Persons, unassignmentPenalty: real, baseRejectionPenalty: real,
                        provider: StopDurationProvider, weightAlpha: real): (r: Result<Penalty, ConstructionError>)
    ensures r.Ok? <==> provider.UserSpecificProvider?
    ensures provider.OtherProvider? ==> r == Err(IllegalState(provider.className))
    ensures r.Ok? ==> r.value.lowestInteractionTime == LowestInteractionTime(population, INTERACTION_TIME_KEY)
    ensures r.Ok? ==> r.value.unassignmentPenalty == unassignmentPenalty && r.value.baseRejectionPenalty == baseRejectionPenalty
    ensures r.Ok? ==> r.value.stopDurationProvider == provider && r.value.weightAlpha == weightAlpha
  {
    CreateWithKey(population, unassignmentPenalty, baseRejectionPenalty, provider, weightAlpha, INTERACTION_TIME_KEY)
  }

  /** The four-argument constructor: the five-argument one as written, with alpha 1.0,
      so it too reads the misspelled key. Its corrected form is `Create` with alpha 1.0. */
  ghost function CreateDefaultAlpha(population: Persons, unassignmentPenalty: real, baseRejectionPenalty: real,
                                    provider: StopDurationProvider): (r: Result<Penalty, ConstructionError>)
    ensures r.Ok? <==> provider.UserSpecificProvider?
    ensures r.Ok? ==> r.value.weightAlpha == 1.0
    ensures r == CreateAsWritten(population, unassignmentPenalty, baseRejectionPenalty, provider, 1.0)
  {
    CreateAsWritten(population, unassignmentPenalty, baseRejectionPenalty, provider, 1.0)
  }

  /** What every constructed penalty satisfies, plus what the division needs. */
  predicate Usable(p: Penalty) {
    p.stopDurationProvider.UserSpecificProvider? && p.lowestInteractionTime != 0.0
  }

  /** The equity weight for a given pickup duration. */
  function Weight(p: Penalty, interactionTime: real): (w: real)
    requires p.lowestInteractionTime != 0.0
    ensures interactionTime / p.lowestInteractionTime <= 1.0 ==> w == interactionTime / p.lowestInteractionTime
    ensures interactionTime / p.lowestInteractionTime > 1.0 ==> w == p.weightAlpha * (interactionTime / p.lowestInteractionTime)
  {
    var weight := interactionTime / p.lowestInteractionTime;
    if weight > 1.0 then weight * p.weightAlpha else weight
  }

  /** The penalty: unassignment penalty times the weight for an assigned request, base
      rejection penalty times the weight otherwise. */
  function GetPenalty(p: Penalty, request: AlonsoMoraRequest): (r: real)
    requires Usable(p)
    requires AllKnown(p.stopDurationProvider.population, request.drtRequest.passengerIds)
    ensures request.isAssigned ==>
      r == p.unassignmentPenalty * Weight(p, CalcStopDuration(p.stopDurationProvider.population, request.drtRequest.passengerIds))
    ensures !request.isAssigned ==>
      r == p.baseRejectionPenalty * Weight(p, CalcStopDuration(p.stopDurationProvider.population, request.drtRequest.passengerIds))
  {
    var interactionTime := CalcPickupDuration(p.stopDurationProvider, None, request.drtRequest);
    var weight := Weight(p, interactionTime);
    if request.isAssigned then p.unassignmentPenalty * weight else p.baseRejectionPenalty * weight
  }

  /** When the ratio is at most one, alpha has no effect on the penalty. */
  lemma AlphaIrrelevantAtOrBelowOne(p: Penalty, request: AlonsoMoraRequest, alpha: real)
    requires Usable(p)
    requires AllKnown(p.stopDurationProvider.population, request.drtRequest.passengerIds)
    requires CalcStopDuration(p.stopDurationProvider.population, request.drtRequest.passengerIds) / p.lowestInteractionTime <= 1.0
    ensures GetPenalty(p.(weightAlpha := alpha), request) == GetPenalty(p, request)
  {
  }

  /** With the four-argument constructor the weight is the plain ratio duration / lowest,
      whatever the ratio, so the penalty is the selected penalty times that ratio; the
      lowest time is the one read under the misspelled key. */
  lemma DefaultAlphaIsPlainRatio(population: Persons, unassignment: real, base: real, duration: real)
    requires LowestInteractionTime(population, KEY_AS_WRITTEN) != 0.0
    ensures CreateDefaultAlpha(population, unassignment, base, UserSpecificProvider(population)).Ok?
    ensures Weight(CreateDefaultAlpha(population, unassignment, base, UserSpecificProvider(population)).value, duration)
      == duration / LowestInteractionTime(population, KEY_AS_WRITTEN)
  {
    var p := CreateDefaultAlpha(population, unassignment, base, UserSpecificProvider(population)).value;
    assert p.weightAlpha == 1.0 && p.lowestInteractionTime == LowestInteractionTime(population, KEY_AS_WRITTEN);
  }

  /** As written, a penalty built with the four-argument constructor for a population in
      which nobody carries the misspelled key divides every pickup duration by 60. */
  lemma DefaultAlphaDividesBySixty(population: Persons, unassignment: real, base: real, duration: real)
    requires forall id | id in population :: KEY_AS_WRITTEN !in population[id].attributes
    ensures CreateDefaultAlpha(population, unassignment, base, UserSpecificProvider(population)).Ok?
    ensures Weight(CreateDefaultAlpha(population, unassignment, base, UserSpecificProvider(population)).value, duration)
      == duration / DEFAULT_STOP_DURATION
  {
    MissingKeyGivesFallback(population, KEY_AS_WRITTEN);
    DefaultAlphaIsPlainRatio(population, unassignment, base, duration);
  }

  /** A population in which nobody carries the key the constructor reads yields the
      fallback 60 as lowest interaction time, whatever the real values are. */
  lemma {:induction false} MissingKeyGivesFallback(population: Persons, key: string)
    requires forall id | id in population :: key !in population[id].attributes
    ensures LowestInteractionTime(population, key) == DEFAULT_STOP_DURATION
  {
    assert PopulationTimes(population, key) == {} by {
      forall v | v in PopulationTimes(population, key) ensures false {
      }
    }
  }

  /** A person whose only attribute is an interaction time of `t` under the key writers use. */
  function PersonWithTime(t: real): Person {
    Person(map[INTERACTION_TIME_KEY := DoubleAttr(t)], [], [])
  }

  lemma StopDurationOfOne(population: Persons, id: PersonId, t: real)
    requires id in population && population[id] == PersonWithTime(t)
    ensures CalcStopDuration(population, [id]) == t
  {
    assert DoubleAttribute(population[[id][0]], INTERACTION_TIME_KEY) == Some(t);
  }

  /** The rejection example: lowest 60, pickup 240, alpha 2: penalty 80 for an unassigned
      request with base penalty 10, 40 for an assigned one with unassignment penalty 5. */
  lemma RejectionPenaltyExample()
    ensures var population := map["a" := PersonWithTime(240.0), "b" := PersonWithTime(60.0)];
      var r1 := Create(population, 5.0, 10.0, UserSpecificProvider(population), 2.0);
      && r1.Ok? && r1.value.lowestInteractionTime == 60.0
      && GetPenalty(r1.value, AlonsoMoraRequest(DrtRequest("r", ["a"]), false)) == 80.0
      && GetPenalty(r1.value, AlonsoMoraRequest(DrtRequest("r", ["a"]), true)) == 40.0
  {
    var population := map["a" := PersonWithTime(240.0), "b" := PersonWithTime(60.0)];
    ExampleLowest(population);
    StopDurationOfOne(population, "a", 240.0);
  }

  lemma ExampleLowest(population: Persons)
    requires population == map["a" := PersonWithTime(240.0), "b" := PersonWithTime(60.0)]
    ensures LowestInteractionTime(population, INTERACTION_TIME_KEY) == 60.0
  {
    var lowest := LowestInteractionTime(population, INTERACTION_TIME_KEY);
    assert DoubleAttribute(population["b"], INTERACTION_TIME_KEY) == Some(60.0);
    var id :| id in population && DoubleAttribute(population[id], INTERACTION_TIME_KEY) == Some(lowest);
    assert id == "a" || id == "b";
  }

  /** Finding, as written: with every person at 240 seconds (everyone vulnerable), the
      misspelled key makes the lowest time 60, so the weight is 4, alpha applies and the
      penalty is 80, although every request is at the population minimum. */
  lemma AsWrittenScalesUniformPopulation()
    ensures var population := map["a" := PersonWithTime(240.0)];
      var r := CreateAsWritten(population, 5.0, 10.0, UserSpecificProvider(population), 2.0);
      && r.Ok? && r.value.lowestInteractionTime == 60.0
      && GetPenalty(r.value, AlonsoMoraRequest(DrtRequest("r", ["a"]), false)) == 80.0
  {
    var population := map["a" := PersonWithTime(240.0)];
    MissingKeyGivesFallback(population, KEY_AS_WRITTEN);
    StopDurationOfOne(population, "a", 240.0);
  }

  /** Corrected: a request whose passengers all sit at the population minimum gets weight
      one, so its penalty is the unscaled base or unassignment penalty, whatever alpha is. */
  lemma {:induction false} CorrectedMinimumIsUnscaled(population: Persons, unassignment: real, base: real,
                                                      alpha: real, request: AlonsoMoraRequest)
    requires AllKnown(population, request.drtRequest.passengerIds)
    requires |request.drtRequest.passengerIds| > 0
    requires LowestInteractionTime(population, INTERACTION_TIME_KEY) != 0.0
    requires forall i | 0 <= i < |request.drtRequest.passengerIds| ::
      DoubleAttribute(population[request.drtRequest.passengerIds[i]], INTERACTION_TIME_KEY)
        == Some(LowestInteractionTime(population, INTERACTION_TIME_KEY))
    ensures var r := Create(population, unassignment, base, UserSpecificProvider(population), alpha);
      && r.Ok?
      && GetPenalty(r.value, request) == (if request.isAssigned then unassignment else base)
  {
    var ids := request.drtRequest.passengerIds;
    var lowest := LowestInteractionTime(population, INTERACTION_TIME_KEY);
    var d := CalcStopDuration(population, ids);
    assert DoubleAttribute(population[ids[0]], INTERACTION_TIME_KEY).Some?;
    assert d == lowest;
    var r := Create(population, unassignment, base, UserSpecificProvider(population), alpha);
    SelfRatio(lowest);
    assert Weight(r.value, d) == 1.0;
  }

  /** Corrected: passengers with an interaction time never weigh less than one when the
      lowest time is positive, so only requests above the minimum are scaled by alpha. */
  lemma CorrectedWeightAtLeastOne(population: Persons, p: Penalty, request: AlonsoMoraRequest)
    requires p.stopDurationProvider == UserSpecificProvider(population)
    requires p.lowestInteractionTime == LowestInteractionTime(population, INTERACTION_TIME_KEY)
    requires p.lowestInteractionTime > 0.0
    requires AllKnown(population, request.drtRequest.passengerIds)
    requires exists i :: (0 <= i < |request.drtRequest.passengerIds| &&
      DoubleAttribute(population[request.drtRequest.passengerIds[i]], INTERACTION_TIME_KEY).Some?)
    ensures CalcStopDuration(population, request.drtRequest.passengerIds) / p.lowestInteractionTime >= 1.0
  {
    var ids := request.drtRequest.passengerIds;
    var i :| 0 <= i < |ids| && DoubleAttribute(population[ids[i]], INTERACTION_TIME_KEY).Some?;
    assert ids[i] in population;
    var d := CalcStopDuration(population, ids);
    assert d >= p.lowestInteractionTime;
    RatioAtLeastOne(d, p.lowestInteractionTime);
  }

  lemma SelfRatio(x: real)
    requires x != 0.0
    ensures x / x == 1.0
  {
  }

  lemma RatioAtLeastOne(d: real, l: real)
    requires 0.0 < l <= d
    ensures d / l >= 1.0
  {
  }
}
