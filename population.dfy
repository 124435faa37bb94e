/**
 * The parts of the simulation engine's population that the valuation module and the
 * scenario preparation touch: persons keyed by id, each with a free-form attribute map
 * and a selected plan of activities and legs.
 */
module Population {
  import opened Wrappers

  type PersonId = string

  /** An attribute value. Only `Double` values are used as interaction times; every
      other Java type (String, Integer, Boolean, ...) is folded into `OtherAttr`. */
  datatype Attr = DoubleAttr(value: real) | OtherAttr(text: string)

  /** A route attached to a leg; its contents are the engine's and are not modelled. */
  datatype Route = Route(description: string)

  datatype PlanElement =
    | Activity(activityType: string)
    | Leg(mode: string, route: Option<Route>)

  datatype Person = Person(
    attributes: map<string, Attr>,
    selectedPlan: seq<PlanElement>,
    otherPlans: seq<seq<PlanElement>>)

  type Persons = map<PersonId, Person>

  /** The attribute key every writer and the stop-time provider use. */
  const INTERACTION_TIME_KEY: string := "drtInteractionTime"

  /** The value a person contributes to a stream that reads `key`, maps to the
      attribute, drops nulls and keeps `instanceof Double` values only. */
  function DoubleAttribute(p: Person, key: string): (r: Option<real>)
    ensures r.Some? <==> key in p.attributes && p.attributes[key].DoubleAttr?
    ensures r.Some? ==> p.attributes[key] == DoubleAttr(r.value)
  {
    if key in p.attributes && p.attributes[key].DoubleAttr? then Some(p.attributes[key].value) else None
  }
}
