/**
 * Hash-based collections: their iteration order is unspecified, so the model takes it
 * as a parameter and only asks that it lists every key exactly once.
 */
module Collections {

  /** `order` lists exactly the elements of `keys`, each once. */
  predicate Enumerates<K>(order: seq<K>, keys: set<K>) {
    |order| == |keys|
    && (forall i | 0 <= i < |order| :: order[i] in keys)
    && (forall k | k in keys :: k in order)
    && (forall i, j | 0 <= i < j < |order| :: order[i] != order[j])
  }

  /** A hash set's (or a hash map's key set's) iteration: some duplicate-free
      arrangement of its elements. */
  method IterationOrder<K>(keys: set<K>) returns (order: seq<K>)
    ensures Enumerates(order, keys)
  {
    order := [];
    var rest := keys;
    while rest != {}
      invariant rest <= keys && |order| + |rest| == |keys|
      invariant forall i | 0 <= i < |order| :: order[i] in keys && order[i] !in rest
      invariant forall k | k in keys :: k in rest || k in order
      invariant forall i, j | 0 <= i < j < |order| :: order[i] != order[j]
      decreases |rest|
    {
      var k :| k in rest;
      order := order + [k];
      rest := rest - {k};
    }
  }
}
