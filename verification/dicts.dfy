/** A string-keyed dictionary that remembers insertion order, standing for a
    .NET `Dictionary<string, V>` from which nothing is ever removed (its
    `Keys` then enumerate in insertion order). */
module Dicts {

  datatype Dict<V> = Dict(order: seq<string>, entries: map<string, V>) {

    /** The order lists each key of the map exactly once. */
    ghost predicate Valid() {
      (forall i, j :: 0 <= i < j < |order| ==> order[i] != order[j])
      && (forall k :: k in entries <==> k in order)
    }
  }

  function Empty<V>(): (d: Dict<V>)
    ensures d.Valid() && d.entries == map[] && d.order == []
  {
    Dict([], map[])
  }

  /** `d[k] = v`: a new key goes to the end, an existing one keeps its place. */
  function Put<V>(d: Dict<V>, k: string, v: V): (r: Dict<V>)
    requires d.Valid()
    ensures r.Valid()
    ensures r.entries == d.entries[k := v]
    ensures k in d.entries ==> r.order == d.order
    ensures k !in d.entries ==> r.order == d.order + [k]
  {
    Dict(if k in d.entries then d.order else d.order + [k], d.entries[k := v])
  }

  /** A valid dictionary has keys exactly when its order is non-empty. */
  lemma EmptyOrder<V>(d: Dict<V>)
    requires d.Valid()
    ensures |d.order| == 0 <==> d.entries == map[]
  {
    if |d.order| == 0 {
      assert forall k :: k !in d.entries;
    } else {
      assert d.order[0] in d.entries;
    }
  }
}
