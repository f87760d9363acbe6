/** A JavaScript `Map` with string keys, whose iteration order is the order
    in which keys were first set. */
module OrderedMaps {
  import opened Strings

  datatype OrderedMap<V> = OrderedMap(keys: seq<string>, values: map<string, V>)
  {
    /** The keys are listed once each, and exactly the keys of `values`. */
    ghost predicate Valid()
    {
      Distinct(keys) && forall k :: k in values <==> k in keys
    }

    /** `map.set(k, v)`: a new key goes to the end, an existing key keeps
        its place. */
    function Set(k: string, v: V): (r: OrderedMap<V>)
      ensures Valid() ==> r.Valid()
      ensures r.values == values[k := v]
      ensures r.keys == if k in values then keys else keys + [k]
    {
      if k in values then OrderedMap(keys, values[k := v])
      else OrderedMap(keys + [k], values[k := v])
    }
  }

  function Empty<V>(): (r: OrderedMap<V>)
    ensures r.Valid()
  {
    OrderedMap([], map[])
  }
}
