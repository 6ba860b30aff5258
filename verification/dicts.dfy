/** Python's `None`-or-value and its insertion-ordered `dict`. */
module Dicts {
  import opened Sequences

  datatype Option<T> = None | Some(value: T)

  /** A Python dict: a finite map together with the order in which its keys were
      first inserted (iteration order). */
  datatype Dict<K(!new), V> = Dict(keys: seq<K>, vals: map<K, V>)
  {
    /** Keys are listed once each, and exactly the keys of the map are listed. */
    ghost predicate Valid()
    {
      Distinct(keys) && forall k :: k in vals <==> k in keys
    }

    /** `d[k] = v`: a new key goes to the end of the iteration order, an existing key
        keeps its place and gets the new value. */
    function Put(k: K, v: V): (r: Dict<K, V>)
      requires Valid()
      ensures r.Valid()
      ensures r.vals == vals[k := v]
      ensures r.keys == if k in vals then keys else keys + [k]
    {
      if k in vals then Dict(keys, vals[k := v]) else Dict(keys + [k], vals[k := v])
    }
  }

  /** `{}` */
  function Empty<K(!new), V>(): (d: Dict<K, V>)
    ensures d.Valid() && d.keys == [] && d.vals == map[]
  {
    Dict([], map[])
  }

  /** A dict whose every value is itself a valid dict (a nested table). */
  ghost predicate ValidNested<K(!new), K2(!new), V>(d: Dict<K, Dict<K2, V>>)
  {
    d.Valid() && forall k :: k in d.vals ==> d.vals[k].Valid()
  }
}
