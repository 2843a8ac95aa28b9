/** Python's `dict` with string keys, as the transit tables use it: a mapping
    together with the order in which its keys were first inserted, which is the
    order `items()`, `keys()` and `values()` visit them. */
module PyDict {

  datatype Dict<V> = Dict(keys: seq<string>, m: map<string, V>)
  {
    /** Every key occurs once in the order, and the order lists exactly the
        keys of the mapping. */
    ghost predicate Valid() {
      && (forall i, j :: 0 <= i < j < |keys| ==> keys[i] != keys[j])
      && (forall k :: k in m <==> k in keys)
    }
  }

  /** `{}` */
  function EmptyDict<V>(): (d: Dict<V>)
    ensures d.Valid() && d.keys == [] && d.m == map[]
  {
    Dict([], map[])
  }

  /** `d[k] = v`: a new key is appended to the order, an existing key keeps its
      place and only its value changes. */
  function Put<V>(d: Dict<V>, k: string, v: V): (r: Dict<V>)
    requires d.Valid()
    ensures r.Valid()
    ensures k in r.m && r.m[k] == v
    ensures forall k' :: k' != k ==> (k' in r.m <==> k' in d.m)
    ensures forall k' :: k' != k && k' in d.m ==> r.m[k'] == d.m[k']
    ensures k in d.m ==> r.keys == d.keys
    ensures k !in d.m ==> r.keys == d.keys + [k]
  {
    Dict(if k in d.m then d.keys else d.keys + [k], d.m[k := v])
  }

  /** The values met along `keys`, in that order. */
  function ValuesAlong<V>(keys: seq<string>, m: map<string, V>): (vs: seq<V>)
    requires forall k :: k in keys ==> k in m
    ensures |vs| == |keys|
    ensures forall i :: 0 <= i < |keys| ==> vs[i] == m[keys[i]]
  {
    if keys == [] then []
    else ValuesAlong(keys[..|keys| - 1], m) + [m[keys[|keys| - 1]]]
  }

  /** `d.values()` */
  function Values<V>(d: Dict<V>): (vs: seq<V>)
    requires d.Valid()
    ensures |vs| == |d.keys|
    ensures forall i :: 0 <= i < |d.keys| ==> vs[i] == d.m[d.keys[i]]
  {
    ValuesAlong(d.keys, d.m)
  }

}
