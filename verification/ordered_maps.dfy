/**
 * A JavaScript `Map`: a finite map that also remembers the order in which its keys were
 * first inserted, which is the order `forEach` and `entries()` visit them in.
 */
module OrderedMaps {

  datatype OMap<K(==,!new), V> = OMap(keys: seq<K>, vals: map<K, V>)
  {
    /** Every key is listed exactly once, and the listed keys are the keys of `vals`. */
    ghost predicate Valid()
    {
      && (forall i, j :: 0 <= i < j < |keys| ==> keys[i] != keys[j])
      && (forall k :: k in vals <==> k in keys)
    }
  }

  /** `new Map()` */
  function Empty<K(==,!new), V>(): (m: OMap<K, V>)
    ensures m.Valid() && m.keys == [] && m.vals == map[]
  {
    OMap([], map[])
  }

  /**
   * `m.set(k, v)`: the value at `k` becomes `v`; a key already present keeps its place in the
   * order, a new key goes last.
   */
  function Put<K(==,!new), V>(m: OMap<K, V>, k: K, v: V): (r: OMap<K, V>)
    requires m.Valid()
    ensures r.Valid()
    ensures r.vals == m.vals[k := v]
    ensures k in m.keys ==> r.keys == m.keys
    ensures k !in m.keys ==> r.keys == m.keys + [k]
  {
    if k in m.vals then OMap(m.keys, m.vals[k := v]) else OMap(m.keys + [k], m.vals[k := v])
  }
}
