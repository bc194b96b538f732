/** Python's `dict` as the tool uses it: a key-to-value map that remembers the
    order in which keys were first inserted. Assigning to a key that is already
    present replaces its value and keeps its place. */
module OrderedDicts {

  datatype ODict<K(==), V> = ODict(keys: seq<K>, vals: map<K, V>)
  {
    /** The keys are listed once each, and exactly the mapped keys are listed. */
    predicate Valid()
    {
      && (forall i, j :: 0 <= i < j < |keys| ==> keys[i] != keys[j])
      && (forall k :: k in vals ==> k in keys)
      && (forall i :: 0 <= i < |keys| ==> keys[i] in vals)
    }

    /** `d[k] = v`. */
    function Put(k: K, v: V): (r: ODict<K, V>)
      requires Valid()
      ensures r.Valid()
      ensures r.vals == vals[k := v]
      ensures k in vals ==> r.keys == keys
      ensures k !in vals ==> r.keys == keys + [k]
    {
      if k in vals then ODict(keys, vals[k := v]) else ODict(keys + [k], vals[k := v])
    }
  }

  /** Assigning to a key that is not listed yet appends it to the keys. */
  lemma PutNewKey<K, V>(d: ODict<K, V>, k: K, v: V, ks: seq<K>)
    requires d.Valid() && d.keys == ks && k !in ks
    ensures d.Put(k, v).keys == ks + [k]
  {
  }

  /** `{}`. */
  function Empty<K(==), V>(): (d: ODict<K, V>)
    ensures d.Valid() && d.keys == [] && d.vals == map[]
  {
    ODict([], map[])
  }
}
