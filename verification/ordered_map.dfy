/** Python's `OrderedDict`: a map that remembers the order in which keys
    were first inserted. Re-assigning an existing key keeps its place. */
module OrderedMap {

  datatype OMap<K, V> = OMap(keys: seq<K>, values: map<K, V>)

  /** Keys are listed once each, and exactly the keys of the map are listed. */
  ghost predicate Valid<K(!new), V>(m: OMap<K, V>) {
    && (forall i, j :: 0 <= i < j < |m.keys| ==> m.keys[i] != m.keys[j])
    && (forall k :: k in m.values <==> k in m.keys)
  }

  function Empty<K(!new), V>(): (m: OMap<K, V>)
    ensures Valid(m) && |m.keys| == 0
  {
    OMap([], map[])
  }

  /** `m[k] = v`. */
  function Put<K(!new), V>(m: OMap<K, V>, k: K, v: V): (r: OMap<K, V>)
    ensures Valid(m) ==> Valid(r)
    ensures r.values == m.values[k := v]
    ensures k in m.values ==> r.keys == m.keys
    ensures k !in m.values ==> r.keys == m.keys + [k]
  {
    if k in m.values then OMap(m.keys, m.values[k := v])
    else OMap(m.keys + [k], m.values[k := v])
  }

  /** `m.values()`, in key order. */
  function Values<K(!new), V>(m: OMap<K, V>): (vs: seq<V>)
    requires forall k :: k in m.keys ==> k in m.values
    ensures |vs| == |m.keys|
    ensures forall i :: 0 <= i < |vs| ==> vs[i] == m.values[m.keys[i]]
  {
    seq(|m.keys|, i requires 0 <= i < |m.keys| => m.values[m.keys[i]])
  }

  /** Assigning a fresh key appends its value to `values()`; assigning an
      existing key replaces its value in place. */
  lemma PutValues<K(!new), V>(m: OMap<K, V>, k: K, v: V)
    requires Valid(m)
    ensures k !in m.values ==> Values(Put(m, k, v)) == Values(m) + [v]
    ensures k in m.values ==>
      exists i :: 0 <= i < |m.keys| && m.keys[i] == k && Values(Put(m, k, v)) == Values(m)[i := v]
  {
    var r := Put(m, k, v);
    if k !in m.values {
      assert Values(r) == Values(m) + [v];
    } else {
      var i :| 0 <= i < |m.keys| && m.keys[i] == k;
      assert Values(r) == Values(m)[i := v];
    }
  }
}
