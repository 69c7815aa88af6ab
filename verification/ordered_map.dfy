/** A map from strings that remembers the order in which keys were first put.
    It stands for the `HashMap`s the meal validator fills: their iteration
    order is unspecified, and this model fixes it to insertion order. */
module OrderedMap {

  datatype OMap<V> = OMap(keys: seq<string>, values: map<string, V>)

  /** `keys` lists every key of `values` exactly once. */
  ghost predicate Valid<V>(m: OMap<V>) {
    && (forall i, j :: 0 <= i < j < |m.keys| ==> m.keys[i] != m.keys[j])
    && (forall k :: k in m.values <==> k in m.keys)
  }

  /** `new HashMap<>()`. */
  function Empty<V>(): (r: OMap<V>)
    ensures Valid(r)
    ensures forall k :: k !in r.values
  {
    OMap([], map[])
  }

  /** `m.put(k, v)`: the value under `k` becomes `v`; a new key goes last. */
  function Put<V>(m: OMap<V>, k: string, v: V): (r: OMap<V>)
    requires Valid(m)
    ensures Valid(r)
    ensures r.values == m.values[k := v]
    ensures k in m.values ==> r.keys == m.keys
    ensures k !in m.values ==> r.keys == m.keys + [k]
  {
    if k in m.values then OMap(m.keys, m.values[k := v]) else OMap(m.keys + [k], m.values[k := v])
  }

  /** `m.size() > 1` holds exactly when `m` has two different keys. */
  lemma SizeAboveOne<V>(m: OMap<V>)
    requires Valid(m)
    ensures |m.keys| > 1 <==> exists a, b :: a in m.values && b in m.values && a != b
  {
    if |m.keys| > 1 {
      assert m.keys[0] in m.values && m.keys[1] in m.values;
    }
    if exists a, b :: a in m.values && b in m.values && a != b {
      var a, b :| a in m.values && b in m.values && a != b;
      var i :| 0 <= i < |m.keys| && m.keys[i] == a;
      var j :| 0 <= j < |m.keys| && m.keys[j] == b;
      assert i != j;
    }
  }
}
