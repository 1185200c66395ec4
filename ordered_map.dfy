/**
 * A dictionary that remembers insertion order, as Python's dict and the
 * YAML mapping loaded from the config file do: assigning to an existing key
 * keeps its position, assigning to a new key appends it.
 */
module OrderedMap {

  datatype OMap<V> = OMap(keys: seq<string>, vals: map<string, V>) {

    /** Keys are listed once each, and exactly the keys of `vals` are listed. */
    ghost predicate Valid() {
      && (forall i, j :: 0 <= i < j < |keys| ==> keys[i] != keys[j])
      && (forall k :: k in vals <==> k in keys)
    }

    /** `d[k] = v`. */
    function Put(k: string, v: V): (m: OMap<V>)
      ensures Valid() ==> m.Valid()
      ensures m.vals == vals[k := v]
      ensures m.keys == if k in vals then keys else keys + [k]
    {
      OMap(if k in vals then keys else keys + [k], vals[k := v])
    }
  }
}
