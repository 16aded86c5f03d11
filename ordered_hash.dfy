/**
 * A Ruby Hash with integer keys. Ruby hashes remember the order in which
 * keys were first inserted and iterate in that order; assigning to a key
 * that is already present replaces its value and keeps its position.
 */
module OrderedHash {

  datatype Hash<V> = Hash(keys: seq<int>, values: map<int, V>)
  {
    /** Every key is listed once, and the list and the map agree. */
    ghost predicate Valid() {
      && (forall i, j :: 0 <= i < j < |keys| ==> keys[i] != keys[j])
      && (forall k :: k in values <==> k in keys)
    }

    /** `hash[k] = v` */
    function Store(k: int, v: V): (h: Hash<V>)
      requires Valid()
      ensures h.Valid()
    {
      Hash(if k in values then keys else keys + [k], values[k := v])
    }
  }

  function Empty<V>(): (h: Hash<V>)
    ensures h.Valid()
  {
    Hash([], map[])
  }
}
