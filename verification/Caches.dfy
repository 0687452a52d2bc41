/** The one eviction policy of the in-process tables: sweep everything once the table is full. */
module Caches {

  function BoundedPut<K, V>(table: map<K, V>, key: K, value: V, limit: nat): map<K, V> {
    (if |table| >= limit then map[] else table)[key := value]
  }

  /** The new entry is there, any other entry is an old one, and the limit holds again. */
  lemma BoundedPutSpec<K, V>(table: map<K, V>, key: K, value: V, limit: nat)
    requires |table| <= limit && 0 < limit
    ensures var t := BoundedPut(table, key, value, limit);
      && key in t && t[key] == value
      && (forall k :: k in t && k != key ==> k in table && t[k] == table[k])
      && |t| <= limit
  {
    var base := if |table| >= limit then map[] else table;
    assert |base| < limit;
    assert base[key := value].Keys == base.Keys + {key};
  }
}
