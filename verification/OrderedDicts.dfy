/** Dictionaries that remember the order in which their keys were first put. */
module OrderedDicts {
  import opened Sequences

  datatype Dict<K(==), V> = Dict(keys: seq<K>, table: map<K, V>) {
    predicate Valid() {
      && (forall i :: 0 <= i < |keys| ==> keys[i] in table)
      && (forall k :: k in table ==> k in keys)
      && Distinct(keys)
    }

    function Get(key: K, default: V): V {
      if key in table then table[key] else default
    }

    function Put(key: K, value: V): (d: Dict<K, V>)
      requires Valid()
      ensures d.Valid() && d.table == table[key := value]
    {
      Dict(if key in table then keys else keys + [key], table[key := value])
    }

    /** Without the key that was put first. */
    function DropFirst(): (d: Dict<K, V>)
      requires Valid() && keys != []
      ensures d.Valid() && d.keys == keys[1..] && d.table == table - {keys[0]}
    {
      assert keys == [keys[0]] + keys[1..];
      Dict(keys[1..], table - {keys[0]})
    }
  }

  function Pop<K, V>(d: Dict<K, V>, key: K): Dict<K, V> {
    Dict(Filter(k => k != key, d.keys), d.table - {key})
  }

  lemma PopValid<K(!new), V(!new)>(d: Dict<K, V>, key: K)
    requires d.Valid()
    ensures Pop(d, key).Valid() && |Pop(d, key).keys| <= |d.keys|
  {
    FilterShrinks(k => k != key, d.keys);
    var places := FilterSpec(k => k != key, d.keys);
    var kept := Filter(k => k != key, d.keys);
    forall i | 0 <= i < |kept| ensures kept[i] in d.table - {key} {
      assert kept[i] in kept;
    }
  }
}
