/** The metadata cache on its mutable tables: every method performs the operation of `MetadataCache`. */
module MetadataStore {
  import opened Wrappers
  import opened MetadataCache
  import VersionText

  class CandidateMetadataCache {
    var db: map<Key, Row>
    var order: seq<Key>
    var entries: map<Key, Value>
    var decoded: map<Key, Metadata>
    var pendingPuts: map<Key, Value>
    var pendingDeletes: set<Key>
    var dirty: bool

    ghost function Abstract(): State
      reads this
    {
      State(db, order, entries, decoded, pendingPuts, pendingDeletes, dirty)
    }

    constructor (db: map<Key, Row>)
      ensures Abstract() == Open(db)
    {
      this.db := db;
      order, entries, decoded := [], map[], map[];
      pendingPuts, pendingDeletes, dirty := map[], {}, false;
    }

    method Forget(key: Key)
      modifies this
      ensures Abstract() == DropEntry(old(Abstract()), key)
    {
      order := Without(order, key);
      entries := entries - {key};
      decoded := decoded - {key};
    }

    /** `_discard`. */
    method DiscardKey(key: Key)
      modifies this
      ensures Abstract() == Discard(old(Abstract()), key)
    {
      Forget(key);
      pendingPuts := pendingPuts - {key};
      pendingDeletes := pendingDeletes + {key};
      dirty := true;
    }

    /** `_evict`. */
    method MakeRoom()
      modifies this
      ensures Abstract() == Evict(old(Abstract()))
    {
      if |entries| >= MAX_ENTRIES && order != [] {
        Forget(order[0]);
      }
    }

    method Remember(key: Key, value: Value)
      modifies this
      ensures Abstract() == SetEntry(old(Abstract()), key, value)
    {
      if key !in entries {
        order := order + [key];
      }
      entries := entries[key := value];
    }

    /** `_load`; `readable` is false when the database raises. */
    method LoadRow(key: Key, readable: bool) returns (value: Option<Value>)
      modifies this
      ensures (value, Abstract()) == Load(old(Abstract()), key, readable)
    {
      if !readable || key !in db {
        return None;
      }
      var row := db[key];
      if row.Bad? {
        DiscardKey(key);
        return None;
      }
      MakeRoom();
      Remember(key, row.value);
      return Some(row.value);
    }

    /** `get`. */
    method GetMetadata(accepts: string -> bool, key: Key, readable: bool) returns (result: Option<Metadata>)
      modifies this
      ensures (result, Abstract()) == Get(accepts, old(Abstract()), key, readable)
    {
      hide DropEntry, Discard, Load, Decode;
      if key in decoded {
        return Some(decoded[key]);
      }
      var value: Option<Value>;
      if key in entries {
        value := Some(entries[key]);
      } else {
        value := LoadRow(key, readable);
        if value.None? {
          return None;
        }
      }
      result := DecodeRecord(accepts, value.value);
      if result.None? {
        DiscardKey(key);
        return None;
      }
      decoded := decoded[key := result.value];
    }

    /** `contains`. */
    method ContainsKey(key: Key, readable: bool) returns (present: bool)
      modifies this
      ensures (present, Abstract()) == Contains(old(Abstract()), key, readable)
    {
      hide Load;
      if key in entries {
        return true;
      }
      var value := LoadRow(key, readable);
      return value.Some?;
    }

    /** `put`. */
    method PutMetadata(key: Key, m: Metadata)
      modifies this
      ensures Abstract() == Put(old(Abstract()), key, m)
    {
      hide Evict, Encode;
      if key !in entries {
        MakeRoom();
      }
      var value := Encode(m);
      Remember(key, value);
      decoded := decoded[key := m];
      pendingPuts := pendingPuts[key := value];
      pendingDeletes := pendingDeletes - {key};
      dirty := true;
    }

    /** `flush`; `committed` is false when opening, writing or committing raises, and the database rolls back. */
    method FlushPending(committed: bool)
      modifies this
      ensures Abstract() == Flush(old(Abstract()), committed)
    {
      if !dirty {
        return;
      }
      var written := (db - pendingDeletes) + Written(pendingPuts);
      if committed {
        db := written;
        pendingPuts, pendingDeletes := map[], {};
        dirty := false;
      }
    }
  }

  /** The loop over the dependency lines, then the version. */
  method DecodeRecord(accepts: string -> bool, value: Value) returns (m: Option<Metadata>)
    ensures m == Decode(accepts, value)
  {
    for i := 0 to |value.dependencies|
      invariant forall k :: 0 <= k < i ==> accepts(value.dependencies[k])
    {
      if !accepts(value.dependencies[i]) {
        return None;
      }
    }
    var version := VersionText.ParseVersion(value.version);
    if version.None? {
      return None;
    }
    return Some(Metadata(value.name, version.value, value.dependencies, value.extras, value.requiresPython));
  }
}
