/**
  The write-back metadata cache over its database.

  The functions on `State` are the operations; `MetadataStore` performs them on mutable tables.
  `Logical` is the content a reader of the whole store should see: pending deletes and puts laid over
  the database. It behaves as a plain map under puts and discards, whatever is evicted and however
  often a flush fails. `get` agrees with it as long as no entry is evicted while its put is pending
  (`StepReadsExactly` gives the exact condition). `contains` can also affirm a record that was
  discarded (`ContainsExactly`).
*/
module MetadataCache {
  import opened Wrappers
  import opened Sequences
  import Versions
  import VersionText
  import Text

  const MAX_ENTRIES: nat := 16384

  /** The JSON text of a cache key. */
  type Key = string

  /** A stored record; the sorted tuple of extras is represented by the set it lists. */
  datatype Value = Value(
    name: string, version: string, dependencies: seq<string>, extras: set<string>, requiresPython: Option<string>)

  /** A database row: a record of the right shape, or anything else. */
  datatype Row = Good(value: Value) | Bad

  datatype Metadata = Metadata(
    name: string, version: Versions.Version, dependencies: seq<string>, extras: set<string>, requiresPython: Option<string>)

  datatype State = State(
    db: map<Key, Row>,
    order: seq<Key>,
    entries: map<Key, Value>,
    decoded: map<Key, Metadata>,
    puts: map<Key, Value>,
    deletes: set<Key>,
    dirty: bool)

  /** A new process: nothing in memory. */
  function Open(db: map<Key, Row>): State {
    State(db, [], map[], map[], map[], {}, false)
  }

  // ---------- Records ----------

  /** `accepts`: the dependency lines `parse_requirement` can read. */
  function Decode(accepts: string -> bool, value: Value): Option<Metadata> {
    if exists i :: 0 <= i < |value.dependencies| && !accepts(value.dependencies[i]) then None
    else
      match VersionText.ParseVersion(value.version)
      case None => None
      case Some(version) => Some(Metadata(value.name, version, value.dependencies, value.extras, value.requiresPython))
  }

  function Encode(m: Metadata): Value {
    Value(m.name, VersionText.Public(m.version), m.dependencies, m.extras, m.requiresPython)
  }

  /** Metadata built from parsed objects: a real version, and dependency lines that were read. */
  predicate Parsed(accepts: string -> bool, m: Metadata) {
    Versions.ValidVersion(m.version) && forall i :: 0 <= i < |m.dependencies| ==> accepts(m.dependencies[i])
  }

  /** A stored record is read back as the metadata that was put. */
  lemma RecordRoundTrip(accepts: string -> bool, m: Metadata)
    requires Parsed(accepts, m)
    ensures Decode(accepts, Encode(m)) == Some(m)
  {
    VersionText.PublicRoundTrip(m.version);
  }

  // ---------- Operations ----------

  function Other(key: Key): Key -> bool {
    k => k != key
  }

  function Without(order: seq<Key>, key: Key): seq<Key> {
    Filter(Other(key), order)
  }

  function DropEntry(st: State, key: Key): State {
    st.(order := Without(st.order, key), entries := st.entries - {key}, decoded := st.decoded - {key})
  }

  function Discard(st: State, key: Key): State {
    DropEntry(st, key).(puts := st.puts - {key}, deletes := st.deletes + {key}, dirty := true)
  }

  /** Room for one more entry: the oldest goes. */
  function Evict(st: State): State {
    if |st.entries| >= MAX_ENTRIES && st.order != [] then DropEntry(st, st.order[0]) else st
  }

  function SetEntry(st: State, key: Key, value: Value): State {
    st.(order := if key in st.entries then st.order else st.order + [key], entries := st.entries[key := value])
  }

  /** `_load`; `readable` is false when the database raises. */
  function Load(st: State, key: Key, readable: bool): (Option<Value>, State) {
    if !readable || key !in st.db then (None, st)
    else
      match st.db[key]
      case Bad => (None, Discard(st, key))
      case Good(value) => (Some(value), SetEntry(Evict(st), key, value))
  }

  function Get(accepts: string -> bool, st: State, key: Key, readable: bool): (Option<Metadata>, State) {
    if key in st.decoded then (Some(st.decoded[key]), st)
    else
      var (value, st') := if key in st.entries then (Some(st.entries[key]), st) else Load(st, key, readable);
      if value.None? then (None, st')
      else
        match Decode(accepts, value.value)
        case None => (None, Discard(st', key))
        case Some(m) => (Some(m), st'.(decoded := st'.decoded[key := m]))
  }

  function Contains(st: State, key: Key, readable: bool): (bool, State) {
    if key in st.entries then (true, st)
    else var (value, st') := Load(st, key, readable); (value.Some?, st')
  }

  function Put(st: State, key: Key, m: Metadata): State {
    var st' := if key in st.entries then st else Evict(st);
    SetEntry(st', key, Encode(m)).(
      decoded := st'.decoded[key := m],
      puts := st'.puts[key := Encode(m)],
      deletes := st'.deletes - {key},
      dirty := true)
  }

  function Written(puts: map<Key, Value>): map<Key, Row> {
    map key | key in puts :: Good(puts[key])
  }

  /** Commit or roll back: on failure nothing changes, the pending tables included. */
  function Flush(st: State, ok: bool): State {
    if !st.dirty || !ok then st
    else st.(db := (st.db - st.deletes) + Written(st.puts), puts := map[], deletes := {}, dirty := false)
  }

  datatype Op =
    | GetOp(key: Key, readable: bool)
    | ContainsOp(key: Key, readable: bool)
    | PutOp(key: Key, metadata: Metadata)
    | FlushOp(ok: bool)

  function Step(accepts: string -> bool, st: State, op: Op): State {
    match op
    case GetOp(key, readable) => Get(accepts, st, key, readable).1
    case ContainsOp(key, readable) => Contains(st, key, readable).1
    case PutOp(key, m) => Put(st, key, m)
    case FlushOp(ok) => Flush(st, ok)
  }

  function Run(accepts: string -> bool, st: State, ops: seq<Op>): State
    decreases |ops|
  {
    if ops == [] then st else Run(accepts, Step(accepts, st, ops[0]), ops[1..])
  }

  // ---------- The tables fit together ----------

  ghost predicate Consistent(st: State) {
    && Distinct(st.order)
    && (forall key :: key in st.order <==> key in st.entries)
    && |st.entries| <= MAX_ENTRIES
    && st.decoded.Keys <= st.entries.Keys
    && st.puts.Keys !! st.deletes
    && (st.puts != map[] || st.deletes != {} ==> st.dirty)
  }

  lemma WithoutSpec(order: seq<Key>, key: Key)
    requires Distinct(order)
    ensures Distinct(Without(order, key))
    ensures forall k :: k in Without(order, key) <==> k in order && k != key
  {
    hide Filter;
    var places := FilterSpec(Other(key), order);
  }

  lemma DropConsistent(st: State, key: Key)
    requires Consistent(st)
    ensures Consistent(DropEntry(st, key))
    ensures key in st.entries ==> |DropEntry(st, key).entries| == |st.entries| - 1
  {
    WithoutSpec(st.order, key);
    var fewer := st.entries - {key};
    assert fewer.Keys == st.entries.Keys - {key};
    assert |fewer| == |fewer.Keys| && |st.entries| == |st.entries.Keys|;
  }

  lemma EvictConsistent(st: State)
    requires Consistent(st)
    ensures Consistent(Evict(st)) && |Evict(st).entries| < MAX_ENTRIES
  {
    if |st.entries| >= MAX_ENTRIES {
      assert |st.entries| == |st.entries.Keys|;
      var key :| key in st.entries;
      assert key in st.order && st.order[0] in st.order;
      DropConsistent(st, st.order[0]);
    }
  }

  lemma SetConsistent(st: State, key: Key, value: Value)
    requires Consistent(st) && (key in st.entries || |st.entries| < MAX_ENTRIES)
    ensures Consistent(SetEntry(st, key, value))
  {
    var more := st.entries[key := value];
    assert more.Keys == st.entries.Keys + {key};
    assert |more| == |more.Keys| && |st.entries| == |st.entries.Keys|;
    var order := SetEntry(st, key, value).order;
    forall k ensures k in order <==> k in more { }
  }

  /** Every operation keeps the tables consistent: sizes, orders, and the disjoint pending tables. */
  lemma StepConsistent(accepts: string -> bool, st: State, op: Op)
    requires Consistent(st)
    ensures Consistent(Step(accepts, st, op))
  {
    hide Consistent, Decode, Encode, Evict, SetEntry, DropEntry;
    match op
    case GetOp(key, readable) =>
      if key !in st.decoded && key !in st.entries {
        LoadConsistent(st, key, readable);
      }
      GetConsistent(accepts, st, key, readable);
    case ContainsOp(key, readable) =>
      if key !in st.entries { LoadConsistent(st, key, readable); }
    case PutOp(key, m) =>
      PutConsistent(st, key, m);
    case FlushOp(ok) =>
      FlushConsistent(st, ok);
  }

  lemma DiscardConsistent(st: State, key: Key)
    requires Consistent(st)
    ensures Consistent(Discard(st, key))
  {
    DropConsistent(st, key);
  }

  lemma LoadConsistent(st: State, key: Key, readable: bool)
    requires Consistent(st)
    ensures Consistent(Load(st, key, readable).1)
    ensures Load(st, key, readable).0.Some? ==> key in Load(st, key, readable).1.entries
  {
    hide Consistent;
    if readable && key in st.db {
      if st.db[key].Bad? {
        DiscardConsistent(st, key);
      } else {
        EvictConsistent(st);
        SetConsistent(Evict(st), key, st.db[key].value);
      }
    }
  }

  lemma GetConsistent(accepts: string -> bool, st: State, key: Key, readable: bool)
    requires Consistent(st)
    ensures Consistent(Get(accepts, st, key, readable).1)
  {
    hide Decode, Discard, Load, Consistent;
    if key !in st.decoded {
      var (value, st') := if key in st.entries then (Some(st.entries[key]), st) else Load(st, key, readable);
      LoadConsistent(st, key, readable);
      DiscardConsistent(st', key);
      if value.Some? && Decode(accepts, value.value).Some? {
        DecodedConsistent(st', key, Decode(accepts, value.value).value);
      }
    }
  }

  lemma DecodedConsistent(st: State, key: Key, m: Metadata)
    requires Consistent(st) && key in st.entries
    ensures Consistent(st.(decoded := st.decoded[key := m]))
  {
  }

  lemma PutConsistent(st: State, key: Key, m: Metadata)
    requires Consistent(st)
    ensures Consistent(Put(st, key, m))
  {
    hide Encode, Evict, SetEntry;
    var st' := if key in st.entries then st else Evict(st);
    EvictConsistent(st);
    SetConsistent(st', key, Encode(m));
    SetKeeps(st', key, Encode(m));
    AddPending(SetEntry(st', key, Encode(m)), key, m);
  }

  lemma SetKeeps(st: State, key: Key, value: Value)
    ensures var after := SetEntry(st, key, value);
      && after.db == st.db && after.decoded == st.decoded && after.puts == st.puts
      && after.deletes == st.deletes && after.dirty == st.dirty && key in after.entries
  {
  }

  lemma AddPending(st: State, key: Key, m: Metadata)
    requires Consistent(st) && key in st.entries
    ensures Consistent(st.(
      decoded := st.decoded[key := m], puts := st.puts[key := Encode(m)], deletes := st.deletes - {key}, dirty := true))
  {
    hide Encode;
  }

  lemma FlushConsistent(st: State, ok: bool)
    requires Consistent(st)
    ensures Consistent(Flush(st, ok))
  {
  }

  // ---------- The store as a plain map ----------

  /** Pending deletes and puts laid over the database. */
  function Logical(st: State): map<Key, Row> {
    (st.db - st.deletes) + Written(st.puts)
  }

  datatype Event = Stored(key: Key, value: Value) | Discarded(key: Key) | Nothing

  function Apply(m: map<Key, Row>, e: Event): map<Key, Row> {
    match e
    case Stored(key, value) => m[key := Good(value)]
    case Discarded(key) => m - {key}
    case Nothing => m
  }

  /** The record a read of `key` looks at, if any. */
  function Seen(st: State, key: Key, readable: bool): Option<Row> {
    if key in st.entries then Some(Good(st.entries[key]))
    else if readable && key in st.db then Some(st.db[key])
    else None
  }

  /** What an operation does to the plain map. */
  function EventOf(accepts: string -> bool, st: State, op: Op): Event {
    match op
    case PutOp(key, m) => Stored(key, Encode(m))
    case FlushOp(_) => Nothing
    case ContainsOp(key, readable) =>
      if Seen(st, key, readable) == Some(Bad) then Discarded(key) else Nothing
    case GetOp(key, readable) =>
      if key in st.decoded || Seen(st, key, readable).None? then Nothing
      else if Seen(st, key, readable).value.Bad? || Decode(accepts, Seen(st, key, readable).value.value).None? then Discarded(key)
      else Nothing
  }

  lemma EvictLogical(st: State)
    ensures Evict(st).db == st.db && Evict(st).puts == st.puts && Evict(st).deletes == st.deletes
    ensures Evict(st).entries.Keys <= st.entries.Keys
  {
    hide Without, DropEntry;
    if st.order != [] { DropLogical(st, st.order[0]); }
  }

  lemma DropLogical(st: State, key: Key)
    ensures var after := DropEntry(st, key);
      && after.db == st.db && after.puts == st.puts && after.deletes == st.deletes
      && after.entries == st.entries - {key} && after.entries.Keys <= st.entries.Keys
  {
    hide Without;
  }

  lemma DiscardLogical(st: State, key: Key)
    ensures Logical(Discard(st, key)) == Logical(st) - {key}
  {
  }

  /** Loading and evicting touch neither the database nor the pending tables. */
  predicate SameStore(a: State, b: State) {
    a.db == b.db && a.puts == b.puts && a.deletes == b.deletes
  }

  lemma LoadLogical(st: State, key: Key, readable: bool)
    requires key !in st.entries
    ensures var (value, st') := Load(st, key, readable);
      && (value.Some? <==> Seen(st, key, readable).Some? && Seen(st, key, readable).value.Good?)
      && (value.Some? ==> value.value == Seen(st, key, readable).value.value)
      && if Seen(st, key, readable) == Some(Bad) then st' == Discard(st, key) else SameStore(st, st')
  {
    hide Discard, Evict;
    EvictLogical(st);
  }

  lemma GetLogical(accepts: string -> bool, st: State, key: Key, readable: bool)
    ensures Logical(Get(accepts, st, key, readable).1)
      == Apply(Logical(st), EventOf(accepts, st, GetOp(key, readable)))
  {
    hide Decode, Discard, Load, Written;
    DiscardLogical(st, key);
    if key !in st.decoded {
      var st' := st;
      if key !in st.entries {
        LoadLogical(st, key, readable);
        st' := Load(st, key, readable).1;
      }
      DiscardLogical(st', key);
    }
  }

  lemma StepIsApply(accepts: string -> bool, st: State, op: Op)
    ensures Logical(Step(accepts, st, op)) == Apply(Logical(st), EventOf(accepts, st, op))
  {
    hide Decode, Encode, Discard, Evict, Get, Load, Put, Flush, Logical;
    match op
    case GetOp(key, readable) =>
      GetLogical(accepts, st, key, readable);
    case ContainsOp(key, readable) =>
      DiscardLogical(st, key);
      if key !in st.entries {
        LoadLogical(st, key, readable);
        SameStoreLogical(st, Load(st, key, readable).1);
      }
    case PutOp(key, m) =>
      PutLogical(st, key, m);
    case FlushOp(ok) =>
      FlushLogical(st, ok);
  }

  lemma SameStoreLogical(a: State, b: State)
    ensures SameStore(a, b) ==> Logical(a) == Logical(b)
  {
  }

  lemma PutLogical(st: State, key: Key, m: Metadata)
    ensures Logical(Put(st, key, m)) == Logical(st)[key := Good(Encode(m))]
  {
    hide Encode, Evict;
    EvictLogical(st);
  }

  lemma FlushLogical(st: State, ok: bool)
    ensures Logical(Flush(st, ok)) == Logical(st)
  {
  }

  function Events(accepts: string -> bool, st: State, ops: seq<Op>): seq<Event>
    decreases |ops|
  {
    if ops == [] then []
    else [EventOf(accepts, st, ops[0])] + Events(accepts, Step(accepts, st, ops[0]), ops[1..])
  }

  function ApplyAll(m: map<Key, Row>, events: seq<Event>): map<Key, Row>
    decreases |events|
  {
    if events == [] then m else ApplyAll(Apply(m, events[0]), events[1..])
  }

  /**
    Over any run, from any consistent start, the store is the plain map to which the puts and
    discards were applied in order, and the tables stay consistent.
  */
  lemma {:induction false} RunIsMap(accepts: string -> bool, st: State, ops: seq<Op>)
    requires Consistent(st)
    ensures Logical(Run(accepts, st, ops)) == ApplyAll(Logical(st), Events(accepts, st, ops))
    ensures Consistent(Run(accepts, st, ops))
    decreases |ops|
  {
    hide Consistent, Logical, Apply, EventOf, Step;
    if ops != [] {
      StepConsistent(accepts, st, ops[0]);
      StepIsApply(accepts, st, ops[0]);
      RunIsMap(accepts, Step(accepts, st, ops[0]), ops[1..]);
      var first, rest := EventOf(accepts, st, ops[0]), Events(accepts, Step(accepts, st, ops[0]), ops[1..]);
      assert ([first] + rest)[1..] == rest;
    }
  }

  /** A successful flush makes the store durable: a new process sees exactly the plain map. */
  lemma FlushIsDurable(st: State)
    requires Consistent(st)
    ensures Logical(Open(Flush(st, true).db)) == Logical(st)
    ensures Flush(st, true).puts == map[] && Flush(st, true).deletes == {}
  {
    hide Flush, Logical;
    FlushWrites(st);
    NothingPending(Flush(st, true));
    NothingPending(Open(Flush(st, true).db));
  }

  lemma FlushWrites(st: State)
    requires Consistent(st)
    ensures Flush(st, true).puts == map[] && Flush(st, true).deletes == {}
    ensures Logical(Flush(st, true)) == Logical(st)
  {
    hide Logical;
    FlushLogical(st, true);
  }

  lemma NothingPending(st: State)
    requires st.puts == map[] && st.deletes == {}
    ensures Logical(st) == st.db
  {
  }

  // ---------- What reads return ----------

  /** What a reader of the whole store would be told about a key. */
  function Answer(accepts: string -> bool, store: map<Key, Row>, key: Key): Option<Metadata> {
    if key in store && store[key].Good? then Decode(accepts, store[key].value) else None
  }

  /** The next read of the key is answered from the right record. */
  predicate Coherent(accepts: string -> bool, st: State, key: Key) {
    && (key in st.entries ==>
         if key in Logical(st) then Logical(st)[key] == Good(st.entries[key]) else Decode(accepts, st.entries[key]).None?)
    && (key in st.puts ==> key in st.entries && Decode(accepts, st.puts[key]).Some?)
    && (key in st.decoded ==> key in st.entries && Decode(accepts, st.entries[key]) == Some(st.decoded[key]))
    && (key in st.deletes ==> Answer(accepts, st.db, key).None?)
  }

  /** The operation makes room by dropping an entry whose put was not flushed yet. */
  predicate EvictsPending(st: State, op: Op) {
    && |st.entries| >= MAX_ENTRIES && st.order != [] && st.order[0] in st.puts
    && match op
       case PutOp(key, _) => key !in st.entries
       case FlushOp(_) => false
       case GetOp(key, readable) =>
         key !in st.decoded && key !in st.entries && readable && key in st.db && st.db[key].Good?
       case ContainsOp(key, readable) => key !in st.entries && readable && key in st.db && st.db[key].Good?
  }

  /** `get` on a readable database returns what the plain map holds. */
  lemma CoherentRead(accepts: string -> bool, st: State, key: Key)
    requires Coherent(accepts, st, key)
    ensures Get(accepts, st, key, true).0 == Answer(accepts, Logical(st), key)
  {
    hide Decode;
  }

  /** The store holds a record of the right shape under the key. */
  predicate Holds(store: map<Key, Row>, key: Key) {
    key in store && store[key].Good?
  }

  /** The record was discarded, and `contains` finds it in memory or in its old row. */
  predicate AffirmsDiscarded(st: State, key: Key) {
    if key in st.entries then key !in Logical(st) else key in st.deletes && Holds(st.db, key)
  }

  /**
    On a readable database `contains` answers for the logical store, except that it affirms a
    discarded record while its entry or its old row is there. It never denies a readable record.
  */
  lemma ContainsExactly(accepts: string -> bool, st: State, key: Key)
    requires Coherent(accepts, st, key)
    ensures Contains(st, key, true).0 == Holds(Logical(st), key) <==> !AffirmsDiscarded(st, key)
    ensures Answer(accepts, Logical(st), key).Some? ==> Contains(st, key, true).0
  {
    hide Decode;
  }

  /** This happens: reading a record that cannot be decoded discards it, and `contains` still affirms it. */
  lemma ContainsAfterDiscard(accepts: string -> bool, key: Key, value: Value)
    requires Decode(accepts, value).None?
    ensures var db := map[key := Good(value)]; var st := Run(accepts, Open(db), [GetOp(key, true)]);
      && NothingPendingEvicted(accepts, Open(db), [GetOp(key, true)])
      && key !in Logical(st) && Contains(st, key, true).0
  {
    hide Decode, Discard, Evict, SetEntry, Logical;
    var st, loaded := Open(map[key := Good(value)]), SetEntry(Evict(Open(map[key := Good(value)])), key, value);
    EvictLogical(st);
    SetKeeps(Evict(st), key, value);
    assert Get(accepts, st, key, true) == (None, Discard(loaded, key));
    DiscardLogical(loaded, key);
    DiscardDrops(loaded, key);
    OneRead(accepts, st, key);
  }

  lemma DiscardDrops(st: State, key: Key)
    ensures var after := Discard(st, key); after.db == st.db && key !in after.entries && key in after.deletes
  {
    hide Without;
  }

  lemma {:induction false} OneRead(accepts: string -> bool, st: State, key: Key)
    requires |st.entries| < MAX_ENTRIES
    ensures Run(accepts, st, [GetOp(key, true)]) == Get(accepts, st, key, true).1
    ensures NothingPendingEvicted(accepts, st, [GetOp(key, true)])
  {
    hide Get;
    assert [GetOp(key, true)][1..] == [];
  }

  /** Of a key that was put and dropped before its flush, `get` returns the old row. */
  lemma DroppedRead(accepts: string -> bool, st: State, key: Key)
    requires key in st.puts && key !in st.entries && key !in st.decoded
    ensures Get(accepts, st, key, true).0 == Answer(accepts, st.db, key)
    ensures Answer(accepts, Logical(st), key) == Decode(accepts, st.puts[key])
  {
    hide Decode;
  }

  /** Once read, the old row stays in the tables, even after the put is flushed. */
  lemma DroppedStaysOld(accepts: string -> bool, st: State, key: Key, older: Metadata)
    requires Consistent(st) && key in st.puts && key !in st.entries && key !in st.decoded
    requires key in st.db && st.db[key].Good? && Decode(accepts, st.db[key].value) == Some(older)
    ensures var after := Flush(Get(accepts, st, key, true).1, true);
      && Get(accepts, after, key, true).0 == Some(older)
      && after.puts == map[] && key in after.db && after.db[key] == Good(st.puts[key])
  {
    hide Decode, Without;
    EvictLogical(st);
    var value := st.db[key].value;
    var loaded := SetEntry(Evict(st), key, value);
    assert Get(accepts, st, key, true).1 == loaded.(decoded := loaded.decoded[key := older]);
  }

  /** If the old row is of the wrong shape, reading it discards the pending put. */
  lemma DroppedIsLost(accepts: string -> bool, st: State, key: Key)
    requires key in st.puts && key !in st.entries && key !in st.decoded && key in st.db && st.db[key].Bad?
    ensures Get(accepts, st, key, true).0 == None && key !in Logical(Get(accepts, st, key, true).1)
  {
    hide Decode, DropEntry;
    DiscardLogical(st, key);
  }

  predicate ParsedOp(accepts: string -> bool, op: Op) {
    op.PutOp? ==> Parsed(accepts, op.metadata)
  }

  lemma DropOther(st: State, dropped: Key, key: Key)
    requires Consistent(st) && key != dropped
    ensures var after := DropEntry(st, dropped);
      && SameStore(st, after)
      && (key in after.entries <==> key in st.entries) && (key in st.entries ==> after.entries[key] == st.entries[key])
      && (key in after.decoded <==> key in st.decoded) && (key in st.decoded ==> after.decoded[key] == st.decoded[key])
  {
  }

  /** Eviction keeps every key coherent, except a dropped key with a pending put. */
  lemma EvictCoherent(accepts: string -> bool, st: State, key: Key)
    requires Consistent(st) && Coherent(accepts, st, key)
    requires !(|st.entries| >= MAX_ENTRIES && st.order != [] && st.order[0] in st.puts && st.order[0] == key)
    ensures Coherent(accepts, Evict(st), key)
  {
    hide Decode, Consistent;
    if |st.entries| >= MAX_ENTRIES && st.order != [] && st.order[0] != key {
      DropOther(st, st.order[0], key);
    }
  }

  lemma DiscardCoherent(accepts: string -> bool, st: State, discarded: Key, key: Key)
    requires Consistent(st) && Coherent(accepts, st, key)
    requires discarded == key ==> Answer(accepts, st.db, key).None?
    ensures Coherent(accepts, Discard(st, discarded), key)
  {
    hide Decode, Consistent;
    if key != discarded {
      DropOther(st, discarded, key);
    }
    DiscardLogical(st, discarded);
  }

  lemma LoadCoherent(accepts: string -> bool, st: State, loaded: Key, readable: bool, key: Key)
    requires Consistent(st) && Coherent(accepts, st, key) && loaded !in st.entries
    requires !(EvictsPending(st, ContainsOp(loaded, readable)) && st.order[0] == key)
    ensures Coherent(accepts, Load(st, loaded, readable).1, key)
  {
    hide Decode, Discard, Evict, Consistent;
    if readable && loaded in st.db {
      if st.db[loaded].Bad? {
        DiscardCoherent(accepts, st, loaded, key);
      } else {
        EvictCoherent(accepts, st, key);
        EvictLogical(st);
        SetLoaded(accepts, Evict(st), loaded, key);
      }
    }
  }

  lemma SetLoaded(accepts: string -> bool, st: State, loaded: Key, key: Key)
    requires Coherent(accepts, st, key)
    requires loaded in st.db && st.db[loaded].Good?
    requires loaded == key ==> key !in st.entries
    ensures Coherent(accepts, SetEntry(st, loaded, st.db[loaded].value), key)
  {
    hide Decode;
  }

  /** Reading a key coherently: a discard happens only on a record that cannot be decoded. */
  lemma GetCoherent(accepts: string -> bool, st: State, asked: Key, readable: bool, key: Key)
    requires Consistent(st) && Coherent(accepts, st, key)
    requires !(EvictsPending(st, GetOp(asked, readable)) && st.order[0] == key)
    ensures Coherent(accepts, Get(accepts, st, asked, readable).1, key)
  {
    hide Decode, Discard, Load, Consistent;
    if asked !in st.decoded {
      var (value, st') := if asked in st.entries then (Some(st.entries[asked]), st) else Load(st, asked, readable);
      if asked !in st.entries {
        LoadCoherent(accepts, st, asked, readable, key);
        LoadConsistent(st, asked, readable);
        LoadEntry(st, asked, readable);
      }
      if value.Some? {
        if Decode(accepts, value.value).None? {
          if asked == key { UndecodableRow(accepts, st', key); }
          DiscardCoherent(accepts, st', asked, key);
        }
      }
    }
  }

  lemma LoadEntry(st: State, key: Key, readable: bool)
    ensures var (value, st') := Load(st, key, readable);
      value.Some? ==> key in st'.entries && st'.entries[key] == value.value
  {
  }

  lemma UndecodableRow(accepts: string -> bool, st: State, key: Key)
    requires Coherent(accepts, st, key) && key in st.entries && Decode(accepts, st.entries[key]).None?
    ensures Answer(accepts, st.db, key).None?
  {
    hide Decode;
  }

  lemma PutCoherent(accepts: string -> bool, st: State, put: Key, m: Metadata, key: Key)
    requires Consistent(st) && Coherent(accepts, st, key) && Parsed(accepts, m)
    requires !(EvictsPending(st, PutOp(put, m)) && st.order[0] == key)
    ensures Coherent(accepts, Put(st, put, m), key)
  {
    hide Decode, Encode, Evict, Parsed, Consistent, Coherent;
    RecordRoundTrip(accepts, m);
    var st' := if put in st.entries then st else Evict(st);
    if put !in st.entries { EvictCoherent(accepts, st, key); }
    SetPut(accepts, st', put, m, key);
  }

  lemma SetPut(accepts: string -> bool, st: State, put: Key, m: Metadata, key: Key)
    requires Coherent(accepts, st, key) && Decode(accepts, Encode(m)) == Some(m)
    ensures Coherent(accepts, SetEntry(st, put, Encode(m)).(
      decoded := st.decoded[put := m], puts := st.puts[put := Encode(m)], deletes := st.deletes - {put}, dirty := true), key)
  {
    hide Decode, Encode;
  }

  lemma FlushCoherent(accepts: string -> bool, st: State, ok: bool, key: Key)
    requires Consistent(st) && Coherent(accepts, st, key)
    ensures Coherent(accepts, Flush(st, ok), key)
  {
    hide Decode;
  }

  /** Every operation keeps every key coherent, except a pending key it drops. */
  lemma StepCoherent(accepts: string -> bool, st: State, op: Op, key: Key)
    requires Consistent(st) && Coherent(accepts, st, key) && ParsedOp(accepts, op)
    requires !(EvictsPending(st, op) && st.order[0] == key)
    ensures Coherent(accepts, Step(accepts, st, op), key)
  {
    hide Decode, Encode, Consistent, Coherent, Get, Load, Put, Flush, Parsed;
    match op
    case GetOp(asked, readable) => GetCoherent(accepts, st, asked, readable, key);
    case ContainsOp(asked, readable) =>
      if asked !in st.entries { LoadCoherent(accepts, st, asked, readable, key); }
    case PutOp(put, m) => PutCoherent(accepts, st, put, m, key);
    case FlushOp(ok) => FlushCoherent(accepts, st, ok, key);
  }

  ghost predicate AllCoherent(accepts: string -> bool, st: State) {
    forall key :: Coherent(accepts, st, key)
  }

  /** Every key can be read, and reads as the plain map says. */
  ghost predicate ReadsExactly(accepts: string -> bool, st: State) {
    forall key :: Get(accepts, st, key, true).0 == Answer(accepts, Logical(st), key)
  }

  /** The dropped key: its put stays pending, and only the old row can be read. */
  lemma DroppedState(accepts: string -> bool, st: State, op: Op)
    requires Consistent(st) && EvictsPending(st, op)
    ensures var key, after := st.order[0], Step(accepts, st, op);
      && key in after.puts && after.puts[key] == st.puts[key] && after.db == st.db
      && key !in after.entries && key !in after.decoded
  {
    hide Decode, Encode, Consistent, Without, Written;
    assert st.order[0] in st.order;
    DroppedEntry(st);
    OldestIsEntry(st);
  }

  lemma OldestIsEntry(st: State)
    requires Consistent(st) && st.order != []
    ensures st.order[0] in st.entries && |st.entries| <= MAX_ENTRIES
  {
    assert st.order[0] in st.order;
  }

  lemma DroppedEntry(st: State)
    requires st.order != []
    ensures var after := DropEntry(st, st.order[0]);
      SameStore(after, st) && st.order[0] !in after.entries && st.order[0] !in after.decoded
  {
  }

  /**
    After an operation on a coherent state, every read is exact, except when the operation drops an
    entry whose put is still pending and whose old row reads differently.
  */
  lemma StepReadsExactly(accepts: string -> bool, st: State, op: Op)
    requires Consistent(st) && AllCoherent(accepts, st) && ParsedOp(accepts, op)
    ensures ReadsExactly(accepts, Step(accepts, st, op)) <==>
      (EvictsPending(st, op) ==> Answer(accepts, st.db, st.order[0]) == Decode(accepts, st.puts[st.order[0]]))
  {
    hide Decode, Encode, Consistent, Coherent, Get, Step, Answer, Logical;
    var after := Step(accepts, st, op);
    forall key | !(EvictsPending(st, op) && st.order[0] == key)
      ensures Get(accepts, after, key, true).0 == Answer(accepts, Logical(after), key)
    {
      StepCoherent(accepts, st, op, key);
      CoherentRead(accepts, after, key);
    }
    if EvictsPending(st, op) {
      DroppedState(accepts, st, op);
      DroppedRead(accepts, after, st.order[0]);
    }
  }

  // ---------- Runs ----------

  predicate NothingPendingEvicted(accepts: string -> bool, st: State, ops: seq<Op>)
    decreases |ops|
  {
    ops == [] || (!EvictsPending(st, ops[0]) && NothingPendingEvicted(accepts, Step(accepts, st, ops[0]), ops[1..]))
  }

  lemma OpenIsCoherent(accepts: string -> bool, db: map<Key, Row>)
    ensures Consistent(Open(db)) && AllCoherent(accepts, Open(db)) && Logical(Open(db)) == db
  {
    hide Decode;
  }

  lemma {:induction false} RunCoherent(accepts: string -> bool, st: State, ops: seq<Op>)
    requires Consistent(st) && AllCoherent(accepts, st)
    requires forall i :: 0 <= i < |ops| ==> ParsedOp(accepts, ops[i])
    requires NothingPendingEvicted(accepts, st, ops)
    ensures AllCoherent(accepts, Run(accepts, st, ops))
    decreases |ops|
  {
    hide Consistent, Coherent, Step, EvictsPending, ParsedOp;
    if ops != [] {
      StepConsistent(accepts, st, ops[0]);
      forall key ensures Coherent(accepts, Step(accepts, st, ops[0]), key) {
        StepCoherent(accepts, st, ops[0], key);
      }
      RunCoherent(accepts, Step(accepts, st, ops[0]), ops[1..]);
    }
  }

  /**
    A process that never drops a pending entry reads exactly what a plain map, started from the
    database it opened and given the same puts and discards, would hold.
  */
  lemma {:induction false} RunReadsMap(accepts: string -> bool, db: map<Key, Row>, ops: seq<Op>, key: Key)
    requires forall i :: 0 <= i < |ops| ==> ParsedOp(accepts, ops[i])
    requires NothingPendingEvicted(accepts, Open(db), ops)
    ensures Get(accepts, Run(accepts, Open(db), ops), key, true).0
      == Answer(accepts, ApplyAll(db, Events(accepts, Open(db), ops)), key)
  {
    hide Consistent, Coherent, Run, Get, Answer, Events, NothingPendingEvicted;
    OpenIsCoherent(accepts, db);
    RunCoherent(accepts, Open(db), ops);
    RunIsMap(accepts, Open(db), ops);
    CoherentRead(accepts, Run(accepts, Open(db), ops), key);
  }

  /** The metadata put last for the key. */
  function LastPut(ops: seq<Op>, key: Key): Option<Metadata> {
    if ops == [] then None
    else
      var later := LastPut(ops[1..], key);
      if later.Some? then later
      else if ops[0].PutOp? && ops[0].key == key then Some(ops[0].metadata)
      else None
  }

  /** Of a coherent key only an unreadable record is discarded. */
  lemma StepAnswer(accepts: string -> bool, st: State, op: Op, key: Key)
    requires Consistent(st) && Coherent(accepts, st, key) && ParsedOp(accepts, op)
    ensures Answer(accepts, Logical(Step(accepts, st, op)), key) ==
      if op.PutOp? && op.key == key then Some(op.metadata) else Answer(accepts, Logical(st), key)
  {
    hide Decode, Encode, Parsed, Consistent, Logical, Step, Coherent;
    StepIsApply(accepts, st, op);
    match op
    case PutOp(put, m) => RecordRoundTrip(accepts, m);
    case FlushOp(_) =>
    case GetOp(asked, readable) => DiscardsUnreadable(accepts, st, op, key);
    case ContainsOp(asked, readable) => DiscardsUnreadable(accepts, st, op, key);
  }

  lemma DiscardsUnreadable(accepts: string -> bool, st: State, op: Op, key: Key)
    requires Coherent(accepts, st, key) && !op.PutOp?
    ensures EventOf(accepts, st, op) == Discarded(key) ==> Answer(accepts, Logical(st), key).None?
  {
    hide Decode, Encode;
  }

  lemma {:induction false} RunAnswers(accepts: string -> bool, st: State, ops: seq<Op>, key: Key)
    requires Consistent(st) && AllCoherent(accepts, st)
    requires forall i :: 0 <= i < |ops| ==> ParsedOp(accepts, ops[i])
    requires NothingPendingEvicted(accepts, st, ops)
    ensures Get(accepts, Run(accepts, st, ops), key, true).0 ==
      if LastPut(ops, key).Some? then LastPut(ops, key) else Answer(accepts, Logical(st), key)
    decreases |ops|
  {
    hide Consistent, Coherent, Step, EvictsPending, ParsedOp, Get, Answer, Logical;
    if ops == [] {
      CoherentRead(accepts, st, key);
    } else {
      StepConsistent(accepts, st, ops[0]);
      forall k ensures Coherent(accepts, Step(accepts, st, ops[0]), k) {
        StepCoherent(accepts, st, ops[0], k);
      }
      StepAnswer(accepts, st, ops[0], key);
      RunAnswers(accepts, Step(accepts, st, ops[0]), ops[1..], key);
    }
  }

  /**
    A process that never drops a pending entry reads the metadata that was put last for the key, or
    else what the row of the database it opened decodes to, however often entries are evicted and flushes fail.
  */
  lemma {:induction false} RunReadsLastPut(accepts: string -> bool, db: map<Key, Row>, ops: seq<Op>, key: Key)
    requires forall i :: 0 <= i < |ops| ==> ParsedOp(accepts, ops[i])
    requires NothingPendingEvicted(accepts, Open(db), ops)
    ensures Get(accepts, Run(accepts, Open(db), ops), key, true).0 ==
      if LastPut(ops, key).Some? then LastPut(ops, key) else Answer(accepts, db, key)
  {
    hide Consistent, Coherent, Run, Get, Answer, NothingPendingEvicted;
    OpenIsCoherent(accepts, db);
    RunAnswers(accepts, Open(db), ops, key);
  }

  // ---------- A put can be forgotten before it is flushed ----------

  function KeyNumber(n: nat): Key {
    Text.NatText(n)
  }

  function PutMany(m: Metadata, n: nat): State {
    if n == 0 then Open(map[]) else Put(PutMany(m, n - 1), KeyNumber(n - 1), m)
  }

  /** A put of a new key into a table with room. */
  lemma PutFresh(st: State, key: Key, m: Metadata)
    requires |st.entries| < MAX_ENTRIES && key !in st.entries
    ensures var after := Put(st, key, m);
      && after.db == st.db && after.order == st.order + [key]
      && after.entries == st.entries[key := Encode(m)] && |after.entries| == |st.entries| + 1
      && after.puts == st.puts[key := Encode(m)]
  {
    hide Encode;
    var more := st.entries[key := Encode(m)];
    assert more.Keys == st.entries.Keys + {key};
    assert |more| == |more.Keys| && |st.entries| == |st.entries.Keys|;
  }

  lemma {:induction false} PutManySpec(m: Metadata, n: nat)
    requires n <= MAX_ENTRIES
    ensures var st := PutMany(m, n);
      && st.db == map[] && |st.order| == n && |st.entries| == n
      && (forall i :: 0 <= i < n ==> st.order[i] == KeyNumber(i) && KeyNumber(i) in st.entries)
      && (forall key :: key in st.entries ==> exists i :: 0 <= i < n && key == KeyNumber(i))
      && st.puts == st.entries
      && (forall key :: key in st.puts ==> st.puts[key] == Encode(m))
  {
    hide Encode, KeyNumber, Put;
    if n > 0 {
      PutManySpec(m, n - 1);
      forall i | 0 <= i < n - 1 ensures KeyNumber(i) != KeyNumber(n - 1) {
        KeyNumbersDiffer(i, n - 1);
      }
      PutFresh(PutMany(m, n - 1), KeyNumber(n - 1), m);
    }
  }

  lemma KeyNumbersDiffer(i: nat, j: nat)
    requires i != j
    ensures KeyNumber(i) != KeyNumber(j)
  {
    Text.NatRoundTrip(i);
    Text.NatRoundTrip(j);
  }

  /** One put more than the table holds, with no flush: the first put can no longer be read. */
  lemma {:induction false} FullTableForgets(accepts: string -> bool, m: Metadata)
    requires Parsed(accepts, m)
    ensures var st := PutMany(m, MAX_ENTRIES + 1);
      && Get(accepts, st, KeyNumber(0), true).0 == None
      && Answer(accepts, Logical(st), KeyNumber(0)) == Some(m)
  {
    hide Decode, Encode, KeyNumber, Parsed, Put, Logical, Get, Evict;
    PutManySpec(m, MAX_ENTRIES);
    PutManyConsistent(m, MAX_ENTRIES);
    RecordRoundTrip(accepts, m);
    var before := PutMany(m, MAX_ENTRIES);
    var op := PutOp(KeyNumber(MAX_ENTRIES), m);
    forall i | 0 <= i < MAX_ENTRIES ensures KeyNumber(i) != KeyNumber(MAX_ENTRIES) {
      KeyNumbersDiffer(i, MAX_ENTRIES);
    }
    DroppedState(accepts, before, op);
    DroppedRead(accepts, PutMany(m, MAX_ENTRIES + 1), KeyNumber(0));
  }

  lemma {:induction false} PutManyConsistent(m: Metadata, n: nat)
    ensures Consistent(PutMany(m, n))
  {
    hide Put, Consistent;
    if n == 0 {
      EmptyConsistent();
    } else {
      PutManyConsistent(m, n - 1);
      PutConsistent(PutMany(m, n - 1), KeyNumber(n - 1), m);
    }
  }

  lemma EmptyConsistent()
    ensures Consistent(Open(map[]))
  {
  }
}
