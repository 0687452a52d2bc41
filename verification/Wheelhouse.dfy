/**
  The minimal resolver over a local wheelhouse.

  `Add` and `AddAll` are the recursion of `add_requirement` on values; `WheelhouseResolver.Resolver`
  is the recursion on its mutable tables, proved to do the same.
*/
module Wheelhouse {
  import opened Wrappers
  import opened Specifiers
  import opened Sorting
  import opened FastVersions
  import Orders
  import Text

  // ---------- Requirements ----------

  function NormalizeChar(c: char): char {
    if c == '_' || c == '.' then '-' else Text.LowerChar(c)
  }

  function NormalizeName(s: string): string {
    seq(|s|, i requires 0 <= i < |s| => NormalizeChar(s[i]))
  }

  function Before(s: string, sub: string): string {
    var at := Text.Find(s, sub);
    if at.Some? then s[..at.value] else s
  }

  function After(s: string, sub: string): string {
    var at := Text.Find(s, sub);
    if at.Some? then s[at.value + |sub|..] else ""
  }

  datatype Constraint = Constraint(op: Operator, key: seq<nat>)

  datatype Requirement = Requirement(name: string, constraint: Option<Constraint>)

  function OperatorText(op: Operator): string
    requires FastOperator(op)
  {
    match op
    case Eq => "=="
    case Ge => ">="
    case Le => "<="
    case Gt => ">"
    case Lt => "<"
  }

  /** The operators in the order they are looked for. */
  function OperatorIn(value: string): Option<Operator> {
    if Text.Find(value, "==").Some? then Some(Eq)
    else if Text.Find(value, ">=").Some? then Some(Ge)
    else if Text.Find(value, "<=").Some? then Some(Le)
    else if Text.Find(value, ">").Some? then Some(Gt)
    else if Text.Find(value, "<").Some? then Some(Lt)
    else None
  }

  function ProjectName(text: string): string {
    NormalizeName(Text.Strip(Before(text, "[")))
  }

  /** `parse_requirement`; `None` where the fast path declines. */
  function ParseRequirement(raw: string): Option<Requirement> {
    var value := Text.Strip(Before(raw, ";"));
    if value == "" then None
    else
      match OperatorIn(value)
      case None => Some(Requirement(ProjectName(value), None))
      case Some(op) =>
        var key := VersionKey(Text.Strip(After(value, OperatorText(op))));
        if key.None? then None
        else Some(Requirement(ProjectName(Before(value, OperatorText(op))), Some(Constraint(op, key.value))))
  }

  // ---------- Wheels ----------

  datatype Metadata = Metadata(dependencies: seq<string>, pure: bool)

  /** A wheel file: what its name says, and what reading it would give (`None` if that fails). */
  datatype Wheel = Wheel(name: string, version: string, path: string, metadata: Option<Metadata>)

  function CanonicalName(w: Wheel): string {
    NormalizeName(w.name)
  }

  /** `requirement_satisfied`. */
  predicate Satisfied(r: Requirement, w: Wheel) {
    r.constraint.Some? ==>
      var key := VersionKey(w.version);
      key.Some? && KeySatisfies(r.constraint.value.op, key.value, r.constraint.value.key)
  }

  function SortKey(w: Wheel): seq<nat> {
    var key := VersionKey(w.version);
    if key.Some? then key.value else []
  }

  /** Highest version first. */
  predicate NotLower(a: Wheel, b: Wheel) {
    Orders.CmpInts(SortKey(a), SortKey(b)) != Orders.Less
  }

  lemma NotLowerPreorder()
    ensures TotalPreorder(NotLower)
  {
    Orders.IntsTotalOrder();
    forall x, y ensures NotLower(x, y) || NotLower(y, x) {
      assert Orders.CmpInts(SortKey(y), SortKey(x)) == Orders.CmpInts(SortKey(x), SortKey(y)).Flip();
    }
    forall x, y, z | NotLower(x, y) && NotLower(y, z) ensures NotLower(x, z) {
      var a: seq<int>, b: seq<int>, c: seq<int> := SortKey(x), SortKey(y), SortKey(z);
      assert Orders.CmpInts(b, a) == Orders.CmpInts(a, b).Flip();
      assert Orders.CmpInts(c, b) == Orders.CmpInts(b, c).Flip();
      assert Orders.CmpInts(c, a) == Orders.CmpInts(a, c).Flip();
    }
  }

  type House = map<string, seq<Wheel>>

  function NamedIn(wheels: seq<Wheel>, name: string): seq<Wheel> {
    if wheels == [] then []
    else
      NamedIn(wheels[..|wheels| - 1], name)
      + (if CanonicalName(wheels[|wheels| - 1]) == name then [wheels[|wheels| - 1]] else [])
  }

  predicate HasName(wheels: seq<Wheel>, name: string) {
    exists i :: 0 <= i < |wheels| && CanonicalName(wheels[i]) == name
  }

  ghost predicate IsGrouping(house: House, wheels: seq<Wheel>) {
    && (forall name :: name in house <==> HasName(wheels, name))
    && (forall name :: name in house ==> house[name] == NamedIn(wheels, name))
  }

  /** The candidate lists by name, highest version first, files of one version in file order. */
  ghost predicate IsHouse(house: House, wheels: seq<Wheel>) {
    && (forall name :: name in house <==> HasName(wheels, name))
    && (forall name :: name in house ==> house[name] == Sort(NotLower, NamedIn(wheels, name)))
  }

  predicate Readable(file: Option<Wheel>) {
    file.Some? && VersionKey(file.value.version).Some?
  }

  function Wheels(files: seq<Option<Wheel>>): seq<Wheel>
    requires forall i :: 0 <= i < |files| ==> Readable(files[i])
  {
    seq(|files|, i requires 0 <= i < |files| && Readable(files[i]) => files[i].value)
  }

  lemma GroupOne(house: House, wheels: seq<Wheel>, w: Wheel)
    requires IsGrouping(house, wheels)
    ensures var name := CanonicalName(w);
      IsGrouping(house[name := (if name in house then house[name] else []) + [w]], wheels + [w])
  {
    hide NormalizeName;
    var name, more := CanonicalName(w), wheels + [w];
    assert more[..|wheels|] == wheels;
    if name !in house { NamedInNone(wheels, name); }
    forall other ensures HasName(more, other) <==> HasName(wheels, other) || other == name {
      if HasName(wheels, other) {
        var i :| 0 <= i < |wheels| && CanonicalName(wheels[i]) == other;
        assert more[i] == wheels[i];
      }
      assert more[|wheels|] == w;
    }
  }

  /** The files of the wheelhouse by name; any file the fast path cannot read makes it decline. */
  method Stock(files: seq<Option<Wheel>>) returns (house: Option<House>)
    ensures house.Some? <==> forall i :: 0 <= i < |files| ==> Readable(files[i])
    ensures house.Some? ==> IsHouse(house.value, Wheels(files))
  {
    hide CanonicalName, VersionKey, NotLower, IsGrouping;
    var buckets: House := map[];
    ghost var wheels: seq<Wheel> := [];
    EmptyGrouping();
    for i := 0 to |files|
      invariant forall k :: 0 <= k < i ==> Readable(files[k])
      invariant wheels == Wheels(files[..i])
      invariant IsGrouping(buckets, wheels)
    {
      if files[i].None? || VersionKey(files[i].value.version).None? {
        return None;
      }
      var w := files[i].value;
      var name := CanonicalName(w);
      GroupOne(buckets, wheels, w);
      buckets := buckets[name := (if name in buckets then buckets[name] else []) + [w]];
      wheels := wheels + [w];
    }
    assert files[..|files|] == files;
    var sorted := SortBuckets(buckets, wheels);
    return Some(sorted);
  }

  lemma EmptyGrouping()
    ensures IsGrouping(map[], [])
  {
  }

  method SortBuckets(buckets: House, ghost wheels: seq<Wheel>) returns (sorted: House)
    requires IsGrouping(buckets, wheels)
    ensures IsHouse(sorted, wheels)
  {
    sorted := map[];
    var names := buckets.Keys;
    while names != {}
      invariant names <= buckets.Keys
      invariant sorted.Keys == buckets.Keys - names
      invariant forall name :: name in sorted ==> sorted[name] == Sort(NotLower, NamedIn(wheels, name))
    {
      var name :| name in names;
      sorted := sorted[name := Sort(NotLower, buckets[name])];
      names := names - {name};
    }
  }

  lemma {:induction false} NamedInNone(wheels: seq<Wheel>, name: string)
    requires !HasName(wheels, name)
    ensures NamedIn(wheels, name) == []
  {
    if wheels != [] {
      var front := wheels[..|wheels| - 1];
      forall i | 0 <= i < |front| ensures CanonicalName(front[i]) != name {
        assert front[i] == wheels[i];
      }
      NamedInNone(front, name);
    }
  }

  function FirstSatisfying(r: Requirement, wheels: seq<Wheel>): Option<Wheel> {
    if wheels == [] then None
    else if Satisfied(r, wheels[0]) then Some(wheels[0])
    else FirstSatisfying(r, wheels[1..])
  }

  /** In a sorted list the first wheel that satisfies a requirement is a highest one that does. */
  lemma {:induction false} FirstIsHighest(r: Requirement, wheels: seq<Wheel>)
    requires Sorted(NotLower, wheels)
    ensures FirstSatisfying(r, wheels).None? ==> forall w :: w in wheels ==> !Satisfied(r, w)
    ensures FirstSatisfying(r, wheels).Some? ==>
      var best := FirstSatisfying(r, wheels).value;
      && best in wheels && Satisfied(r, best)
      && forall w :: w in wheels && Satisfied(r, w) ==> NotLower(best, w)
  {
    if wheels != [] {
      FirstIsHighest(r, wheels[1..]);
      assert wheels == [wheels[0]] + wheels[1..];
      forall w | w in wheels ensures w == wheels[0] || w in wheels[1..] { }
      NotLowerPreorder();
    }
  }

  // ---------- The recursion ----------

  /**
    `order` and `chosen` are the insertion-ordered table `resolved`. `reason` is a history
    variable: the requirement text that first reached each chosen name.
  */
  datatype State = State(order: seq<string>, chosen: map<string, Wheel>, visiting: set<string>, reason: map<string, string>)

  const INITIAL := State([], map[], {}, map[])

  /** `add_requirement`; `None` where it returns false. */
  function Add(house: House, raw: string, st: State): (result: Option<State>)
    ensures result.Some? ==> result.value.visiting == st.visiting
    decreases |house.Keys - st.visiting|, 0
  {
    match ParseRequirement(raw)
    case None => None
    case Some(r) =>
      if r.name in st.chosen then
        if Satisfied(r, st.chosen[r.name]) then Some(st) else None
      else if r.name in st.visiting then Some(st)
      else if r.name !in house then None
      else
        match FirstSatisfying(r, house[r.name])
        case None => None
        case Some(w) =>
          if w.metadata.None? || !w.metadata.value.pure then None
          else
            Visit(house, r.name, st);
            match AddAll(house, w.metadata.value.dependencies, st.(visiting := st.visiting + {r.name}))
            case None => None
            case Some(after) => Some(Close(after, r.name, w, raw))
  }

  function Close(st: State, name: string, w: Wheel, raw: string): State {
    State(st.order + [name], st.chosen[name := w], st.visiting - {name}, st.reason[name := raw])
  }

  /** The loop over dependencies, and the loop over the requested roots. */
  function AddAll(house: House, raws: seq<string>, st: State): (result: Option<State>)
    ensures result.Some? ==> result.value.visiting == st.visiting
    decreases |house.Keys - st.visiting|, |raws|
  {
    if raws == [] then Some(st)
    else
      match Add(house, raws[0], st)
      case None => None
      case Some(next) => AddAll(house, raws[1..], next)
  }

  lemma Visit(house: House, name: string, st: State)
    requires name in house && name !in st.visiting
    ensures |house.Keys - (st.visiting + {name})| < |house.Keys - st.visiting|
  {
    assert house.Keys - st.visiting == (house.Keys - (st.visiting + {name})) + {name};
  }

  /** `resolve_simple_wheelhouse` after the candidate lists are built. */
  function Resolve(house: House, roots: seq<string>): Option<State> {
    AddAll(house, roots, INITIAL)
  }
}
