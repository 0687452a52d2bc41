/**
  Expansion of dependency groups (PEP 735, "Dependency Group Include").

  The program runs a stack machine (`Step`, `Run`, `ResolveGroup`). `Expand` is the recursive reading
  of the same rules, and `Flatten` the reference meaning: the left-to-right concatenation, with no
  stack and no cycle check at all. The machine is shown to compute `Expand` on every table, including
  its errors and its divergence, and to succeed exactly when `Flatten` is defined, which is when no
  cycle and no invalid group can be reached.
*/
module DependencyGroups {
  import opened Wrappers
  import Names

  datatype Item = Requirement(text: string) | Include(name: string) | InvalidInclude | InvalidItem

  datatype Group = Items(items: seq<Item>) | NotAList

  /** The table in file order. */
  datatype Table = Table(names: seq<string>, groups: map<string, Group>)

  predicate ValidTable(t: Table) {
    && (forall i :: 0 <= i < |t.names| ==> t.names[i] in t.groups)
    && (forall k :: k in t.groups ==> k in t.names)
  }

  datatype Error =
    | Cycle(stack: seq<string>, name: string)
    | NotDefinedAsList(name: string)
    | HasInvalidInclude(name: string)
    | HasInvalidItem(name: string)

  datatype Outcome = Done(requirements: seq<string>) | Raised(error: Error)

  // ---------- Shared rules ----------

  /** The canonical-name index: a later name replaces an earlier one. */
  function LastCanonical(names: seq<string>, canonical: string): Option<string> {
    if names == [] then None
    else if Names.Canonicalize(names[|names| - 1]) == canonical then Some(names[|names| - 1])
    else LastCanonical(names[..|names| - 1], canonical)
  }

  /** The table key a written name stands for. */
  function Actual(t: Table, name: string): Option<string> {
    if name in t.groups then Some(name) else LastCanonical(t.names, Names.Canonicalize(name))
  }

  function Lookup(t: Table, name: string): Group {
    match Actual(t, name)
    case Some(key) => if key in t.groups then t.groups[key] else NotAList
    case None => NotAList
  }

  predicate Invalid(item: Item) {
    item.InvalidInclude? || item.InvalidItem?
  }

  /** The scan for invalid items runs from the end of the list. */
  function LastInvalid(items: seq<Item>): Option<Item> {
    if items == [] then None
    else if LastInvalid(items[1..]).Some? then LastInvalid(items[1..])
    else if Invalid(items[0]) then Some(items[0])
    else None
  }

  function InvalidError(item: Item, name: string): Error {
    if item.InvalidInclude? then HasInvalidInclude(name) else HasInvalidItem(name)
  }

  /** What entering a group yields: its items, or an error. */
  datatype Entry = Enter(key: string, items: seq<Item>) | Refuse(error: Error)

  function EnterGroup(t: Table, name: string, stack: seq<string>): Entry {
    if name in stack then Refuse(Cycle(stack, name))
    else if Lookup(t, name).NotAList? then Refuse(NotDefinedAsList(name))
    else
      var items := Lookup(t, name).items;
      match LastInvalid(items)
      case Some(item) => Refuse(InvalidError(item, name))
      case None => Enter(Actual(t, name).value, items)
  }

  lemma {:induction false} NoneInvalid(items: seq<Item>)
    ensures LastInvalid(items).None? <==> forall i :: 0 <= i < |items| ==> !Invalid(items[i])
  {
    if items != [] {
      NoneInvalid(items[1..]);
      assert items == [items[0]] + items[1..];
    }
  }

  lemma {:induction false} CanonicalIsName(names: seq<string>, canonical: string)
    ensures LastCanonical(names, canonical).Some? ==> LastCanonical(names, canonical).value in names
  {
    if names != [] { CanonicalIsName(names[..|names| - 1], canonical); }
  }

  lemma ActualIsKey(t: Table, name: string)
    requires ValidTable(t) && Actual(t, name).Some?
    ensures Actual(t, name).value in t.groups
    ensures Actual(t, Actual(t, name).value) == Actual(t, name)
    ensures Lookup(t, Actual(t, name).value) == Lookup(t, name)
  {
    CanonicalIsName(t.names, Names.Canonicalize(name));
  }

  /** The table's own key if there is one, else the last name of the table with the same canonical form. */
  lemma {:induction false} ActualMeans(t: Table, name: string, key: string)
    ensures Actual(t, name) == Some(key) <==>
      if name in t.groups then key == name
      else exists i :: 0 <= i < |t.names| && t.names[i] == key && IsLastAlias(t.names, name, i)
  {
    hide Names.Canonicalize;
    if name !in t.groups { LastCanonicalMeans(t.names, name, key); }
  }

  predicate IsLastAlias(names: seq<string>, name: string, i: nat)
    requires i < |names|
  {
    && Names.Canonicalize(names[i]) == Names.Canonicalize(name)
    && forall j :: i < j < |names| ==> Names.Canonicalize(names[j]) != Names.Canonicalize(name)
  }

  lemma {:induction false} LastCanonicalMeans(names: seq<string>, name: string, key: string)
    ensures LastCanonical(names, Names.Canonicalize(name)) == Some(key) <==>
      exists i :: 0 <= i < |names| && names[i] == key && IsLastAlias(names, name, i)
  {
    hide Names.Canonicalize;
    if names != [] {
      var front, last := names[..|names| - 1], |names| - 1;
      LastCanonicalMeans(front, name, key);
      if Names.Canonicalize(names[last]) == Names.Canonicalize(name) {
        assert IsLastAlias(names, name, last);
      } else {
        forall i | 0 <= i < |front| ensures IsLastAlias(front, name, i) <==> IsLastAlias(names, name, i) {
          assert forall j :: i < j < |front| ==> front[j] == names[j];
        }
      }
    }
  }

  /** Which error entering a group raises, checked in this order; otherwise its items are expanded. */
  lemma EntryMeans(t: Table, name: string, stack: seq<string>)
    ensures var e, group := EnterGroup(t, name, stack), Lookup(t, name);
      if name in stack then e == Refuse(Cycle(stack, name))
      else if group.NotAList? then e == Refuse(NotDefinedAsList(name))
      else if forall i :: 0 <= i < |group.items| ==> group.items[i].Requirement? || group.items[i].Include? then
        Actual(t, name).Some? && e == Enter(Actual(t, name).value, group.items)
      else exists i ::
        && 0 <= i < |group.items| && IsLastWrong(group.items, i)
        && e == Refuse(if group.items[i].InvalidInclude? then HasInvalidInclude(name) else HasInvalidItem(name))
  {
    hide Names.Canonicalize, Actual;
    if name !in stack && Lookup(t, name).Items? { LastInvalidMeans(Lookup(t, name).items); }
  }

  /** The loop looks at the items from the last to the first. */
  predicate IsLastWrong(items: seq<Item>, i: nat)
    requires i < |items|
  {
    && (items[i].InvalidInclude? || items[i].InvalidItem?)
    && forall j :: i < j < |items| ==> items[j].Requirement? || items[j].Include?
  }

  lemma {:induction false} LastInvalidMeans(items: seq<Item>)
    ensures LastInvalid(items).None? <==> forall i :: 0 <= i < |items| ==> items[i].Requirement? || items[i].Include?
    ensures LastInvalid(items).Some? ==>
      exists i :: 0 <= i < |items| && items[i] == LastInvalid(items).value && IsLastWrong(items, i)
  {
    if items != [] {
      var rest := items[1..];
      LastInvalidMeans(rest);
      if LastInvalid(rest).Some? {
        var i :| 0 <= i < |rest| && rest[i] == LastInvalid(rest).value && IsLastWrong(rest, i);
        assert forall j :: i + 1 < j < |items| ==> items[j] == rest[j - 1];
        assert IsLastWrong(items, i + 1);
      } else {
        assert forall j :: 0 < j < |items| ==> items[j] == rest[j - 1];
        if Invalid(items[0]) { assert IsLastWrong(items, 0); }
      }
    }
  }

  // ---------- The stack machine ----------

  datatype Frame = Value(text: string) | Visit(name: string, stack: seq<string>)

  function FrameOf(item: Item, stack: seq<string>): Frame {
    match item
    case Requirement(text) => Value(text)
    case Include(name) => Visit(name, stack)
    case _ => Value("")
  }

  /** The frames of a list; its first item ends up on top, which is the end of the sequence. */
  function Frames(items: seq<Item>, stack: seq<string>): seq<Frame> {
    if items == [] then [] else Frames(items[1..], stack) + [FrameOf(items[0], stack)]
  }

  /** At most `n` turns of the loop; `None` while it is still running. */
  function Run(t: Table, n: nat, pending: seq<Frame>, resolved: seq<string>): Option<Outcome> {
    if pending == [] then Some(Done(resolved))
    else if n == 0 then None
    else
      var rest, top := pending[..|pending| - 1], pending[|pending| - 1];
      match top
      case Value(text) => Run(t, n - 1, rest, resolved + [text])
      case Visit(name, stack) =>
        match EnterGroup(t, name, stack)
        case Refuse(error) => Some(Raised(error))
        case Enter(key, items) => Run(t, n - 1, rest + Frames(items, stack + [key]), resolved)
  }

  /** The loop ends on this input. */
  ghost predicate Halts(t: Table, name: string, stack: seq<string>) {
    exists n: nat :: Run(t, n, [Visit(name, stack)], []).Some?
  }

  ghost predicate Resolves(t: Table, name: string, stack: seq<string>, outcome: Outcome) {
    exists n: nat :: Run(t, n, [Visit(name, stack)], []) == Some(outcome)
  }

  /** `resolve_group`, watched for `turns` turns of its loop; `None` while it is still running. */
  method ResolveGroup(t: Table, groupName: string, stack: seq<string>, turns: nat) returns (outcome: Option<Outcome>)
    ensures outcome == Run(t, turns, [Visit(groupName, stack)], [])
  {
    hide LastInvalid, Frames, Run, LastCanonical, Names.Canonicalize, InvalidError;
    var resolved: seq<string> := [];
    var pending := [Visit(groupName, stack)];
    var n := turns;
    while pending != []
      invariant Run(t, n, pending, resolved) == Run(t, turns, [Visit(groupName, stack)], [])
      decreases n
    {
      RunEnds(t, n, pending, resolved);
      if n == 0 {
        return None;
      }
      var top := pending[|pending| - 1];
      RunTop(t, n, pending[..|pending| - 1], top, resolved);
      assert pending == pending[..|pending| - 1] + [top];
      pending := pending[..|pending| - 1];
      n := n - 1;
      match top {
        case Value(text) =>
          resolved := resolved + [text];
        case Visit(name, currentStack) =>
          if name in currentStack {
            return Some(Raised(Cycle(currentStack, name)));
          }
          var actual := Actual(t, name);
          if actual.None? || actual.value !in t.groups || t.groups[actual.value].NotAList? {
            return Some(Raised(NotDefinedAsList(name)));
          }
          var items := t.groups[actual.value].items;
          var nextStack := currentStack + [actual.value];
          var i := |items|;
          ghost var base := pending;
          assert items[|items|..] == [];
          NoItems(nextStack);
          while i > 0
            invariant 0 <= i <= |items|
            invariant LastInvalid(items[i..]).None?
            invariant pending == base + Frames(items[i..], nextStack)
          {
            i := i - 1;
            Pushed(items, i, nextStack);
            if Invalid(items[i]) {
              InvalidStays(items, i);
              return Some(Raised(InvalidError(items[i], name)));
            }
            pending := pending + [FrameOf(items[i], nextStack)];
          }
          assert items[0..] == items;
      }
    }
    RunEnds(t, n, pending, resolved);
    outcome := Some(Done(resolved));
  }

  lemma {:induction false} RunEnds(t: Table, n: nat, pending: seq<Frame>, resolved: seq<string>)
    ensures pending == [] ==> Run(t, n, pending, resolved) == Some(Done(resolved))
    ensures pending != [] && n == 0 ==> Run(t, n, pending, resolved) == None
  {
  }

  lemma {:induction false} RunTop(t: Table, n: nat, rest: seq<Frame>, top: Frame, resolved: seq<string>)
    requires n > 0
    ensures Run(t, n, rest + [top], resolved) ==
      match top
      case Value(text) => Run(t, n - 1, rest, resolved + [text])
      case Visit(name, stack) =>
        match EnterGroup(t, name, stack)
        case Refuse(error) => Some(Raised(error))
        case Enter(key, items) => Run(t, n - 1, rest + Frames(items, stack + [key]), resolved)
  {
    hide EnterGroup, Frames;
    assert (rest + [top])[..|rest|] == rest;
  }

  lemma {:induction false} NoItems(stack: seq<string>)
    ensures Frames([], stack) == [] && LastInvalid([]).None?
  {
  }

  /** The frame of an item goes on top of those of the items after it. */
  lemma {:induction false} Pushed(items: seq<Item>, i: nat, stack: seq<string>)
    requires i < |items| && LastInvalid(items[i + 1..]).None?
    ensures Frames(items[i..], stack) == Frames(items[i + 1..], stack) + [FrameOf(items[i], stack)]
    ensures LastInvalid(items[i..]) == if Invalid(items[i]) then Some(items[i]) else None
  {
    assert items[i..][0] == items[i] && items[i..][1..] == items[i + 1..];
  }

  lemma {:induction false} InvalidStays(items: seq<Item>, i: nat)
    requires i < |items| && LastInvalid(items[i..]).Some?
    ensures LastInvalid(items) == LastInvalid(items[i..])
  {
    if i == 0 {
      assert items[0..] == items;
    } else {
      assert items[1..][i - 1..] == items[i..];
      InvalidStays(items[1..], i - 1);
    }
  }

  // ---------- The recursive reading ----------

  /** Nesting at most `fuel` deep; `None` when that is not enough. */
  function Expand(t: Table, fuel: nat, name: string, stack: seq<string>): Option<Outcome>
    decreases fuel, 0
  {
    if fuel == 0 then None
    else
      match EnterGroup(t, name, stack)
      case Refuse(error) => Some(Raised(error))
      case Enter(key, items) => ExpandItems(t, fuel - 1, items, stack + [key])
  }

  function ExpandItems(t: Table, fuel: nat, items: seq<Item>, stack: seq<string>): Option<Outcome>
    decreases fuel, |items| + 1
  {
    if items == [] then Some(Done([]))
    else
      match FrameOf(items[0], stack)
      case Value(text) => Prepend([text], ExpandItems(t, fuel, items[1..], stack))
      case Visit(name, _) =>
        match Expand(t, fuel, name, stack)
        case None => None
        case Some(Raised(error)) => Some(Raised(error))
        case Some(Done(r)) => Prepend(r, ExpandItems(t, fuel, items[1..], stack))
  }

  function Prepend(r: seq<string>, rest: Option<Outcome>): Option<Outcome> {
    if rest.Some? && rest.value.Done? then Some(Done(r + rest.value.requirements)) else rest
  }

  // ---------- Machine and recursion agree ----------

  /** What the machine still has to do once the frames above `below` have had this outcome. */
  function After(t: Table, m: nat, below: seq<Frame>, resolved: seq<string>, outcome: Outcome): Option<Outcome> {
    match outcome
    case Done(r) => Run(t, m, below, resolved + r)
    case Raised(error) => Some(Raised(error))
  }

  predicate PerformsOn(t: Table, k: nat, frames: seq<Frame>, outcome: Outcome, m: nat, below: seq<Frame>, resolved: seq<string>) {
    Run(t, k + m, below + frames, resolved) == After(t, m, below, resolved, outcome)
  }

  /** `k` turns work off the frames with this outcome, whatever lies below them. */
  ghost predicate Performs(t: Table, k: nat, frames: seq<Frame>, outcome: Outcome) {
    forall m: nat, below: seq<Frame>, resolved: seq<string> :: PerformsOn(t, k, frames, outcome, m, below, resolved)
  }

  lemma {:induction false} ExpandRuns(t: Table, fuel: nat, name: string, stack: seq<string>) returns (k: nat)
    requires Expand(t, fuel, name, stack).Some?
    ensures Performs(t, k, [Visit(name, stack)], Expand(t, fuel, name, stack).value)
    decreases fuel, 0
  {
    var outcome := Expand(t, fuel, name, stack).value;
    var e := EnterGroup(t, name, stack);
    var j := 0;
    if e.Enter? {
      j := ItemsRun(t, fuel - 1, e.items, stack + [e.key]);
    }
    k := j + 1;
    forall m: nat, below: seq<Frame>, resolved: seq<string>
      ensures PerformsOn(t, k, [Visit(name, stack)], outcome, m, below, resolved)
    {
      assert (below + [Visit(name, stack)])[..|below|] == below;
      assert e.Enter? ==> PerformsOn(t, j, Frames(e.items, stack + [e.key]), outcome, m, below, resolved);
    }
  }

  lemma {:induction false} ItemsRun(t: Table, fuel: nat, items: seq<Item>, stack: seq<string>) returns (k: nat)
    requires ExpandItems(t, fuel, items, stack).Some?
    ensures Performs(t, k, Frames(items, stack), ExpandItems(t, fuel, items, stack).value)
    decreases fuel, |items| + 1
  {
    if items == [] {
      k := 0;
      forall m: nat, below: seq<Frame>, resolved: seq<string> ensures PerformsOn(t, 0, [], Done([]), m, below, resolved) {
        assert below + [] == below && resolved + [] == resolved;
      }
    } else {
      var first, rest := FrameOf(items[0], stack), items[1..];
      var k1: nat;
      var outcome1: Outcome;
      if first.Value? {
        k1, outcome1 := 1, Done([first.text]);
        ValueRuns(t, first.text);
      } else {
        k1 := ExpandRuns(t, fuel, first.name, stack);
        outcome1 := Expand(t, fuel, first.name, stack).value;
      }
      if outcome1.Raised? {
        k := k1;
        RaisedRuns(t, k1, Frames(rest, stack), first, outcome1);
      } else {
        var k2 := ItemsRun(t, fuel, rest, stack);
        k := k1 + k2;
        SequenceRuns(t, k1, k2, Frames(rest, stack), first, outcome1.requirements, ExpandItems(t, fuel, rest, stack).value);
      }
    }
  }

  lemma ValueRuns(t: Table, text: string)
    ensures Performs(t, 1, [Value(text)], Done([text]))
  {
    forall m: nat, below: seq<Frame>, resolved: seq<string>
      ensures PerformsOn(t, 1, [Value(text)], Done([text]), m, below, resolved)
    {
      assert (below + [Value(text)])[..|below|] == below;
    }
  }

  lemma RaisedRuns(t: Table, k: nat, under: seq<Frame>, first: Frame, outcome: Outcome)
    requires Performs(t, k, [first], outcome) && outcome.Raised?
    ensures Performs(t, k, under + [first], outcome)
  {
    forall m: nat, below: seq<Frame>, resolved: seq<string>
      ensures PerformsOn(t, k, under + [first], outcome, m, below, resolved)
    {
      assert below + (under + [first]) == (below + under) + [first];
      assert PerformsOn(t, k, [first], outcome, m, below + under, resolved);
    }
  }

  lemma SequenceRuns(t: Table, k1: nat, k2: nat, under: seq<Frame>, first: Frame, r: seq<string>, rest: Outcome)
    requires Performs(t, k1, [first], Done(r)) && Performs(t, k2, under, rest)
    ensures Performs(t, k1 + k2, under + [first], Prepend(r, Some(rest)).value)
  {
    hide Run, PerformsOn;
    var k, frames, total := k1 + k2, under + [first], Prepend(r, Some(rest)).value;
    forall m: nat, below: seq<Frame>, resolved: seq<string>
      ensures PerformsOn(t, k, frames, total, m, below, resolved)
    {
      assert PerformsOn(t, k1, [first], Done(r), k2 + m, below + under, resolved);
      assert PerformsOn(t, k2, under, rest, m, below, resolved + r);
      SequenceOn(t, k1, k2, under, first, r, rest, m, below, resolved);
    }
  }

  lemma SequenceOn(
      t: Table, k1: nat, k2: nat, under: seq<Frame>, first: Frame, r: seq<string>, rest: Outcome, m: nat,
      below: seq<Frame>, resolved: seq<string>)
    requires PerformsOn(t, k1, [first], Done(r), k2 + m, below + under, resolved)
    requires PerformsOn(t, k2, under, rest, m, below, resolved + r)
    ensures PerformsOn(t, k1 + k2, under + [first], Prepend(r, Some(rest)).value, m, below, resolved)
  {
    hide Run;
    assert below + (under + [first]) == (below + under) + [first];
    if rest.Done? { assert (resolved + r) + rest.requirements == resolved + (r + rest.requirements); }
  }

  lemma {:induction false} RunMonotone(t: Table, n: nat, j: nat, pending: seq<Frame>, resolved: seq<string>)
    requires Run(t, n, pending, resolved).Some?
    ensures Run(t, n + j, pending, resolved) == Run(t, n, pending, resolved)
    decreases n
  {
    hide Frames, EnterGroup;
    if pending != [] {
      var rest, top := pending[..|pending| - 1], pending[|pending| - 1];
      if top.Value? {
        RunMonotone(t, n - 1, j, rest, resolved + [top.text]);
      } else if EnterGroup(t, top.name, top.stack).Enter? {
        var e := EnterGroup(t, top.name, top.stack);
        RunMonotone(t, n - 1, j, rest + Frames(e.items, top.stack + [e.key]), resolved);
      }
    }
  }

  /** If the machine stops within `n` turns, nesting `n` deep suffices for the recursion. */
  lemma {:induction false} RunExpands(
      t: Table, n: nat, below: seq<Frame>, name: string, stack: seq<string>, resolved: seq<string>)
    requires Run(t, n, below + [Visit(name, stack)], resolved).Some?
    ensures Expand(t, n, name, stack).Some?
    decreases n, 0
  {
    hide EnterGroup, Frames, ExpandItems;
    var pending := below + [Visit(name, stack)];
    assert pending[..|pending| - 1] == below && pending[|pending| - 1] == Visit(name, stack);
    var e := EnterGroup(t, name, stack);
    if e.Enter? {
      RunExpandsItems(t, n - 1, below, e.items, stack + [e.key], resolved);
    }
  }

  lemma {:induction false} RunExpandsItems(
      t: Table, n: nat, below: seq<Frame>, items: seq<Item>, stack: seq<string>, resolved: seq<string>)
    requires Run(t, n, below + Frames(items, stack), resolved).Some?
    ensures ExpandItems(t, n, items, stack).Some?
    decreases n, |items| + 1
  {
    hide Run, Expand, Performs, EnterGroup;
    if items != [] {
      var first, rest := FrameOf(items[0], stack), items[1..];
      var under := below + Frames(rest, stack);
      assert below + Frames(items, stack) == under + [first];
      var k: nat, outcome: Outcome;
      if first.Value? {
        ValueRuns(t, first.text);
        k, outcome := 1, Done([first.text]);
      } else {
        RunExpands(t, n, under, first.name, stack, resolved);
        k := ExpandRuns(t, n, first.name, stack);
        outcome := Expand(t, n, first.name, stack).value;
      }
      if outcome.Done? {
        RunGoesOn(t, n, k, under, first, outcome, resolved);
        RunExpandsItems(t, n, below, rest, stack, resolved + outcome.requirements);
      }
    }
  }

  lemma {:induction false} RunGoesOn(
      t: Table, n: nat, k: nat, under: seq<Frame>, first: Frame, outcome: Outcome, resolved: seq<string>)
    requires Run(t, n, under + [first], resolved).Some? && Performs(t, k, [first], outcome) && outcome.Done?
    ensures Run(t, n, under, resolved + outcome.requirements).Some?
  {
    hide Run;
    RunMonotone(t, n, k, under + [first], resolved);
    assert PerformsOn(t, k, [first], outcome, n, under, resolved);
  }

  lemma {:induction false} ExpandMonotone(t: Table, fuel: nat, j: nat, name: string, stack: seq<string>)
    requires Expand(t, fuel, name, stack).Some?
    ensures Expand(t, fuel + j, name, stack) == Expand(t, fuel, name, stack)
    decreases fuel, 0
  {
    hide ExpandItems, EnterGroup;
    var e := EnterGroup(t, name, stack);
    if e.Enter? { ItemsMonotone(t, fuel - 1, j, e.items, stack + [e.key]); }
  }

  lemma {:induction false} ItemsMonotone(t: Table, fuel: nat, j: nat, items: seq<Item>, stack: seq<string>)
    requires ExpandItems(t, fuel, items, stack).Some?
    ensures ExpandItems(t, fuel + j, items, stack) == ExpandItems(t, fuel, items, stack)
    decreases fuel, |items| + 1
  {
    hide Expand, EnterGroup;
    if items != [] {
      var first := FrameOf(items[0], stack);
      if first.Visit? { ExpandMonotone(t, fuel, j, first.name, stack); }
      if ExpandItems(t, fuel, items[1..], stack).Some? { ItemsMonotone(t, fuel, j, items[1..], stack); }
    }
  }

  /** On every table and start, the loop ends with an outcome exactly when the recursion returns it. */
  lemma {:induction false} MachineIsRecursion(t: Table, name: string, stack: seq<string>, outcome: Outcome)
    ensures Resolves(t, name, stack, outcome) <==> exists fuel: nat :: Expand(t, fuel, name, stack) == Some(outcome)
  {
    var start := [Visit(name, stack)];
    assert [] + start == start;
    assert outcome.Done? ==> [] + outcome.requirements == outcome.requirements;
    if Resolves(t, name, stack, outcome) {
      var n: nat :| Run(t, n, start, []) == Some(outcome);
      RunExpands(t, n, [], name, stack, []);
      var k := ExpandRuns(t, n, name, stack);
      RunMonotone(t, n, k, start, []);
      var other := Expand(t, n, name, stack).value;
      assert PerformsOn(t, k, start, other, n, [], []);
      assert other.Done? ==> [] + other.requirements == other.requirements;
    }
    if fuel: nat :| Expand(t, fuel, name, stack) == Some(outcome) {
      var k := ExpandRuns(t, fuel, name, stack);
      assert PerformsOn(t, k, start, outcome, 0, [], []);
      assert Run(t, k, start, []) == Some(outcome);
    }
  }

  // ---------- The reference meaning ----------

  /** The left-to-right concatenation; undefined on invalid groups and on nesting deeper than `fuel`. */
  function Flatten(t: Table, fuel: nat, name: string): Option<seq<string>>
    decreases fuel, 0
  {
    if fuel == 0 || Lookup(t, name).NotAList? || LastInvalid(Lookup(t, name).items).Some? then None
    else FlattenItems(t, fuel - 1, Lookup(t, name).items)
  }

  function FlattenItems(t: Table, fuel: nat, items: seq<Item>): Option<seq<string>>
    decreases fuel, |items| + 1
  {
    if items == [] then Some([])
    else
      var head := match items[0]
        case Requirement(text) => Some([text])
        case Include(name) => Flatten(t, fuel, name)
        case _ => None;
      var tail := FlattenItems(t, fuel, items[1..]);
      if head.None? || tail.None? then None else Some(head.value + tail.value)
  }

  ghost predicate HasFlatten(t: Table, name: string, r: seq<string>) {
    exists fuel: nat :: Flatten(t, fuel, name) == Some(r)
  }

  lemma {:induction false} ExpandFlattens(t: Table, fuel: nat, name: string, stack: seq<string>)
    requires Expand(t, fuel, name, stack).Some? && Expand(t, fuel, name, stack).value.Done?
    ensures Flatten(t, fuel, name) == Some(Expand(t, fuel, name, stack).value.requirements)
    decreases fuel, 0
  {
    hide ExpandItems, FlattenItems, LastInvalid, Actual;
    var e := EnterGroup(t, name, stack);
    ExpandItemsFlatten(t, fuel - 1, e.items, stack + [e.key]);
  }

  lemma {:induction false} ExpandItemsFlatten(t: Table, fuel: nat, items: seq<Item>, stack: seq<string>)
    requires LastInvalid(items).None?
    requires ExpandItems(t, fuel, items, stack).Some? && ExpandItems(t, fuel, items, stack).value.Done?
    ensures FlattenItems(t, fuel, items) == Some(ExpandItems(t, fuel, items, stack).value.requirements)
    decreases fuel, |items| + 1
  {
    hide Expand, Flatten;
    if items != [] {
      NoneInvalid(items);
      if items[0].Include? { ExpandFlattens(t, fuel, items[0].name, stack); }
      ExpandItemsFlatten(t, fuel, items[1..], stack);
    }
  }

  lemma {:induction false} FlattenInclude(t: Table, fuel: nat, items: seq<Item>, i: nat)
    requires FlattenItems(t, fuel, items).Some? && i < |items| && items[i].Include?
    ensures Flatten(t, fuel, items[i].name).Some?
  {
    if i > 0 {
      assert items[1..][i - 1] == items[i];
      FlattenInclude(t, fuel, items[1..], i - 1);
    }
  }

  lemma {:induction false} FlattenOfKey(t: Table, fuel: nat, name: string)
    requires ValidTable(t) && Flatten(t, fuel, name).Some?
    ensures Actual(t, name).Some? && Flatten(t, fuel, Actual(t, name).value) == Flatten(t, fuel, name)
  {
    ActualIsKey(t, name);
  }

  // ---------- Heights: the least nesting at which a group flattens ----------

  ghost predicate Flattens(t: Table, name: string) {
    exists fuel: nat :: Flatten(t, fuel, name).Some?
  }

  ghost predicate IsHeight(t: Table, name: string, h: nat) {
    Flatten(t, h, name).Some? && forall f: nat :: f < h ==> Flatten(t, f, name).None?
  }

  ghost function Height(t: Table, name: string): (h: nat)
    requires Flattens(t, name)
    ensures IsHeight(t, name, h)
  {
    var fuel: nat :| Flatten(t, fuel, name).Some?;
    HeightExists(t, name, fuel);
    var h: nat :| IsHeight(t, name, h);
    h
  }

  lemma {:induction false} HeightExists(t: Table, name: string, fuel: nat)
    requires Flatten(t, fuel, name).Some?
    ensures exists h: nat :: IsHeight(t, name, h)
  {
    if f: nat :| f < fuel && Flatten(t, f, name).Some? {
      HeightExists(t, name, f);
    } else {
      assert IsHeight(t, name, fuel);
    }
  }

  /** An included group is lower than the group that includes it. */
  lemma IncludeIsLower(t: Table, name: string, i: nat)
    requires ValidTable(t) && Flattens(t, name)
    requires Lookup(t, name).Items? && i < |Lookup(t, name).items| && Lookup(t, name).items[i].Include?
    ensures Flattens(t, Lookup(t, name).items[i].name)
    ensures Height(t, Lookup(t, name).items[i].name) < Height(t, name)
  {
    var h := Height(t, name);
    FlattenInclude(t, h - 1, Lookup(t, name).items, i);
  }

  lemma HeightOfKey(t: Table, name: string)
    requires ValidTable(t) && Flattens(t, name)
    ensures Actual(t, name).Some? && Flattens(t, Actual(t, name).value)
    ensures Height(t, Actual(t, name).value) == Height(t, name)
  {
    FlattenOfKey(t, Height(t, name), name);
    var key := Actual(t, name).value;
    ActualIsKey(t, name);
    assert forall f: nat :: Flatten(t, f, key) == Flatten(t, f, name);
  }

  // ---------- Success is flattening ----------

  /** The keys on the stack are those of groups still open: higher than what is entered next, or without a height. */
  ghost predicate Above(t: Table, stack: seq<string>, h: nat) {
    forall i :: 0 <= i < |stack| ==> stack[i] in t.groups && (Flattens(t, stack[i]) ==> Height(t, stack[i]) > h)
  }

  lemma {:induction false} FlattenExpands(t: Table, fuel: nat, name: string, stack: seq<string>)
    requires ValidTable(t) && Flatten(t, fuel, name).Some?
    requires Above(t, stack, Height(t, name))
    ensures Expand(t, fuel, name, stack) == Some(Done(Flatten(t, fuel, name).value))
    decreases fuel, 0
  {
    HeightOfKey(t, name);
    if name in stack {
      assert false;
    }
    var key := Actual(t, name).value;
    ActualIsKey(t, name);
    var items := Lookup(t, name).items;
    forall i | 0 <= i < |items| && items[i].Include?
      ensures Flattens(t, items[i].name) && Above(t, stack + [key], Height(t, items[i].name))
    {
      IncludeIsLower(t, name, i);
    }
    FlattenItemsExpand(t, fuel - 1, items, stack + [key]);
  }

  lemma {:induction false} FlattenItemsExpand(t: Table, fuel: nat, items: seq<Item>, stack: seq<string>)
    requires ValidTable(t) && FlattenItems(t, fuel, items).Some?
    requires forall i :: 0 <= i < |items| && items[i].Include? ==>
      Flattens(t, items[i].name) && Above(t, stack, Height(t, items[i].name))
    ensures ExpandItems(t, fuel, items, stack) == Some(Done(FlattenItems(t, fuel, items).value))
    decreases fuel, |items| + 1
  {
    if items != [] {
      if items[0].Include? { FlattenExpands(t, fuel, items[0].name, stack); }
      forall i | 0 <= i < |items[1..]| && items[1..][i].Include?
        ensures Flattens(t, items[1..][i].name) && Above(t, stack, Height(t, items[1..][i].name))
      {
        assert items[1..][i] == items[i + 1];
      }
      FlattenItemsExpand(t, fuel, items[1..], stack);
    }
  }

  /**
    Whatever the spelling of the includes, the program returns a list exactly when the reference
    meaning is defined, and then it is that list.
  */
  lemma SuccessIsFlatten(t: Table, name: string, r: seq<string>)
    requires ValidTable(t)
    ensures Resolves(t, name, [], Done(r)) <==> HasFlatten(t, name, r)
  {
    MachineIsRecursion(t, name, [], Done(r));
    if Resolves(t, name, [], Done(r)) {
      var fuel: nat :| Expand(t, fuel, name, []) == Some(Done(r));
      ExpandFlattens(t, fuel, name, []);
    }
    if HasFlatten(t, name, r) {
      var fuel: nat :| Flatten(t, fuel, name) == Some(r);
      FlattenExpands(t, fuel, name, []);
    }
  }

  // ---------- Success in terms of what can be reached ----------

  ghost predicate Includes(t: Table, name: string, included: string) {
    Lookup(t, name).Items? && Include(included) in Lookup(t, name).items
  }

  /** A chain of includes, as written. */
  ghost predicate IsPath(t: Table, path: seq<string>) {
    path != [] && forall i, j :: 0 <= i < j < |path| && j == i + 1 ==> Includes(t, path[i], path[j])
  }

  predicate WellFormed(t: Table, name: string) {
    Lookup(t, name).Items? && LastInvalid(Lookup(t, name).items).None?
  }

  /** Every group on the path is a list of valid items, and no group occurs twice. */
  ghost predicate CleanPath(t: Table, path: seq<string>) {
    && (forall i :: 0 <= i < |path| ==> WellFormed(t, path[i]))
    && (forall i, j :: 0 <= i < j < |path| ==> Actual(t, path[i]) != Actual(t, path[j]))
  }

  ghost predicate CleanFrom(t: Table, name: string) {
    forall path | IsPath(t, path) && path[0] == name :: CleanPath(t, path)
  }

  lemma {:induction false} PathDescends(t: Table, path: seq<string>, i: nat, j: nat)
    requires ValidTable(t) && IsPath(t, path) && Flattens(t, path[0]) && i <= j < |path|
    ensures Flattens(t, path[i]) && Flattens(t, path[j])
    ensures i < j ==> Height(t, path[j]) < Height(t, path[i])
    decreases j
  {
    hide Flattens, Height, Includes, ValidTable;
    if j > 0 {
      PathDescends(t, path, if i < j then i else j - 1, j - 1);
      assert Includes(t, path[j - 1], path[j]);
      IncludedIsLower(t, path[j - 1], path[j]);
    }
  }

  lemma IncludedIsLower(t: Table, name: string, included: string)
    requires ValidTable(t) && Flattens(t, name) && Includes(t, name, included)
    ensures Flattens(t, included) && Height(t, included) < Height(t, name)
  {
    hide Flattens, Height, Lookup;
    var k :| 0 <= k < |Lookup(t, name).items| && Lookup(t, name).items[k] == Include(included);
    IncludeIsLower(t, name, k);
  }

  lemma FlattenIsClean(t: Table, name: string, path: seq<string>)
    requires ValidTable(t) && Flattens(t, name) && IsPath(t, path) && path[0] == name
    ensures CleanPath(t, path)
  {
    forall i | 0 <= i < |path| ensures WellFormed(t, path[i]) {
      PathDescends(t, path, i, i);
    }
    forall i, j | 0 <= i < j < |path| ensures Actual(t, path[i]) != Actual(t, path[j]) {
      PathDescends(t, path, i, j);
      HeightOfKey(t, path[i]);
      HeightOfKey(t, path[j]);
    }
  }

  lemma CleanPathIsShort(t: Table, path: seq<string>)
    requires ValidTable(t) && CleanPath(t, path)
    ensures |path| <= |t.groups|
  {
    hide Lookup, Actual, LastInvalid;
    var keys := seq(|path|, i requires 0 <= i < |path| && Lookup(t, path[i]).Items? => KeyOf(t, path[i]));
    forall i, j | 0 <= i < j < |path| ensures keys[i] != keys[j] {
      assert Actual(t, path[i]) != Actual(t, path[j]);
    }
    DistinctFit(keys, t.groups.Keys);
  }

  function KeyOf(t: Table, name: string): (key: string)
    requires Lookup(t, name).Items?
    ensures Actual(t, name) == Some(key) && key in t.groups
  {
    Actual(t, name).value
  }

  /** More places than values: some value occurs twice. */
  lemma {:induction false} Pigeonhole(s: seq<string>, values: set<string>) returns (i: nat, j: nat)
    requires |s| > |values| && forall k :: 0 <= k < |s| ==> s[k] in values
    ensures i < j < |s| && s[i] == s[j]
  {
    var last := |s| - 1;
    if k :| 0 <= k < last && s[k] == s[last] {
      i, j := k, last;
    } else {
      assert |values - {s[last]}| == |values| - 1;
      i, j := Pigeonhole(s[..last], values - {s[last]});
    }
  }

  lemma DistinctFit(s: seq<string>, values: set<string>)
    requires forall k :: 0 <= k < |s| ==> s[k] in values
    requires forall i, j :: 0 <= i < j < |s| ==> s[i] != s[j]
    ensures |s| <= |values|
  {
    if |s| > |values| { var i, j := Pigeonhole(s, values); }
  }

  /** With only clean paths, nesting is bounded by the number of groups not yet on the path. */
  lemma {:induction false} CleanFlattens(t: Table, path: seq<string>)
    requires ValidTable(t) && IsPath(t, path) && CleanFrom(t, path[0])
    ensures |path| <= |t.groups| && Flatten(t, |t.groups| + 1 - |path|, path[|path| - 1]).Some?
    decreases |t.groups| - |path|
  {
    assert CleanPath(t, path);
    CleanPathIsShort(t, path);
    var name := path[|path| - 1];
    assert WellFormed(t, name);
    CleanItemsFlatten(t, path, Lookup(t, name).items);
  }

  lemma {:induction false} CleanItemsFlatten(t: Table, path: seq<string>, items: seq<Item>)
    requires ValidTable(t) && IsPath(t, path) && CleanFrom(t, path[0]) && |path| <= |t.groups|
    requires WellFormed(t, path[|path| - 1])
    requires forall i :: 0 <= i < |items| ==> items[i] in Lookup(t, path[|path| - 1]).items
    ensures FlattenItems(t, |t.groups| - |path|, items).Some?
    decreases |t.groups| - |path|, |items|
  {
    hide CleanPath, CleanFrom, Lookup, LastInvalid, ValidTable, Flatten;
    if items != [] {
      var name := path[|path| - 1];
      NoneInvalid(Lookup(t, name).items);
      assert items[0] in Lookup(t, name).items;
      if items[0].Include? {
        LongerPath(t, path, items[0].name);
        CleanFlattens(t, path + [items[0].name]);
      }
      CleanItemsFlatten(t, path, items[1..]);
    }
  }

  lemma LongerPath(t: Table, path: seq<string>, included: string)
    requires ValidTable(t) && IsPath(t, path) && CleanFrom(t, path[0])
    requires Includes(t, path[|path| - 1], included)
    ensures IsPath(t, path + [included]) && |path| + 1 <= |t.groups|
  {
    hide Includes, CleanPath;
    var longer := path + [included];
    forall i, j | 0 <= i < j < |longer| && j == i + 1 ensures Includes(t, longer[i], longer[j]) {
      if j < |path| { assert Includes(t, path[i], path[j]); }
    }
    assert longer[0] == path[0];
    CleanPathIsShort(t, longer);
  }

  /**
    Whatever the spelling, the program returns a list exactly when no path of includes from the
    requested group repeats a group or meets an undefined or invalid one.
  */
  lemma SuccessIsClean(t: Table, name: string)
    requires ValidTable(t)
    ensures (exists r :: Resolves(t, name, [], Done(r))) <==> CleanFrom(t, name)
  {
    if r :| Resolves(t, name, [], Done(r)) {
      SuccessIsFlatten(t, name, r);
      forall path | IsPath(t, path) && path[0] == name ensures CleanPath(t, path) {
        FlattenIsClean(t, name, path);
      }
    }
    if CleanFrom(t, name) {
      CleanFlattens(t, [name]);
      var r := Flatten(t, |t.groups|, name).value;
      assert HasFlatten(t, name, r);
      SuccessIsFlatten(t, name, r);
    }
  }
}
