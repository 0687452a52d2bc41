/**
  What a finished plan of the minimal resolver guarantees: roots are satisfied, the plan is closed
  under dependencies, every unchecked dependency is a back edge of a cycle, and each choice is the
  highest wheel for the requirement that first reached it.
*/
module WheelhousePlans {
  import opened Wrappers
  import opened Sequences
  import opened Sorting
  import opened Wheelhouse

  // ---------- What a run keeps ----------

  /** A wheel whose dependencies are being added. */
  datatype Open = Open(name: string, wheel: Wheel)

  predicate Usable(w: Wheel) {
    w.metadata.Some? && w.metadata.value.pure
  }

  function Deps(w: Wheel): seq<string> {
    if w.metadata.Some? then w.metadata.value.dependencies else []
  }

  /** `w` declares a dependency on `name`. */
  ghost predicate Requires(w: Wheel, name: string) {
    exists raw :: raw in Deps(w) && Names(raw, name)
  }

  predicate Names(raw: string, name: string) {
    ParseRequirement(raw).Some? && ParseRequirement(raw).value.name == name
  }

  function OpenMap(open: seq<Open>): map<string, Wheel> {
    if open == [] then map[] else OpenMap(open[..|open| - 1])[open[|open| - 1].name := open[|open| - 1].wheel]
  }

  /** The wheels picked so far, finished or still open. */
  function Picked(st: State, open: seq<Open>): map<string, Wheel> {
    st.chosen + OpenMap(open)
  }

  ghost predicate Link(picked: map<string, Wheel>, from: string, to: string) {
    from in picked && Requires(picked[from], to)
  }

  ghost predicate IsChain(picked: map<string, Wheel>, chain: seq<string>) {
    && chain != []
    && (forall i :: 0 <= i < |chain| ==> chain[i] in picked)
    && (forall i, j :: 0 <= i < |chain| - 1 && j == i + 1 ==> Link(picked, chain[i], chain[j]))
  }

  /** A chain of dependencies, possibly of length zero. */
  ghost predicate Reaches(picked: map<string, Wheel>, from: string, to: string) {
    exists chain :: Connects(picked, chain, from, to)
  }

  ghost predicate Connects(picked: map<string, Wheel>, chain: seq<string>, from: string, to: string) {
    IsChain(picked, chain) && chain[0] == from && chain[|chain| - 1] == to
  }

  predicate Precedes(order: seq<string>, name: string, i: nat)
    requires i <= |order|
  {
    name in order[..i]
  }

  /** The dependency `raw` of the `i`-th wheel: checked against an earlier one, or a back edge. */
  ghost predicate DependencyKept(st: State, open: seq<Open>, i: nat, raw: string)
    requires i < |st.order|
  {
    && ParseRequirement(raw).Some?
    && var r := ParseRequirement(raw).value;
       if Precedes(st.order, r.name, i) then r.name in st.chosen && Satisfied(r, st.chosen[r.name])
       else r.name in Picked(st, open) && Reaches(Picked(st, open), r.name, st.order[i])
  }

  ghost predicate WheelKept(house: House, st: State, open: seq<Open>, i: nat)
    requires i < |st.order|
  {
    && st.order[i] in st.chosen
    && var w := st.chosen[st.order[i]];
       Usable(w) && forall raw :: raw in Deps(w) ==> DependencyKept(st, open, i, raw)
  }

  /** The requirement that first reached a chosen name, and where it came from. */
  ghost predicate ReasonKept(house: House, roots: set<string>, st: State, open: seq<Open>, name: string)
    requires name in st.chosen
  {
    && name in st.reason
    && var raw := st.reason[name];
       && Names(raw, name) && name in house
       && FirstSatisfying(ParseRequirement(raw).value, house[name]) == Some(st.chosen[name])
       && Comes(roots, Picked(st, open), raw)
  }

  ghost predicate Comes(roots: set<string>, picked: map<string, Wheel>, raw: string) {
    raw in roots || exists name :: name in picked && raw in Deps(picked[name])
  }

  ghost predicate OpenStack(open: seq<Open>) {
    && (forall i, j :: 0 <= i < j < |open| ==> open[i].name != open[j].name)
    && (forall i, j :: 0 <= i < j < |open| && j == i + 1 ==> Requires(open[i].wheel, open[j].name))
  }

  ghost predicate Kept(house: House, roots: set<string>, st: State, open: seq<Open>) {
    && OpenStack(open)
    && (forall name :: name in st.visiting <==> name in OpenMap(open))
    && (forall name :: name in st.chosen ==> name !in st.visiting)
    && Distinct(st.order)
    && (forall name :: name in st.order <==> name in st.chosen)
    && (forall i :: 0 <= i < |st.order| ==> WheelKept(house, st, open, i))
    && (forall name :: name in st.chosen ==> ReasonKept(house, roots, st, open, name))
  }

  /** Nothing already chosen changes, and the result list only grows at its end. */
  ghost predicate Grows(st: State, after: State) {
    && st.order <= after.order
    && (forall name :: name in st.chosen ==> name in after.chosen && after.chosen[name] == st.chosen[name])
    && (forall name :: name in st.chosen && name in st.reason ==> name in after.reason && after.reason[name] == st.reason[name])
  }

  /** What a successful call leaves behind for the requirement it was given. */
  ghost predicate Handled(st: State, raw: string) {
    && ParseRequirement(raw).Some?
    && var r := ParseRequirement(raw).value;
       if r.name in st.chosen then Satisfied(r, st.chosen[r.name]) else r.name in st.visiting
  }

  lemma {:induction false} OpenMapSpec(open: seq<Open>)
    requires forall i, j :: 0 <= i < j < |open| ==> open[i].name != open[j].name
    ensures forall i :: 0 <= i < |open| ==> open[i].name in OpenMap(open) && OpenMap(open)[open[i].name] == open[i].wheel
    ensures forall name :: name in OpenMap(open) ==> exists i :: 0 <= i < |open| && open[i].name == name
  {
    if open != [] {
      var front := open[..|open| - 1];
      OpenMapSpec(front);
      forall i | 0 <= i < |open| ensures open[i].name in OpenMap(open) && OpenMap(open)[open[i].name] == open[i].wheel {
        if i < |front| { assert front[i] == open[i]; }
      }
      forall name | name in OpenMap(open) ensures exists i :: 0 <= i < |open| && open[i].name == name {
        if name in OpenMap(front) {
          var i :| 0 <= i < |front| && front[i].name == name;
          assert open[i].name == name;
        } else {
          assert open[|open| - 1].name == name;
        }
      }
    }
  }

  lemma ChainGrows(picked: map<string, Wheel>, more: map<string, Wheel>, from: string, to: string)
    requires Reaches(picked, from, to)
    requires forall name :: name in picked ==> name in more && more[name] == picked[name]
    ensures Reaches(more, from, to)
  {
    hide Requires;
    var chain :| Connects(picked, chain, from, to);
    assert Connects(more, chain, from, to);
  }

  /** What holds of a finished wheel goes on holding as the plan grows. */
  lemma WheelStaysKept(house: House, st: State, open: seq<Open>, after: State, open': seq<Open>, i: nat)
    requires i < |st.order| && WheelKept(house, st, open, i) && Grows(st, after)
    requires forall name :: name in Picked(st, open) ==>
      name in Picked(after, open') && Picked(after, open')[name] == Picked(st, open)[name]
    ensures WheelKept(house, after, open', i)
  {
    hide Satisfied, ParseRequirement, Picked, Reaches;
    var w := st.chosen[st.order[i]];
    assert after.order[i] == st.order[i] && after.order[..i] == st.order[..i];
    forall raw | raw in Deps(w) ensures DependencyKept(after, open', i, raw) {
      assert DependencyKept(st, open, i, raw);
      var r := ParseRequirement(raw).value;
      if !Precedes(st.order, r.name, i) {
        ChainGrows(Picked(st, open), Picked(after, open'), r.name, st.order[i]);
      }
    }
  }

  lemma ReasonStaysKept(
      house: House, roots: set<string>, st: State, open: seq<Open>, after: State, open': seq<Open>,
      name: string)
    requires name in st.chosen && ReasonKept(house, roots, st, open, name) && Grows(st, after)
    requires forall name :: name in Picked(st, open) ==>
      name in Picked(after, open') && Picked(after, open')[name] == Picked(st, open)[name]
    ensures ReasonKept(house, roots, after, open', name)
  {
    hide ParseRequirement, Picked, FirstSatisfying;
  }

  /** Pushing a wheel on the stack keeps everything. */
  lemma OpenOne(house: House, roots: set<string>, st: State, open: seq<Open>, name: string, w: Wheel)
    requires Kept(house, roots, st, open)
    requires name !in st.chosen && name !in st.visiting
    requires open != [] ==> Requires(open[|open| - 1].wheel, name)
    ensures Kept(house, roots, st.(visiting := st.visiting + {name}), open + [Open(name, w)])
  {
    hide WheelKept, ReasonKept, Requires, OpenStack, OpenMap, Picked;
    var st', open' := st.(visiting := st.visiting + {name}), open + [Open(name, w)];
    OpenPicked(st, open, name, w);
    forall i | 0 <= i < |st.order| ensures WheelKept(house, st', open', i) {
      WheelStaysKept(house, st, open, st', open', i);
    }
    forall n | n in st.chosen ensures ReasonKept(house, roots, st', open', n) {
      ReasonStaysKept(house, roots, st, open, st', open', n);
    }
  }

  lemma {:induction false} OpenPicked(st: State, open: seq<Open>, name: string, w: Wheel)
    requires OpenStack(open) && name !in st.chosen && name !in OpenMap(open)
    requires open != [] ==> Requires(open[|open| - 1].wheel, name)
    ensures var st', open' := st.(visiting := st.visiting + {name}), open + [Open(name, w)];
      && OpenStack(open')
      && OpenMap(open') == OpenMap(open)[name := w]
      && (forall n :: n in Picked(st, open) ==> n in Picked(st', open') && Picked(st', open')[n] == Picked(st, open)[n])
  {
    hide OpenStack, OpenMap;
    PushMap(open, name, w);
    NotStacked(open, name);
    PushStack(open, Open(name, w));
  }

  lemma {:induction false} NotStacked(open: seq<Open>, name: string)
    requires OpenStack(open) && name !in OpenMap(open)
    ensures forall i :: 0 <= i < |open| ==> open[i].name != name
  {
    hide Requires, OpenMap;
    OpenMapSpec(open);
  }

  lemma PushStack(open: seq<Open>, top: Open)
    requires OpenStack(open)
    requires forall i :: 0 <= i < |open| ==> open[i].name != top.name
    requires open != [] ==> Requires(open[|open| - 1].wheel, top.name)
    ensures OpenStack(open + [top])
  {
    hide Requires;
  }

  lemma {:induction false} PushMap(open: seq<Open>, name: string, w: Wheel)
    ensures OpenMap(open + [Open(name, w)]) == OpenMap(open)[name := w]
  {
    assert (open + [Open(name, w)])[..|open|] == open;
  }

  /** A stacked wheel is reached from every wheel below it. */
  lemma {:induction false} StackReaches(st: State, open: seq<Open>, i: nat)
    requires OpenStack(open) && i < |open|
    requires forall name :: name in st.chosen ==> name !in OpenMap(open)
    ensures Reaches(Picked(st, open), open[i].name, open[|open| - 1].name)
    decreases |open| - i
  {
    hide OpenStack, OpenMap, Picked, Link, Reaches;
    if i == |open| - 1 {
      Stacked(st, open, i);
      ReachesItself(Picked(st, open), open[i].name);
    } else {
      StackLink(st, open, i);
      StackReaches(st, open, i + 1);
      ReachesThrough(Picked(st, open), open[i].name, open[i + 1].name, open[|open| - 1].name);
    }
  }

  lemma ReachesItself(picked: map<string, Wheel>, name: string)
    requires name in picked
    ensures Reaches(picked, name, name)
  {
    hide Link;
    assert Connects(picked, [name], name, name);
  }

  lemma ReachesThrough(picked: map<string, Wheel>, from: string, via: string, to: string)
    requires from in picked && Link(picked, from, via) && Reaches(picked, via, to)
    ensures Reaches(picked, from, to)
  {
    hide Link;
    var chain :| Connects(picked, chain, via, to);
    var longer := [from] + chain;
    forall i, j | 0 <= i < |longer| - 1 && j == i + 1 ensures Link(picked, longer[i], longer[j]) {
      if i > 0 { assert longer[i] == chain[i - 1] && longer[j] == chain[i]; }
    }
    assert Connects(picked, longer, from, to);
  }

  lemma {:induction false} Stacked(st: State, open: seq<Open>, i: nat)
    requires OpenStack(open) && i < |open|
    requires forall name :: name in st.chosen ==> name !in OpenMap(open)
    ensures var picked := Picked(st, open); open[i].name in picked && picked[open[i].name] == open[i].wheel
  {
    hide Requires, OpenMap;
    OpenMapSpec(open);
  }

  lemma {:induction false} StackLink(st: State, open: seq<Open>, i: nat)
    requires OpenStack(open) && i + 1 < |open|
    requires forall name :: name in st.chosen ==> name !in OpenMap(open)
    ensures open[i].name in Picked(st, open) && Link(Picked(st, open), open[i].name, open[i + 1].name)
  {
    hide Requires, OpenMap, Picked;
    Stacked(st, open, i);
    assert Requires(open[i].wheel, open[i + 1].name);
  }

  /** Closing the top wheel moves it from the stack to the plan. */
  lemma {:induction false} ClosePicked(st: State, open: seq<Open>, name: string, w: Wheel, raw: string)
    requires OpenStack(open + [Open(name, w)])
    requires forall n :: n in st.chosen ==> n !in OpenMap(open + [Open(name, w)])
    ensures name !in OpenMap(open) && name in OpenMap(open + [Open(name, w)])
    ensures forall n :: n in OpenMap(open + [Open(name, w)]) <==> n in OpenMap(open) || n == name
    ensures Picked(Close(st, name, w, raw), open) == Picked(st, open + [Open(name, w)])
    ensures OpenStack(open)
  {
    hide Requires, OpenMap;
    var open' := open + [Open(name, w)];
    PushMap(open, name, w);
    BelowTop(open, Open(name, w));
    OpenMapSpec(open);
  }

  lemma BelowTop(open: seq<Open>, top: Open)
    requires OpenStack(open + [top])
    ensures OpenStack(open) && forall i :: 0 <= i < |open| ==> open[i].name != top.name
  {
    hide Requires;
    var open' := open + [top];
    forall i | 0 <= i < |open| ensures open[i] == open'[i] { }
    forall i | 0 <= i < |open| ensures open[i].name != top.name {
      assert open'[i].name != open'[|open|].name;
    }
  }

  /** Popping a wheel whose dependencies were all handled keeps everything. */
  lemma CloseOne(house: House, roots: set<string>, st: State, open: seq<Open>, name: string, w: Wheel, raw: string)
    requires Kept(house, roots, st, open + [Open(name, w)]) && Usable(w)
    requires forall d :: d in Deps(w) ==> Handled(st, d)
    requires Names(raw, name) && name in house && FirstSatisfying(ParseRequirement(raw).value, house[name]) == Some(w)
    requires raw in roots || (open != [] && raw in Deps(open[|open| - 1].wheel))
    ensures Kept(house, roots, Close(st, name, w, raw), open)
  {
    hide Names, Satisfied, WheelKept, ReasonKept, Requires, OpenMap, OpenStack, Handled, Picked, Deps, FirstSatisfying;
    hide Distinct, Grows, Usable, ParseRequirement;
    var open', after := open + [Open(name, w)], Close(st, name, w, raw);
    ClosePicked(st, open, name, w, raw);
    CloseGrows(house, roots, st, open', name, w, raw);
    ClosedKept(house, roots, st, open, name, w, raw);
    forall i | 0 <= i < |after.order| ensures WheelKept(house, after, open, i) {
      if i < |st.order| { WheelStaysKept(house, st, open', after, open, i); }
    }
    forall n | n in after.chosen ensures ReasonKept(house, roots, after, open, n) {
      if n in st.chosen { ReasonStaysKept(house, roots, st, open', after, open, n); }
    }
  }

  lemma {:induction false} CloseGrows(
      house: House, roots: set<string>, st: State, open': seq<Open>, name: string, w: Wheel, raw: string)
    requires Kept(house, roots, st, open') && name in OpenMap(open')
    ensures name !in st.chosen && Grows(st, Close(st, name, w, raw)) && Distinct(Close(st, name, w, raw).order)
  {
    hide OpenStack, OpenMap, WheelKept, ReasonKept;
    assert name !in st.order;
  }

  lemma ClosedKept(house: House, roots: set<string>, st: State, open: seq<Open>, name: string, w: Wheel, raw: string)
    requires Kept(house, roots, st, open + [Open(name, w)]) && Usable(w)
    requires forall d :: d in Deps(w) ==> Handled(st, d)
    requires Names(raw, name) && name in house && FirstSatisfying(ParseRequirement(raw).value, house[name]) == Some(w)
    requires raw in roots || (open != [] && raw in Deps(open[|open| - 1].wheel))
    requires Picked(Close(st, name, w, raw), open) == Picked(st, open + [Open(name, w)])
    ensures WheelKept(house, Close(st, name, w, raw), open, |st.order|)
    ensures ReasonKept(house, roots, Close(st, name, w, raw), open, name)
  {
    hide ParseRequirement, FirstSatisfying, Satisfied, WheelKept, ReasonKept, Requires;
    var open', after := open + [Open(name, w)], Close(st, name, w, raw);
    OpenMapSpec(open');
    assert after.order[..|st.order|] == st.order;
    forall d | d in Deps(w) ensures DependencyKept(after, open, |st.order|, d) {
      var r := ParseRequirement(d).value;
      assert Handled(st, d);
      if r.name !in st.chosen {
        var i :| 0 <= i < |open'| && open'[i].name == r.name;
        StackReaches(st, open', i);
      }
    }
    ClosedWheel(house, after, open, |st.order|);
    ClosedReason(house, roots, st, open, name, w, raw);
  }

  lemma ClosedWheel(house: House, st: State, open: seq<Open>, i: nat)
    requires i < |st.order| && st.order[i] in st.chosen && Usable(st.chosen[st.order[i]])
    requires forall raw :: raw in Deps(st.chosen[st.order[i]]) ==> DependencyKept(st, open, i, raw)
    ensures WheelKept(house, st, open, i)
  {
  }

  lemma ClosedReason(house: House, roots: set<string>, st: State, open: seq<Open>, name: string, w: Wheel, raw: string)
    requires Names(raw, name) && name in house && FirstSatisfying(ParseRequirement(raw).value, house[name]) == Some(w)
    requires raw in roots || (open != [] && raw in Deps(open[|open| - 1].wheel))
    requires Picked(Close(st, name, w, raw), open) == Picked(st, open + [Open(name, w)])
    requires OpenStack(open + [Open(name, w)])
    ensures ReasonKept(house, roots, Close(st, name, w, raw), open, name)
  {
    hide ParseRequirement, FirstSatisfying, Requires;
    var open' := open + [Open(name, w)];
    OpenMapSpec(open');
    if raw !in roots {
      var last := |open| - 1;
      assert open'[last] == open[last];
      var picked := Picked(Close(st, name, w, raw), open);
      assert open[last].name in picked && picked[open[last].name] == open[last].wheel;
    }
  }

  // ---------- Every successful run keeps it ----------

  lemma {:induction false} AddKeeps(house: House, roots: set<string>, raw: string, st: State, open: seq<Open>)
    requires Kept(house, roots, st, open) && Add(house, raw, st).Some?
    requires if open == [] then raw in roots else raw in Deps(open[|open| - 1].wheel)
    ensures var after := Add(house, raw, st).value;
      Kept(house, roots, after, open) && Grows(st, after) && Handled(after, raw)
    decreases |house.Keys - st.visiting|, 0
  {
    hide ParseRequirement, FirstSatisfying, Satisfied, Kept, Requires;
    var r := ParseRequirement(raw).value;
    if r.name !in st.chosen && r.name !in st.visiting {
      var w := FirstSatisfying(r, house[r.name]).value;
      var open' := open + [Open(r.name, w)];
      var st1 := st.(visiting := st.visiting + {r.name});
      Wheelhouse.Visit(house, r.name, st);
      assert open != [] ==> Requires(open[|open| - 1].wheel, r.name) by {
        if open != [] { RequiresRaw(open[|open| - 1].wheel, raw); }
      }
      OpenOne(house, roots, st, open, r.name, w);
      AddAllKeeps(house, roots, Deps(w), st1, open');
      var st2 := AddAll(house, Deps(w), st1).value;
      CloseOne(house, roots, st2, open, r.name, w, raw);
      PickSatisfies(r, house[r.name]);
      KeptFacts(house, roots, st2, open');
    }
  }

  lemma RequiresRaw(w: Wheel, raw: string)
    requires raw in Deps(w) && ParseRequirement(raw).Some?
    ensures Requires(w, ParseRequirement(raw).value.name)
  {
    assert Names(raw, ParseRequirement(raw).value.name);
  }

  lemma KeptFacts(house: House, roots: set<string>, st: State, open: seq<Open>)
    requires Kept(house, roots, st, open)
    ensures forall name :: name in st.visiting ==> name !in st.chosen
  {
  }

  lemma {:induction false} PickSatisfies(r: Requirement, wheels: seq<Wheel>)
    requires FirstSatisfying(r, wheels).Some?
    ensures Satisfied(r, FirstSatisfying(r, wheels).value)
  {
    hide Satisfied;
    if !Satisfied(r, wheels[0]) { PickSatisfies(r, wheels[1..]); }
  }

  lemma {:induction false} AddAllKeeps(house: House, roots: set<string>, raws: seq<string>, st: State, open: seq<Open>)
    requires Kept(house, roots, st, open) && AddAll(house, raws, st).Some?
    requires forall raw :: raw in raws ==> if open == [] then raw in roots else raw in Deps(open[|open| - 1].wheel)
    ensures var after := AddAll(house, raws, st).value;
      Kept(house, roots, after, open) && Grows(st, after) && forall raw :: raw in raws ==> Handled(after, raw)
    decreases |house.Keys - st.visiting|, |raws|
  {
    hide ParseRequirement, Satisfied, Kept, Handled, Add;
    if raws != [] {
      AddKeeps(house, roots, raws[0], st, open);
      var next := Add(house, raws[0], st).value;
      forall raw | raw in raws[1..] ensures raw in raws { }
      AddAllKeeps(house, roots, raws[1..], next, open);
      var after := AddAll(house, raws, st).value;
      KeptFacts(house, roots, after, open);
      forall raw | raw in raws ensures Handled(after, raw) {
        if raw == raws[0] { HandledStays(next, after, raw); } else { assert raw in raws[1..]; }
      }
    }
  }

  lemma HandledStays(st: State, after: State, raw: string)
    requires Handled(st, raw) && Grows(st, after) && after.visiting == st.visiting
    requires forall name :: name in after.visiting ==> name !in after.chosen
    ensures Handled(after, raw)
  {
  }

  // ---------- Finished plans ----------

  /** Every root names a chosen wheel that satisfies it. */
  ghost predicate RootsSatisfied(plan: State, roots: seq<string>) {
    forall raw :: raw in roots ==> ConstraintMet(plan, raw)
  }

  predicate ConstraintMet(plan: State, raw: string) {
    && ParseRequirement(raw).Some?
    && var r := ParseRequirement(raw).value;
       r.name in plan.chosen && Satisfied(r, plan.chosen[r.name])
  }

  /** The dependency is met by a wheel earlier in the plan. */
  predicate MetEarlier(plan: State, i: nat, raw: string)
    requires i <= |plan.order|
  {
    ParseRequirement(raw).Some? && Precedes(plan.order, ParseRequirement(raw).value.name, i) && ConstraintMet(plan, raw)
  }

  /** The dependency leads to the dependent itself or to a later wheel, which depends on the dependent. */
  ghost predicate BackEdge(plan: State, i: nat, raw: string)
    requires i < |plan.order|
  {
    && ParseRequirement(raw).Some?
    && var name := ParseRequirement(raw).value.name;
       && name in plan.order[i..] && !Precedes(plan.order, name, i)
       && Reaches(plan.chosen, name, plan.order[i])
  }

  /** No chosen wheel depends, through others, on itself. */
  ghost predicate Acyclic(plan: State) {
    forall from, to :: from in plan.chosen && Requires(plan.chosen[from], to) ==> !Reaches(plan.chosen, to, from)
  }

  ghost predicate BackEdgesMet(plan: State) {
    forall i, raw |
      && 0 <= i < |plan.order| && plan.order[i] in plan.chosen
      && raw in Deps(plan.chosen[plan.order[i]]) && BackEdge(plan, i, raw) :: ConstraintMet(plan, raw)
  }

  ghost predicate AllDependenciesMet(plan: State) {
    forall name, raw :: name in plan.chosen && raw in Deps(plan.chosen[name]) ==> ConstraintMet(plan, raw)
  }

  lemma ResolveKeeps(house: House, roots: seq<string>)
    requires Resolve(house, roots).Some?
    ensures var plan := Resolve(house, roots).value; var rootSet := set raw | raw in roots;
      Kept(house, rootSet, plan, []) && forall raw :: raw in roots ==> Handled(plan, raw)
  {
    var rootSet := set raw | raw in roots;
    assert Kept(house, rootSet, INITIAL, []);
    AddAllKeeps(house, rootSet, roots, INITIAL, []);
  }

  /** Roots are satisfied; names are listed once each, with one wheel each. */
  lemma PlanMeetsRoots(house: House, roots: seq<string>)
    requires Resolve(house, roots).Some?
    ensures var plan := Resolve(house, roots).value;
      && RootsSatisfied(plan, roots)
      && Distinct(plan.order) && (forall name :: name in plan.order <==> name in plan.chosen)
  {
    hide ParseRequirement, Satisfied;
    ResolveKeeps(house, roots);
  }

  /**
    Each dependency of each chosen wheel is met by an earlier wheel, or is a back edge; either way
    its name is chosen.
  */
  lemma PlanIsClosed(house: House, roots: seq<string>, i: nat, raw: string)
    requires Resolve(house, roots).Some? && i < |Resolve(house, roots).value.order|
    requires var plan := Resolve(house, roots).value;
      plan.order[i] in plan.chosen && raw in Deps(plan.chosen[plan.order[i]])
    ensures var plan := Resolve(house, roots).value;
      && Usable(plan.chosen[plan.order[i]])
      && (MetEarlier(plan, i, raw) || BackEdge(plan, i, raw))
      && ParseRequirement(raw).value.name in plan.chosen
  {
    hide ParseRequirement, Satisfied, Resolve, Kept, Reaches, Deps, Picked;
    ResolveKeeps(house, roots);
    var plan := Resolve(house, roots).value;
    var rootSet := set root | root in roots;
    KeptWheel(house, rootSet, plan, i);
    assert DependencyKept(plan, [], i, raw);
    assert Picked(plan, []) == plan.chosen by { NothingOpen(plan); }
    assert plan.order == plan.order[..i] + plan.order[i..];
    KeptOrder(house, rootSet, plan);
  }

  lemma NothingOpen(plan: State)
    ensures Picked(plan, []) == plan.chosen
  {
  }

  lemma KeptOrder(house: House, roots: set<string>, plan: State)
    requires Kept(house, roots, plan, [])
    ensures forall name :: name in plan.order <==> name in plan.chosen
  {
  }

  lemma KeptWheel(house: House, roots: set<string>, plan: State, i: nat)
    requires Kept(house, roots, plan, []) && i < |plan.order|
    ensures WheelKept(house, plan, [], i)
  {
    hide WheelKept;
  }

  /** A plan without cycles meets the constraint of every dependency of every wheel in it. */
  lemma AcyclicPlanIsConsistent(house: House, roots: seq<string>)
    requires Resolve(house, roots).Some? && Acyclic(Resolve(house, roots).value)
    ensures AllDependenciesMet(Resolve(house, roots).value)
  {
    hide ParseRequirement, Satisfied, Resolve, Reaches;
    var plan := Resolve(house, roots).value;
    PlanMeetsRoots(house, roots);
    forall name, raw | name in plan.chosen && raw in Deps(plan.chosen[name]) ensures ConstraintMet(plan, raw) {
      var i :| 0 <= i < |plan.order| && plan.order[i] == name;
      PlanIsClosed(house, roots, i, raw);
      RequiresRaw(plan.chosen[name], raw);
    }
  }

  /** In general the plan is consistent exactly when the constraints on its back edges happen to hold. */
  lemma PlanConsistentIff(house: House, roots: seq<string>)
    requires Resolve(house, roots).Some?
    ensures var plan := Resolve(house, roots).value;
      AllDependenciesMet(plan) <==> BackEdgesMet(plan)
  {
    hide ParseRequirement, Satisfied, Resolve, Reaches, BackEdge;
    var plan := Resolve(house, roots).value;
    PlanMeetsRoots(house, roots);
    forall name, raw | name in plan.chosen && raw in Deps(plan.chosen[name])
      ensures exists i :: 0 <= i < |plan.order| && plan.order[i] == name && (ConstraintMet(plan, raw) || BackEdge(plan, i, raw))
    {
      var i :| 0 <= i < |plan.order| && plan.order[i] == name;
      PlanIsClosed(house, roots, i, raw);
    }
  }

  /**
    Each chosen wheel comes from the candidate list of its name and is a highest one that satisfies
    the requirement that first reached the name, a root or a dependency of a chosen wheel.
  */
  lemma PlanIsHighest(files: seq<Wheel>, house: House, roots: seq<string>, name: string)
    requires IsHouse(house, files)
    requires Resolve(house, roots).Some? && name in Resolve(house, roots).value.chosen
    ensures var plan := Resolve(house, roots).value; var best := plan.chosen[name];
      && name in plan.reason && Names(plan.reason[name], name)
      && (plan.reason[name] in roots || exists m :: m in plan.chosen && plan.reason[name] in Deps(plan.chosen[m]))
      && var r := ParseRequirement(plan.reason[name]).value;
         && best in files && CanonicalName(best) == name && Satisfied(r, best)
         && forall w :: w in files && CanonicalName(w) == name && Satisfied(r, w) ==> NotLower(best, w)
  {
    hide ParseRequirement, Satisfied, Resolve, NotLower, CanonicalName, FirstSatisfying, Names, Deps, IsHouse, Kept, Handled;
    ResolveKeeps(house, roots);
    var plan := Resolve(house, roots).value;
    var rootSet := set raw | raw in roots;
    KeptReason(house, rootSet, plan, name);
    HighestInHouse(files, house, name, ParseRequirement(plan.reason[name]).value);
  }

  lemma KeptReason(house: House, roots: set<string>, plan: State, name: string)
    requires Kept(house, roots, plan, []) && name in plan.chosen
    ensures name in plan.reason && Names(plan.reason[name], name) && name in house
    ensures ParseRequirement(plan.reason[name]).Some?
    ensures FirstSatisfying(ParseRequirement(plan.reason[name]).value, house[name]) == Some(plan.chosen[name])
    ensures plan.reason[name] in roots || exists m :: m in plan.chosen && plan.reason[name] in Deps(plan.chosen[m])
  {
    hide ParseRequirement, FirstSatisfying, Deps, WheelKept, OpenStack;
    assert ReasonKept(house, roots, plan, [], name);
    NothingOpen(plan);
  }

  /** The first satisfying wheel of a candidate list is a highest satisfying file of that name. */
  lemma {:induction false} HighestInHouse(files: seq<Wheel>, house: House, name: string, r: Requirement)
    requires IsHouse(house, files) && name in house && FirstSatisfying(r, house[name]).Some?
    ensures var best := FirstSatisfying(r, house[name]).value;
      && best in files && CanonicalName(best) == name && Satisfied(r, best)
      && forall w :: w in files && CanonicalName(w) == name && Satisfied(r, w) ==> NotLower(best, w)
  {
    hide Satisfied, NotLower, CanonicalName, FirstSatisfying;
    NotLowerPreorder();
    SortSpec(NotLower, NamedIn(files, name));
    FirstIsHighest(r, house[name]);
    forall w ensures w in house[name] <==> w in files && CanonicalName(w) == name {
      assert w in house[name] <==> w in multiset(house[name]);
      NamedInSpec(files, name, w);
    }
  }

  lemma {:induction false} NamedInSpec(wheels: seq<Wheel>, name: string, w: Wheel)
    ensures w in NamedIn(wheels, name) <==> w in wheels && CanonicalName(w) == name
  {
    hide CanonicalName;
    if wheels != [] {
      NamedInSpec(wheels[..|wheels| - 1], name, w);
      assert wheels == wheels[..|wheels| - 1] + [wheels[|wheels| - 1]];
    }
  }

  /** The call that first reaches a name decides its wheel; what follows never changes it (`AddAllKeeps`). */
  lemma {:induction false} FirstReachDecides(house: House, roots: set<string>, raw: string, st: State, open: seq<Open>)
    requires Kept(house, roots, st, open) && Add(house, raw, st).Some?
    requires if open == [] then raw in roots else raw in Deps(open[|open| - 1].wheel)
    requires ParseRequirement(raw).value.name !in st.chosen && ParseRequirement(raw).value.name !in st.visiting
    ensures var r := ParseRequirement(raw).value; var after := Add(house, raw, st).value;
      && r.name in after.chosen && r.name in house && after.reason[r.name] == raw
      && FirstSatisfying(r, house[r.name]) == Some(after.chosen[r.name])
      && Grows(st, after)
  {
    hide ParseRequirement, Satisfied;
    AddKeeps(house, roots, raw, st, open);
  }
}
