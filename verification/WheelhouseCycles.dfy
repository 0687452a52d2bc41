/**
  When a successful plan meets all constraints.

  The resolver accepts a requirement on a name it is still visiting without looking at the wheel it
  picked for it. `StrictAdd` is the same search with that test put in; `StrictSearchDecides` says that
  a plan is consistent exactly when the strict search finds it too. `RankedHouseIsConsistent` gives a
  condition on the wheelhouse alone.
*/
module WheelhouseCycles {
  import opened Wrappers
  import opened Wheelhouse
  import opened StrictSearch
  import opened WheelhousePlans

  // ---------- The search that tests the wheel being visited ----------

  /** The wheel chosen or picked for the required name satisfies the requirement. */
  predicate Met(wheels: map<string, Wheel>, raw: string) {
    && ParseRequirement(raw).Some?
    && var r := ParseRequirement(raw).value;
       r.name in wheels && Satisfied(r, wheels[r.name])
  }

  /** The wheel picked for a name that is reached for the first time. */
  function Picks(house: House, raw: string, st: State): Option<Wheel> {
    match ParseRequirement(raw)
    case None => None
    case Some(r) =>
      if r.name in st.chosen || r.name in st.visiting || r.name !in house then None
      else
        match FirstSatisfying(r, house[r.name])
        case None => None
        case Some(w) => if Usable(w) then Some(w) else None
  }

  function Name(raw: string): string {
    if ParseRequirement(raw).Some? then ParseRequirement(raw).value.name else ""
  }

  function Inside(st: State, name: string): State {
    st.(visiting := st.visiting + {name})
  }

  lemma PicksSpec(house: House, raw: string, st: State)
    requires Picks(house, raw, st).Some?
    ensures Name(raw) !in st.chosen && Name(raw) !in st.visiting && Name(raw) in house
    ensures ParseRequirement(raw).Some? && Satisfied(ParseRequirement(raw).value, Picks(house, raw, st).value)
  {
    hide ParseRequirement, Satisfied;
    PickSatisfies(ParseRequirement(raw).value, house[Name(raw)]);
  }

  lemma PicksInside(house: House, raw: string, st: State)
    requires Picks(house, raw, st).Some?
    ensures |house.Keys - Inside(st, Name(raw)).visiting| < |house.Keys - st.visiting|
  {
    hide ParseRequirement, FirstSatisfying;
    Wheelhouse.Visit(house, Name(raw), st);
  }

  lemma {:induction false} AddCases(house: House, raw: string, st: State)
    ensures Picks(house, raw, st).Some? ==>
      var w := Picks(house, raw, st).value; var inner := AddAll(house, Deps(w), Inside(st, Name(raw)));
      Add(house, raw, st) == if inner.Some? then Some(Close(inner.value, Name(raw), w, raw)) else None
    ensures Picks(house, raw, st).None? && Add(house, raw, st).Some? ==>
      && Add(house, raw, st) == Some(st) && ParseRequirement(raw).Some?
      && (Name(raw) in st.chosen || Name(raw) in st.visiting)
  {
    hide ParseRequirement, Satisfied, FirstSatisfying, AddAll;
  }

  lemma {:induction false} StrictCases(house: House, raw: string, st: State, picked: map<string, Wheel>)
    requires picked.Keys == st.visiting
    ensures Picks(house, raw, st).Some? ==>
      var w := Picks(house, raw, st).value;
      var inner := StrictAddAll(house, Deps(w), Inside(st, Name(raw)), picked[Name(raw) := w]);
      StrictAdd(house, raw, st, picked) == if inner.Some? then Some(Close(inner.value, Name(raw), w, raw)) else None
    ensures Picks(house, raw, st).None? && StrictAdd(house, raw, st, picked).Some? ==>
      StrictAdd(house, raw, st, picked) == Some(st) == Add(house, raw, st) && Met(picked + st.chosen, raw)
    ensures Picks(house, raw, st).None? && Add(house, raw, st).Some? && Met(picked + st.chosen, raw) ==>
      StrictAdd(house, raw, st, picked) == Add(house, raw, st)
  {
    hide ParseRequirement, Satisfied, FirstSatisfying, AddAll, StrictAddAll;
  }

  // ---------- What the strict search finds, the search finds ----------

  lemma {:induction false} StrictIsAdd(house: House, raw: string, st: State, picked: map<string, Wheel>)
    requires picked.Keys == st.visiting && StrictAdd(house, raw, st, picked).Some?
    ensures Add(house, raw, st) == StrictAdd(house, raw, st, picked)
    decreases |house.Keys - st.visiting|, 0
  {
    hide Picks, Name, Deps, Add, StrictAdd, AddAll, StrictAddAll, Met;
    AddCases(house, raw, st);
    StrictCases(house, raw, st, picked);
    if Picks(house, raw, st).Some? {
      PicksSpec(house, raw, st);
      PicksInside(house, raw, st);
      var name, w := Name(raw), Picks(house, raw, st).value;
      StrictIsAddAll(house, Deps(w), Inside(st, name), picked[name := w]);
    }
  }

  lemma {:induction false} StrictIsAddAll(house: House, raws: seq<string>, st: State, picked: map<string, Wheel>)
    requires picked.Keys == st.visiting && StrictAddAll(house, raws, st, picked).Some?
    ensures AddAll(house, raws, st) == StrictAddAll(house, raws, st, picked)
    decreases |house.Keys - st.visiting|, |raws|
  {
    hide Add, StrictAdd;
    if raws != [] {
      StrictIsAdd(house, raws[0], st, picked);
      StrictIsAddAll(house, raws[1..], StrictAdd(house, raws[0], st, picked).value, picked);
    }
  }

  // ---------- and its constraints are met ----------

  /** Chosen and picked names are apart, and every dependency of a chosen wheel is met. */
  ghost predicate DepsMet(st: State, picked: map<string, Wheel>) {
    && st.visiting == picked.Keys && st.chosen.Keys !! picked.Keys
    && forall name, raw :: name in st.chosen && raw in Deps(st.chosen[name]) ==> Met(picked + st.chosen, raw)
  }

  predicate Extends(more: map<string, Wheel>, wheels: map<string, Wheel>) {
    forall name :: name in wheels ==> name in more && more[name] == wheels[name]
  }

  lemma {:induction false} StrictMeets(house: House, raw: string, st: State, picked: map<string, Wheel>)
    requires DepsMet(st, picked) && StrictAdd(house, raw, st, picked).Some?
    ensures var after := StrictAdd(house, raw, st, picked).value;
      DepsMet(after, picked) && Extends(after.chosen, st.chosen) && Met(picked + after.chosen, raw)
    decreases |house.Keys - st.visiting|, 0
  {
    hide Picks, Name, Deps, Add, StrictAdd, StrictAddAll, Met, DepsMet, Satisfied, ParseRequirement;
    DepsApart(st, picked);
    StrictCases(house, raw, st, picked);
    if Picks(house, raw, st).Some? {
      PicksSpec(house, raw, st);
      PicksInside(house, raw, st);
      var name, w := Name(raw), Picks(house, raw, st).value;
      DepsOpen(st, picked, name, w);
      StrictAllMeets(house, Deps(w), Inside(st, name), picked[name := w]);
      StrictCloses(house, raw, st, picked);
    }
  }

  lemma {:induction false} StrictCloses(house: House, raw: string, st: State, picked: map<string, Wheel>)
    requires picked.Keys == st.visiting && StrictAdd(house, raw, st, picked).Some? && Picks(house, raw, st).Some?
    requires var w := Picks(house, raw, st).value; var more := picked[Name(raw) := w];
      var inner := StrictAddAll(house, Deps(w), Inside(st, Name(raw)), more);
      && inner.Some? && DepsMet(inner.value, more) && Extends(inner.value.chosen, st.chosen)
      && forall d :: d in Deps(w) ==> Met(more + inner.value.chosen, d)
    ensures var after := StrictAdd(house, raw, st, picked).value;
      DepsMet(after, picked) && Extends(after.chosen, st.chosen) && Met(picked + after.chosen, raw)
  {
    hide Picks, Name, Deps, Add, StrictAdd, StrictAddAll, Met, DepsMet, Satisfied, ParseRequirement;
    StrictCases(house, raw, st, picked);
    PicksSpec(house, raw, st);
    var name, w := Name(raw), Picks(house, raw, st).value;
    DepsClose(StrictAddAll(house, Deps(w), Inside(st, name), picked[name := w]).value, picked, w, raw);
  }

  lemma DepsApart(st: State, picked: map<string, Wheel>)
    requires DepsMet(st, picked)
    ensures st.visiting == picked.Keys && st.chosen.Keys !! picked.Keys
  {
  }

  lemma MetGrows(wheels: map<string, Wheel>, more: map<string, Wheel>, raw: string)
    requires Extends(more, wheels) && Met(wheels, raw)
    ensures Met(more, raw)
  {
  }

  lemma DepsOpen(st: State, picked: map<string, Wheel>, name: string, w: Wheel)
    requires DepsMet(st, picked) && name !in st.chosen && name !in picked
    ensures DepsMet(Inside(st, name), picked[name := w])
  {
    hide Met, Deps;
    forall n, raw | n in st.chosen && raw in Deps(st.chosen[n]) ensures Met(picked[name := w] + st.chosen, raw) {
      MetGrows(picked + st.chosen, picked[name := w] + st.chosen, raw);
    }
  }

  lemma DepsClose(st: State, picked: map<string, Wheel>, w: Wheel, raw: string)
    requires DepsMet(st, picked[Name(raw) := w]) && Name(raw) !in picked
    requires forall d :: d in Deps(w) ==> Met(picked[Name(raw) := w] + st.chosen, d)
    requires ParseRequirement(raw).Some? && Satisfied(ParseRequirement(raw).value, w)
    ensures var after := Close(st, Name(raw), w, raw);
      DepsMet(after, picked) && Extends(after.chosen, st.chosen) && Met(picked + after.chosen, raw)
  {
    hide ParseRequirement, Satisfied, Deps;
    var name := Name(raw);
    var after := Close(st, name, w, raw);
    assert picked + after.chosen == picked[name := w] + st.chosen;
    assert Met(picked + after.chosen, raw);
    hide Met;
  }

  lemma {:induction false} StrictAllMeets(house: House, raws: seq<string>, st: State, picked: map<string, Wheel>)
    requires DepsMet(st, picked) && StrictAddAll(house, raws, st, picked).Some?
    ensures var after := StrictAddAll(house, raws, st, picked).value;
      && DepsMet(after, picked) && Extends(after.chosen, st.chosen)
      && forall raw :: raw in raws ==> Met(picked + after.chosen, raw)
    decreases |house.Keys - st.visiting|, |raws|
  {
    hide Met, StrictAdd, DepsMet, Extends;
    DepsApart(st, picked);
    ExtendsChain(st.chosen, st.chosen, st.chosen, picked);
    if raws != [] {
      StrictMeets(house, raws[0], st, picked);
      var next := StrictAdd(house, raws[0], st, picked).value;
      StrictAllMeets(house, raws[1..], next, picked);
      var after := StrictAddAll(house, raws, st, picked).value;
      DepsApart(next, picked);
      DepsApart(after, picked);
      ExtendsChain(st.chosen, next.chosen, after.chosen, picked);
      MetGrows(picked + next.chosen, picked + after.chosen, raws[0]);
      forall raw | raw in raws ensures Met(picked + after.chosen, raw) {
        assert raw == raws[0] || raw in raws[1..];
      }
    }
  }

  lemma ExtendsChain(a: map<string, Wheel>, b: map<string, Wheel>, c: map<string, Wheel>, picked: map<string, Wheel>)
    ensures Extends(a, a)
    ensures Extends(b, a) && Extends(c, b) ==> Extends(c, a)
    ensures Extends(c, b) && c.Keys !! picked.Keys ==> Extends(picked + c, picked + b)
  {
  }

  // ---------- A consistent plan is found by the strict search ----------

  /** Choices are kept, and names being visited stay unchosen. */
  lemma {:induction false} AddGrows(house: House, raw: string, st: State)
    requires st.chosen.Keys !! st.visiting && Add(house, raw, st).Some?
    ensures var after := Add(house, raw, st).value;
      after.chosen.Keys !! after.visiting && Extends(after.chosen, st.chosen)
    decreases |house.Keys - st.visiting|, 0
  {
    hide Picks, Name, Deps, Add, AddAll, Satisfied, ParseRequirement;
    AddCases(house, raw, st);
    if Picks(house, raw, st).Some? {
      PicksSpec(house, raw, st);
      PicksInside(house, raw, st);
      AddAllGrows(house, Deps(Picks(house, raw, st).value), Inside(st, Name(raw)));
    }
  }

  lemma {:induction false} AddAllGrows(house: House, raws: seq<string>, st: State)
    requires st.chosen.Keys !! st.visiting && AddAll(house, raws, st).Some?
    ensures var after := AddAll(house, raws, st).value;
      after.chosen.Keys !! after.visiting && Extends(after.chosen, st.chosen)
    decreases |house.Keys - st.visiting|, |raws|
  {
    hide Add;
    if raws != [] {
      AddGrows(house, raws[0], st);
      AddAllGrows(house, raws[1..], Add(house, raws[0], st).value);
    }
  }

  /** `wheels` is a final choice in which all dependencies are met. */
  ghost predicate Final(wheels: map<string, Wheel>) {
    forall name, raw :: name in wheels && raw in Deps(wheels[name]) ==> Met(wheels, raw)
  }

  /** On the way to a final choice, the strict search does what the search does. */
  lemma {:induction false} AddIsStrict(
      house: House, raw: string, st: State, picked: map<string, Wheel>, final: map<string, Wheel>)
    requires picked.Keys == st.visiting && st.chosen.Keys !! st.visiting && Add(house, raw, st).Some?
    requires Final(final) && Extends(final, picked) && Extends(final, Add(house, raw, st).value.chosen) && Met(final, raw)
    ensures StrictAdd(house, raw, st, picked) == Add(house, raw, st)
    decreases |house.Keys - st.visiting|, 0
  {
    hide Picks, Name, Deps, Add, StrictAdd, AddAll, StrictAddAll, Met, Final, Extends, Satisfied, ParseRequirement;
    AddCases(house, raw, st);
    StrictCases(house, raw, st, picked);
    if Picks(house, raw, st).Some? {
      PicksSpec(house, raw, st);
      PicksInside(house, raw, st);
      var name, w := Name(raw), Picks(house, raw, st).value;
      PickedIsFinal(house, raw, st, picked, final);
      AddAllIsStrict(house, Deps(w), Inside(st, name), picked[name := w], final);
    } else {
      MetSoFar(st, picked, final, raw);
    }
  }

  /** The wheel picked here is the one finally chosen. */
  lemma {:induction false} PickedIsFinal(house: House, raw: string, st: State, picked: map<string, Wheel>, final: map<string, Wheel>)
    requires picked.Keys == st.visiting && st.chosen.Keys !! st.visiting
    requires Add(house, raw, st).Some? && Picks(house, raw, st).Some?
    requires Final(final) && Extends(final, picked) && Extends(final, Add(house, raw, st).value.chosen)
    ensures var w := Picks(house, raw, st).value; var inner := Inside(st, Name(raw));
      && AddAll(house, Deps(w), inner).Some? && inner.chosen.Keys !! inner.visiting
      && Extends(final, AddAll(house, Deps(w), inner).value.chosen)
      && Extends(final, picked[Name(raw) := w])
      && forall d :: d in Deps(w) ==> Met(final, d)
  {
    hide Picks, Name, Deps, Add, AddAll, Met, Final, Satisfied, ParseRequirement, Close;
    AddCases(house, raw, st);
    PicksSpec(house, raw, st);
    var name, w := Name(raw), Picks(house, raw, st).value;
    AddAllGrows(house, Deps(w), Inside(st, name));
    var after := AddAll(house, Deps(w), Inside(st, name)).value;
    ClosedIsFinal(after, name, w, raw, final);
    FinalDeps(final, name);
  }

  lemma ClosedIsFinal(st: State, name: string, w: Wheel, raw: string, final: map<string, Wheel>)
    requires name !in st.chosen && Extends(final, Close(st, name, w, raw).chosen)
    ensures Extends(final, st.chosen) && name in final && final[name] == w
  {
    assert Close(st, name, w, raw).chosen == st.chosen[name := w];
  }

  lemma FinalDeps(final: map<string, Wheel>, name: string)
    requires Final(final) && name in final
    ensures forall raw :: raw in Deps(final[name]) ==> Met(final, raw)
  {
  }

  lemma MetSoFar(st: State, picked: map<string, Wheel>, final: map<string, Wheel>, raw: string)
    requires Met(final, raw) && Extends(final, picked) && Extends(final, st.chosen)
    requires Name(raw) in st.chosen || Name(raw) in picked
    ensures Met(picked + st.chosen, raw)
  {
    hide ParseRequirement, Satisfied;
  }

  lemma {:induction false} AddAllIsStrict(
      house: House, raws: seq<string>, st: State, picked: map<string, Wheel>, final: map<string, Wheel>)
    requires picked.Keys == st.visiting && st.chosen.Keys !! st.visiting && AddAll(house, raws, st).Some?
    requires Final(final) && Extends(final, picked) && Extends(final, AddAll(house, raws, st).value.chosen)
    requires forall raw :: raw in raws ==> Met(final, raw)
    ensures StrictAddAll(house, raws, st, picked) == AddAll(house, raws, st)
    decreases |house.Keys - st.visiting|, |raws|
  {
    hide Add, StrictAdd, Met, Final;
    if raws != [] {
      AddGrows(house, raws[0], st);
      var next := Add(house, raws[0], st).value;
      AddAllGrows(house, raws[1..], next);
      AddIsStrict(house, raws[0], st, picked, final);
      AddAllIsStrict(house, raws[1..], next, picked, final);
    }
  }

  /**
    The strict search succeeds exactly where the search succeeds with a plan that meets every
    constraint of every chosen wheel, and then it finds that plan.
  */
  lemma StrictSearchDecides(house: House, roots: seq<string>)
    ensures StrictResolve(house, roots).Some? <==>
      Resolve(house, roots).Some? && AllDependenciesMet(Resolve(house, roots).value)
    ensures StrictResolve(house, roots).Some? ==> StrictResolve(house, roots) == Resolve(house, roots)
  {
    hide ParseRequirement, Satisfied, AddAll, StrictAddAll;
    if StrictResolve(house, roots).Some? {
      StrictIsAddAll(house, roots, INITIAL, map[]);
      StrictAllMeets(house, roots, INITIAL, map[]);
      var plan := Resolve(house, roots).value;
      assert map[] + plan.chosen == plan.chosen;
      forall name, raw | name in plan.chosen && raw in Deps(plan.chosen[name]) ensures ConstraintMet(plan, raw) {
        assert Met(map[] + plan.chosen, raw);
      }
    }
    if Resolve(house, roots).Some? && AllDependenciesMet(Resolve(house, roots).value) {
      var plan := Resolve(house, roots).value;
      PlanMeetsRoots(house, roots);
      forall raw | raw in roots ensures Met(plan.chosen, raw) {
        assert ConstraintMet(plan, raw);
      }
      forall name, raw | name in plan.chosen && raw in Deps(plan.chosen[name]) ensures Met(plan.chosen, raw) {
        assert ConstraintMet(plan, raw);
      }
      AddAllIsStrict(house, roots, INITIAL, map[], plan.chosen);
    }
  }

  // ---------- A condition on the wheelhouse ----------

  /** No dependency between candidates closes a cycle of names: each leads to a name of lower rank. */
  ghost predicate RankedHouse(house: House, rank: string -> nat) {
    forall name, w, raw | name in house && w in house[name] && raw in Deps(w) && ParseRequirement(raw).Some? ::
      rank(ParseRequirement(raw).value.name) < rank(name)
  }

  lemma {:induction false} FirstIsCandidate(r: Requirement, wheels: seq<Wheel>)
    ensures FirstSatisfying(r, wheels).Some? ==> FirstSatisfying(r, wheels).value in wheels
  {
    hide Satisfied;
    if wheels != [] { FirstIsCandidate(r, wheels[1..]); }
  }

  lemma ChosenIsCandidate(house: House, roots: seq<string>, name: string)
    requires Resolve(house, roots).Some? && name in Resolve(house, roots).value.chosen
    ensures name in house && Resolve(house, roots).value.chosen[name] in house[name]
  {
    hide ParseRequirement, Resolve, FirstSatisfying;
    ResolveKeeps(house, roots);
    var plan := Resolve(house, roots).value;
    var rootSet := set raw | raw in roots;
    assert ReasonKept(house, rootSet, plan, [], name);
    FirstIsCandidate(ParseRequirement(plan.reason[name]).value, house[name]);
  }

  lemma LinkDescends(house: House, roots: seq<string>, rank: string -> nat, from: string, to: string)
    requires RankedHouse(house, rank) && Resolve(house, roots).Some?
    requires from in Resolve(house, roots).value.chosen && Requires(Resolve(house, roots).value.chosen[from], to)
    ensures rank(to) < rank(from)
  {
    hide ParseRequirement, Resolve, Deps;
    ChosenIsCandidate(house, roots, from);
  }

  lemma {:induction false} ChainDescends(house: House, roots: seq<string>, rank: string -> nat, chain: seq<string>, i: nat)
    requires RankedHouse(house, rank) && Resolve(house, roots).Some?
    requires IsChain(Resolve(house, roots).value.chosen, chain) && i < |chain|
    ensures rank(chain[i]) <= rank(chain[0])
  {
    hide ParseRequirement, Resolve, Requires, RankedHouse;
    if i > 0 {
      ChainDescends(house, roots, rank, chain, i - 1);
      assert Link(Resolve(house, roots).value.chosen, chain[i - 1], chain[i]);
      LinkDescends(house, roots, rank, chain[i - 1], chain[i]);
    }
  }

  /** Over a wheelhouse without dependency cycles every successful plan meets every constraint. */
  lemma RankedHouseIsConsistent(house: House, roots: seq<string>, rank: string -> nat)
    requires RankedHouse(house, rank)
    ensures Resolve(house, roots).Some? ==> AllDependenciesMet(Resolve(house, roots).value)
  {
    hide ParseRequirement, Resolve, Requires, RankedHouse, AllDependenciesMet;
    if Resolve(house, roots).Some? {
      var plan := Resolve(house, roots).value;
      forall from, to | from in plan.chosen && Requires(plan.chosen[from], to) ensures !Reaches(plan.chosen, to, from) {
        LinkDescends(house, roots, rank, from, to);
        forall chain | Connects(plan.chosen, chain, to, from) ensures false {
          ChainDescends(house, roots, rank, chain, |chain| - 1);
        }
      }
      AcyclicPlanIsConsistent(house, roots);
    }
  }
}
