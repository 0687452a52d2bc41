/** The resolver on its mutable tables, and a plan whose cycle leaves a constraint unmet. */
module WheelhouseResolver {
  import opened Wrappers
  import opened Wheelhouse
  import opened Specifiers
  import FastVersions
  import Text
  import VersionText
  import WheelhousePlans

  class Resolver {
    const house: House
    var order: seq<string>
    var chosen: map<string, Wheel>
    var visiting: set<string>
    ghost var reason: map<string, string>

    ghost function Abstract(): State
      reads this
    {
      State(order, chosen, visiting, reason)
    }

    constructor (house: House)
      ensures this.house == house && Abstract() == INITIAL
    {
      this.house := house;
      order, chosen, visiting, reason := [], map[], {}, map[];
    }

    /** `add_requirement`: a true return leaves the tables in the state `Add` computes. */
    method AddRequirement(raw: string) returns (ok: bool)
      modifies this
      ensures ok <==> Add(house, raw, old(Abstract())).Some?
      ensures ok ==> Abstract() == Add(house, raw, old(Abstract())).value
      decreases |house.Keys - visiting|, 0
    {
      hide ParseRequirement, Satisfied, FirstSatisfying, AddAll;
      var requirement := ParseRequirement(raw);
      if requirement.None? {
        return false;
      }
      var r := requirement.value;
      if r.name in chosen {
        return Satisfied(r, chosen[r.name]);
      }
      if r.name in visiting {
        return true;
      }
      var candidates := if r.name in house then house[r.name] else [];
      var selected := Select(r, candidates);
      EmptyHasNone(r);
      if selected.None? {
        return false;
      }
      var w := selected.value;
      if w.metadata.None? || !w.metadata.value.pure {
        return false;
      }
      Wheelhouse.Visit(house, r.name, Abstract());
      visiting := visiting + {r.name};
      ok := AddEach(w.metadata.value.dependencies);
      if ok {
        visiting := visiting - {r.name};
        order, chosen, reason := order + [r.name], chosen[r.name := w], reason[r.name := raw];
      }
    }

    /** The loop over the dependencies of a wheel, and the loop over the requested roots. */
    method AddEach(raws: seq<string>) returns (ok: bool)
      modifies this
      ensures ok <==> AddAll(house, raws, old(Abstract())).Some?
      ensures ok ==> Abstract() == AddAll(house, raws, old(Abstract())).value
      decreases |house.Keys - visiting|, 1
    {
      hide Add;
      var i := 0;
      assert raws[0..] == raws;
      while i < |raws|
        invariant 0 <= i <= |raws|
        invariant visiting == old(visiting)
        invariant AddAll(house, raws, old(Abstract())) == AddAll(house, raws[i..], Abstract())
      {
        assert raws[i..][0] == raws[i] && raws[i..][1..] == raws[i + 1..];
        var added := AddRequirement(raws[i]);
        if !added {
          return false;
        }
        i := i + 1;
      }
      return true;
    }

    /** The plan in the order of the table, or `None` where the fast path declines. */
    method ResolveAll(requirements: seq<string>) returns (plan: Option<seq<Wheel>>)
      requires Abstract() == INITIAL
      modifies this
      ensures plan.Some? <==> Resolve(house, requirements).Some?
      ensures plan.Some? ==>
        && Abstract() == Resolve(house, requirements).value
        && |plan.value| == |order|
        && forall i :: 0 <= i < |order| ==> order[i] in chosen && plan.value[i] == chosen[order[i]]
    {
      var added := AddEach(requirements);
      if !added {
        return None;
      }
      WheelhousePlans.PlanMeetsRoots(house, requirements);
      var names, wheels := order, chosen;
      plan := Some(seq(|names|, k requires 0 <= k < |names| && names[k] in wheels => wheels[names[k]]));
    }
  }

  lemma {:induction false} EmptyHasNone(r: Requirement)
    ensures FirstSatisfying(r, []) == None
  {
  }

  /** `next(...)` over the candidates that satisfy the requirement. */
  method Select(r: Requirement, candidates: seq<Wheel>) returns (selected: Option<Wheel>)
    ensures selected == FirstSatisfying(r, candidates)
  {
    var i := 0;
    assert candidates[0..] == candidates;
    while i < |candidates|
      invariant 0 <= i <= |candidates|
      invariant FirstSatisfying(r, candidates) == FirstSatisfying(r, candidates[i..])
    {
      assert candidates[i..][0] == candidates[i] && candidates[i..][1..] == candidates[i + 1..];
      if Satisfied(r, candidates[i]) {
        return Some(candidates[i]);
      }
      i := i + 1;
    }
    selected := None;
  }

  // ---------- A cycle hides a constraint ----------

  lemma ParsesPlain(name: string)
    requires name == "a" || name == "b"
    ensures ParseRequirement(name) == Some(Requirement(name, None))
  {
    assert name[1..] == "" && "a"[0] == 'a' && "b"[0] == 'b';
    assert Text.Find(name, ";").None? && Text.Find(name, "[").None?;
    assert Text.Find(name, "==").None? && Text.Find(name, ">=").None? && Text.Find(name, "<=").None?;
    assert Text.Find(name, ">").None? && Text.Find(name, "<").None?;
    assert Text.Strip(name) == name;
    assert NormalizeName(name) == name;
  }

  lemma {:induction false} FindSkip(s: string, sub: string)
    requires s != "" && !(sub <= s)
    ensures Text.Find(s, sub) == if Text.Find(s[1..], sub).None? then None else Some(Text.Find(s[1..], sub).value + 1)
  {
  }

  lemma {:induction false} FindInPin(sub: string)
    requires sub in {";", "==", ">="}
    ensures Text.Find("a>=2", sub) == if sub == ">=" then Some(1) else None
  {
    var s0, s1, s2, s3 := "a>=2", ">=2", "=2", "2";
    assert s0[1..] == s1 && s1[1..] == s2 && s2[1..] == s3 && s3[1..] == "";
    assert s0[0] == 'a' && s1[0] == '>' && s2[0] == '=' && s2[1] == '2' && s3[0] == '2';
    assert ";"[0] == ';' && "=="[0] == '=' && "=="[1] == '=' && ">="[0] == '>';
    FindSkip(s0, sub);
    if sub != ">=" {
      FindSkip(s1, sub);
      FindSkip(s2, sub);
      FindSkip(s3, sub);
    } else {
      assert sub <= s1;
    }
  }

  lemma ParsesPin()
    ensures ParseRequirement("a>=2") == Some(Requirement("a", Some(Constraint(Ge, [2]))))
  {
    hide Text.Find;
    FindInPin(";");
    FindInPin("==");
    FindInPin(">=");
    var s := "a>=2";
    assert Text.Strip(s) == s by { assert s[0] == 'a' && s[3] == '2'; }
    assert s[1 + 2..] == "2" && s[..1] == "a";
    KeyOfDigit('2');
    ProjectA();
  }

  lemma KeyOfDigit(d: char)
    requires Text.IsDigit(d)
    ensures Text.Strip([d]) == [d] && FastVersions.VersionKey([d]) == Some([Text.DigitValue(d)])
  {
    assert [d][1..] == "" && [d][..0] == "";
    Text.SplitPrefix({'.'}, [d], "");
    assert [d] + "" == [d];
    assert Text.NatValue([d]) == Text.DigitValue(d);
    assert VersionText.Numbers([[d]]) == [Text.DigitValue(d)];
  }

  lemma ProjectA()
    ensures ProjectName("a") == "a"
  {
    assert "a"[1..] == "" && "a"[0] == 'a';
    assert Text.Find("a", "[").None?;
    assert NormalizeName("a") == "a";
  }

  /**
    Wheel `a` needs `b`, which needs another `a` than the one found: the requirement is met by the
    wheel being visited, so it is never checked and the plan is accepted.
  */
  lemma CycleHidesConstraint()
    ensures var a := Wheel("a", "1", "a.whl", Some(Metadata(["b"], true)));
      var b := Wheel("b", "1", "b.whl", Some(Metadata(["a>=2"], true)));
      var plan := Resolve(map["a" := [a], "b" := [b]], ["a"]);
      && plan.Some? && plan.value.chosen == map["a" := a, "b" := b]
      && !WheelhousePlans.ConstraintMet(plan.value, "a>=2")
  {
    hide ParseRequirement, FastVersions.VersionKey;
    ParsesPlain("a");
    ParsesPlain("b");
    ParsesPin();
    KeyOfDigit('1');
    var a := Wheel("a", "1", "a.whl", Some(Metadata(["b"], true)));
    var b := Wheel("b", "1", "b.whl", Some(Metadata(["a>=2"], true)));
    var house := map["a" := [a], "b" := [b]];
    var onA := INITIAL.(visiting := {"a"});
    var onB := INITIAL.(visiting := {"a", "b"});
    assert "a"[0] != "b"[0];
    assert FirstSatisfying(Requirement("a", None), [a]) == Some(a);
    assert FirstSatisfying(Requirement("b", None), [b]) == Some(b);
    Single(house, "a>=2", onB);
    assert onA.visiting + {"b"} == onB.visiting;
    assert Add(house, "b", onA) == Some(Close(onB, "b", b, "b"));
    Single(house, "b", onA);
    assert INITIAL.visiting + {"a"} == onA.visiting;
    Single(house, "a", INITIAL);
  }

  /**
    The search does not go back: it declines because the newest `a` needs a project that is not there,
    although the older `a` alone would meet the root and needs nothing.
  */
  lemma NewestDeclines()
    ensures var newest := Wheel("a", "2", "a-2.whl", Some(Metadata(["b"], true)));
      var older := Wheel("a", "1", "a-1.whl", Some(Metadata([], true)));
      var plan := INITIAL.(order := ["a"], chosen := map["a" := older]);
      && Resolve(map["a" := [newest, older]], ["a"]) == None
      && WheelhousePlans.RootsSatisfied(plan, ["a"]) && WheelhousePlans.AllDependenciesMet(plan)
  {
    hide ParseRequirement;
    ParsesPlain("a");
    ParsesPlain("b");
    var newest := Wheel("a", "2", "a-2.whl", Some(Metadata(["b"], true)));
    var older := Wheel("a", "1", "a-1.whl", Some(Metadata([], true)));
    var house := map["a" := [newest, older]];
    assert "a"[0] != "b"[0];
    assert FirstSatisfying(Requirement("a", None), [newest, older]) == Some(newest);
    var onA := INITIAL.(visiting := {"a"});
    assert INITIAL.visiting + {"a"} == onA.visiting;
    Single(house, "b", onA);
    assert Add(house, "b", onA) == None;
    Single(house, "a", INITIAL);
  }

  lemma {:induction false} Single(house: House, raw: string, st: State)
    ensures AddAll(house, [raw], st) == Add(house, raw, st)
  {
    hide Add;
    assert [raw][1..] == [];
  }
}
