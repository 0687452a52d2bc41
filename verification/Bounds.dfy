/**
  Conservative bounds of a clause list.

  Each clause other than `!=`, `===` and a wildcard contributes a half-line below, above, or both.
  The fold keeps exactly the intersection of the half-lines (`LowerIsIntersection`,
  `UpperIsIntersection`), and a version that every clause admits lies inside, save for one family of
  versions with a local label that is characterised exactly (`UpperExact`).
*/
module Bounds {
  import opened Orders
  import opened Wrappers
  import opened Versions
  import opened Specifiers

  datatype Bound = Bound(version: Version, inclusive: bool)

  predicate AboveLower(k: Key, b: Option<Bound>) {
    b.Some? ==> if b.value.inclusive then Leq(b.value.version.key, k) else Versions.Lt(b.value.version.key, k)
  }

  predicate BelowUpper(k: Key, b: Option<Bound>) {
    b.Some? ==> if b.value.inclusive then Leq(k, b.value.version.key) else Versions.Lt(k, b.value.version.key)
  }

  /** The lower half-line a clause is read as. */
  function LowerOfClause(s: Specifier): Option<Bound> {
    if s.parsed.None? || s.wildcard then None
    else if s.op in {Eq, Ge, Gt, Compatible} then Some(Bound(s.parsed.value, s.op != Gt))
    else None
  }

  /** The upper half-line a clause is read as. */
  function UpperOfClause(s: Specifier): Option<Bound>
    requires ValidSpecifier(s)
  {
    if s.parsed.None? || s.wildcard then None
    else if s.op in {Eq, Le, Operator.Lt} then Some(Bound(s.parsed.value, s.op != Operator.Lt))
    else if s.op == Compatible then Some(Bound(CompatibleUpper(s.parsed.value), false))
    else None
  }

  function Raise(lower: Option<Bound>, b: Bound): Option<Bound> {
    if lower.None? || Versions.Lt(lower.value.version.key, b.version.key) then Some(b)
    else if b.version.key == lower.value.version.key then Some(Bound(b.version, lower.value.inclusive && b.inclusive))
    else lower
  }

  function Reduce(upper: Option<Bound>, b: Bound): Option<Bound> {
    if upper.None? || Versions.Lt(b.version.key, upper.value.version.key) then Some(b)
    else if b.version.key == upper.value.version.key then Some(Bound(b.version, upper.value.inclusive && b.inclusive))
    else upper
  }

  predicate AllValid(clauses: seq<Specifier>) {
    forall i :: 0 <= i < |clauses| ==> ValidSpecifier(clauses[i])
  }

  function LowerOf(clauses: seq<Specifier>): Option<Bound> {
    if clauses == [] then None
    else
      var rest, last := clauses[..|clauses| - 1], clauses[|clauses| - 1];
      match LowerOfClause(last)
      case None => LowerOf(rest)
      case Some(b) => Raise(LowerOf(rest), b)
  }

  function UpperOf(clauses: seq<Specifier>): Option<Bound>
    requires AllValid(clauses)
  {
    if clauses == [] then None
    else
      var rest, last := clauses[..|clauses| - 1], clauses[|clauses| - 1];
      match UpperOfClause(last)
      case None => UpperOf(rest)
      case Some(b) => Reduce(UpperOf(rest), b)
  }

  /** `_bounds_of`. */
  method BoundsOf(clauses: seq<Specifier>) returns (lower: Option<Bound>, upper: Option<Bound>)
    requires AllValid(clauses)
    ensures lower == LowerOf(clauses) && upper == UpperOf(clauses)
  {
    hide Versions.CmpKey, CompatibleUpper;
    lower, upper := None, None;
    for i := 0 to |clauses|
      invariant lower == LowerOf(clauses[..i]) && upper == UpperOf(clauses[..i])
    {
      var s := clauses[i];
      assert clauses[..i + 1][..i] == clauses[..i];
      if s.parsed.None? || s.wildcard {
        continue;
      }
      var parsed := s.parsed.value;
      if s.op in {Eq, Ge, Gt, Compatible} {
        var inclusive := s.op != Gt;
        if lower.None? || Versions.Lt(lower.value.version.key, parsed.key) {
          lower := Some(Bound(parsed, inclusive));
        } else if parsed.key == lower.value.version.key {
          lower := Some(Bound(parsed, lower.value.inclusive && inclusive));
        }
      }
      if s.op in {Eq, Le, Operator.Lt, Compatible} {
        var bound := if s.op == Compatible then CompatibleUpper(parsed) else parsed;
        var inclusive := s.op in {Eq, Le};
        if upper.None? || Versions.Lt(bound.key, upper.value.version.key) {
          upper := Some(Bound(bound, inclusive));
        } else if bound.key == upper.value.version.key {
          upper := Some(Bound(bound, upper.value.inclusive && inclusive));
        }
      }
    }
    assert clauses[..|clauses|] == clauses;
  }

  // ---------- The fold is the intersection of the half-lines ----------

  lemma RaiseIsIntersection(lower: Option<Bound>, b: Bound, k: Key)
    ensures AboveLower(k, Raise(lower, b)) <==> AboveLower(k, lower) && AboveLower(k, Some(b))
  {
    if lower.Some? {
      var a, c := lower.value.version.key, b.version.key;
      KeySymmetry(a, c);
      if Leq(a, c) && Leq(c, k) { KeyTransitive(a, c, k); }
      if Leq(c, a) && Leq(a, k) { KeyTransitive(c, a, k); }
    }
  }

  lemma ReduceIsIntersection(upper: Option<Bound>, b: Bound, k: Key)
    ensures BelowUpper(k, Reduce(upper, b)) <==> BelowUpper(k, upper) && BelowUpper(k, Some(b))
  {
    if upper.Some? {
      var a, c := upper.value.version.key, b.version.key;
      KeySymmetry(a, c);
      if Leq(k, a) && Leq(a, c) { KeyTransitive(k, a, c); }
      if Leq(k, c) && Leq(c, a) { KeyTransitive(k, c, a); }
    }
  }

  ghost predicate AboveAll(k: Key, clauses: seq<Specifier>) {
    forall i :: 0 <= i < |clauses| ==> AboveLower(k, LowerOfClause(clauses[i]))
  }

  ghost predicate BelowAll(k: Key, clauses: seq<Specifier>)
    requires AllValid(clauses)
  {
    forall i :: 0 <= i < |clauses| ==> BelowUpper(k, UpperOfClause(clauses[i]))
  }

  lemma Unbounded(k: Key)
    ensures AboveLower(k, None) && BelowUpper(k, None)
  {
  }

  lemma AboveAllLast(k: Key, rest: seq<Specifier>, last: Specifier)
    ensures AboveAll(k, rest + [last]) <==> AboveAll(k, rest) && AboveLower(k, LowerOfClause(last))
  {
    hide AboveLower, LowerOfClause;
    var all := rest + [last];
    assert all[|rest|] == last && forall i :: 0 <= i < |rest| ==> all[i] == rest[i];
  }

  lemma BelowAllLast(k: Key, rest: seq<Specifier>, last: Specifier)
    requires AllValid(rest + [last]) && AllValid(rest) && ValidSpecifier(last)
    ensures BelowAll(k, rest + [last]) <==> BelowAll(k, rest) && BelowUpper(k, UpperOfClause(last))
  {
    hide BelowUpper, UpperOfClause;
    var all := rest + [last];
    assert all[|rest|] == last && forall i :: 0 <= i < |rest| ==> all[i] == rest[i];
  }

  lemma {:induction false} LowerIsIntersection(clauses: seq<Specifier>, k: Key)
    ensures AboveLower(k, LowerOf(clauses)) <==> AboveAll(k, clauses)
  {
    hide AboveLower, Raise, LowerOfClause;
    Unbounded(k);
    if clauses != [] {
      var rest, last := clauses[..|clauses| - 1], clauses[|clauses| - 1];
      LowerIsIntersection(rest, k);
      if LowerOfClause(last).Some? {
        RaiseIsIntersection(LowerOf(rest), LowerOfClause(last).value, k);
      }
      assert clauses == rest + [last];
      hide AboveAll;
      AboveAllLast(k, rest, last);
    }
  }

  lemma {:induction false} UpperIsIntersection(clauses: seq<Specifier>, k: Key)
    requires AllValid(clauses)
    ensures BelowUpper(k, UpperOf(clauses)) <==> BelowAll(k, clauses)
  {
    hide BelowUpper, Reduce, UpperOfClause;
    Unbounded(k);
    if clauses != [] {
      var rest, last := clauses[..|clauses| - 1], clauses[|clauses| - 1];
      UpperIsIntersection(rest, k);
      if UpperOfClause(last).Some? {
        ReduceIsIntersection(UpperOf(rest), UpperOfClause(last).value, k);
      }
      assert clauses == rest + [last];
      hide BelowAll;
      BelowAllLast(k, rest, last);
    }
  }

  // ---------- Admitted versions lie inside ----------

  ghost predicate AdmittedByAll(clauses: seq<Specifier>, v: Version)
    requires AllValid(clauses)
  {
    forall i :: 0 <= i < |clauses| ==> Contains(clauses[i], v)
  }

  function WithoutLocal(k: Key): Key {
    k.(local := [])
  }

  lemma WithoutLocalLeq(k: Key)
    ensures Leq(WithoutLocal(k), k)
    ensures k.local != [] ==> Versions.Lt(WithoutLocal(k), k)
  {
    LeqSameRelease(WithoutLocal(k), k);
    LocalLeast(k.local);
  }

  lemma ClauseBounds(s: Specifier, v: Version)
    requires ValidSpecifier(s) && ValidVersion(v) && Contains(s, v)
    ensures AboveLower(v.key, LowerOfClause(s))
    ensures BelowUpper(WithoutLocal(v.key), UpperOfClause(s))
    ensures BelowUpper(v.key, UpperOfClause(s)) ||
      (s.op == Eq && v.key.local != [] && s.parsed.value.key == WithoutLocal(v.key))
  {
    hide CmpKey;
    WithoutLocalLeq(v.key);
    if s.parsed.Some? && !s.wildcard {
      var other := s.parsed.value;
      KeyTotalOrder();
      assert CmpKey(v.key, v.key) == Equal;
      if s.op == Compatible {
        CompatibleBelowUpper(v, other);
        KeyTransitive(WithoutLocal(v.key), v.key, CompatibleUpper(other).key);
      } else if (s.op == Operator.Lt || s.op == Le) {
        KeyTransitive(WithoutLocal(v.key), v.key, other.key);
      }
    }
  }

  /** Between the bounds of one clause are exactly the versions its operator compares as asked. */
  lemma ClauseInterval(s: Specifier, v: Version)
    requires ValidSpecifier(s) && ValidVersion(v)
    ensures var inside := AboveLower(v.key, LowerOfClause(s)) && BelowUpper(v.key, UpperOfClause(s));
      if s.op == Arbitrary || s.op == Ne || s.wildcard then inside
      else
        var p, operand := Decode(v), Decode(s.parsed.value);
        inside <==>
          if s.op == Ge then CmpParts(p, operand) != Less
          else if s.op == Gt then CmpParts(p, operand) == Greater
          else if s.op == Le then CmpParts(p, operand) != Greater
          else if s.op == Operator.Lt then CmpParts(p, operand) == Less
          else if s.op == Eq then CmpParts(p, operand) == Equal
          else CmpParts(p, operand) != Less && CmpParts(p, Decode(CompatibleUpper(s.parsed.value))) == Less
  {
    hide CmpKey, CmpParts, Decode, ValidVersion, CompatibleUpper;
    if s.parsed.Some? {
      CompareParts(v, s.parsed.value);
      if s.op == Compatible { CompareParts(v, CompatibleUpper(s.parsed.value)); }
    }
  }

  /**
    Every admitted version is above the lower bound, and below the upper bound once its local label
    is removed; in particular one without a label is between the bounds.
  */
  lemma {:induction false} BoundsConservative(clauses: seq<Specifier>, v: Version)
    requires AllValid(clauses) && ValidVersion(v) && AdmittedByAll(clauses, v)
    ensures AboveLower(v.key, LowerOf(clauses))
    ensures BelowUpper(WithoutLocal(v.key), UpperOf(clauses))
    ensures v.key.local == [] ==> BelowUpper(v.key, UpperOf(clauses))
  {
    hide Contains, AboveLower, BelowUpper;
    forall i | 0 <= i < |clauses|
      ensures AboveLower(v.key, LowerOfClause(clauses[i]))
      ensures BelowUpper(WithoutLocal(v.key), UpperOfClause(clauses[i]))
    {
      ClauseBounds(clauses[i], v);
    }
    LowerIsIntersection(clauses, v.key);
    UpperIsIntersection(clauses, WithoutLocal(v.key));
  }

  /** A clause `==V` whose operand has no local label. */
  predicate NamesPublic(s: Specifier) {
    s.op == Eq && !s.wildcard && s.parsed.Some? && s.parsed.value.key.local == []
  }

  predicate SomeNamesPublic(clauses: seq<Specifier>) {
    exists i :: 0 <= i < |clauses| && NamesPublic(clauses[i])
  }

  /** The one clause that admits versions above its half-line is `==V`, which admits V with any label. */
  lemma PublicClauseExceeded(s: Specifier, v: Version)
    requires ValidSpecifier(s) && ValidVersion(v) && Contains(s, v)
    ensures !BelowUpper(v.key, UpperOfClause(s)) <==> v.key.local != [] && NamesPublic(s)
  {
    hide CmpKey, Contains;
    ClauseBounds(s, v);
    if v.key.local != [] && NamesPublic(s) {
      EqMeaning(s, v);
      WithoutLocalLeq(v.key);
      KeySymmetry(WithoutLocal(v.key), v.key);
    }
  }

  /**
    An admitted version exceeds the upper bound exactly when it has a local label and some clause is
    `==V` with no label in V. The bound is then that public version, inclusive.
  */
  lemma {:induction false} UpperExact(clauses: seq<Specifier>, v: Version)
    requires AllValid(clauses) && ValidVersion(v) && AdmittedByAll(clauses, v)
    ensures !BelowUpper(v.key, UpperOf(clauses)) <==> v.key.local != [] && SomeNamesPublic(clauses)
    ensures !BelowUpper(v.key, UpperOf(clauses)) <==>
      && v.key.local != []
      && UpperOf(clauses).Some? && UpperOf(clauses).value.inclusive
      && UpperOf(clauses).value.version.key == WithoutLocal(v.key)
  {
    hide Contains, UpperOf, BelowUpper, NamesPublic, UpperOfClause;
    AboveOwnPublic(v, UpperOf(clauses));
    UpperIsIntersection(clauses, v.key);
    forall i | 0 <= i < |clauses|
      ensures !BelowUpper(v.key, UpperOfClause(clauses[i])) <==> v.key.local != [] && NamesPublic(clauses[i])
    {
      PublicClauseExceeded(clauses[i], v);
    }
    if !BelowUpper(v.key, UpperOf(clauses)) {
      var i :| 0 <= i < |clauses| && !BelowUpper(v.key, UpperOfClause(clauses[i]));
      ExceededBound(clauses, v, i);
    }
  }

  lemma AboveOwnPublic(v: Version, b: Option<Bound>)
    ensures v.key.local != [] && b.Some? && b.value.version.key == WithoutLocal(v.key) ==> !BelowUpper(v.key, b)
  {
    hide CmpKey;
    WithoutLocalLeq(v.key);
    KeySymmetry(WithoutLocal(v.key), v.key);
  }

  lemma {:induction false} ExceededBound(clauses: seq<Specifier>, v: Version, i: nat)
    requires AllValid(clauses) && ValidVersion(v) && AdmittedByAll(clauses, v) && i < |clauses|
    requires !BelowUpper(v.key, UpperOf(clauses)) && !BelowUpper(v.key, UpperOfClause(clauses[i]))
    ensures UpperOf(clauses).Some? && UpperOf(clauses).value.inclusive
    ensures UpperOf(clauses).value.version.key == WithoutLocal(v.key)
  {
    hide CmpKey, Contains, UpperOf;
    var base, u := WithoutLocal(v.key), UpperOf(clauses).value.version.key;
    WithoutLocalLeq(v.key);
    KeySymmetry(base, v.key);
    BoundsConservative(clauses, v);
    ClauseBounds(clauses[i], v);
    UpperAtMost(clauses, i);
    KeySymmetry(u, base);
  }

  /** The bound is not above the half-line of any clause. */
  lemma {:induction false} UpperAtMost(clauses: seq<Specifier>, i: nat)
    requires AllValid(clauses) && i < |clauses| && UpperOfClause(clauses[i]).Some?
    ensures UpperOf(clauses).Some?
    ensures Leq(UpperOf(clauses).value.version.key, UpperOfClause(clauses[i]).value.version.key)
  {
    hide CmpKey, Reduce, UpperOfClause;
    var rest, last := clauses[..|clauses| - 1], clauses[|clauses| - 1];
    var target := UpperOfClause(clauses[i]).value.version.key;
    if i < |rest| { UpperAtMost(rest, i); }
    if UpperOfClause(last).Some? {
      var b := UpperOfClause(last).value;
      ReduceAtMost(UpperOf(rest), b);
      if i < |rest| {
        KeyTransitive(UpperOf(clauses).value.version.key, UpperOf(rest).value.version.key, target);
      }
    }
  }

  lemma ReduceAtMost(upper: Option<Bound>, b: Bound)
    ensures Reduce(upper, b).Some? && Leq(Reduce(upper, b).value.version.key, b.version.key)
    ensures upper.Some? ==> Leq(Reduce(upper, b).value.version.key, upper.value.version.key)
  {
    hide CmpKey;
    KeySymmetry(b.version.key, b.version.key);
    if upper.Some? {
      KeySymmetry(upper.value.version.key, b.version.key);
      KeySymmetry(upper.value.version.key, upper.value.version.key);
    }
  }

  /** The family is not empty: `==1` admits `1+a`, which lies above the bound `1`. */
  lemma LocalAboveUpper()
    ensures var one := Encode(Parts(0, [1], None, None, None, []));
      var local := Encode(Parts(0, [1], None, None, None, [Word("a")]));
      var clauses := [Specifier(Eq, "1", Some(one), false)];
      && AllValid(clauses) && ValidVersion(local)
      && AdmittedByAll(clauses, local) && !BelowUpper(local.key, UpperOf(clauses))
  {
    var one := Encode(Parts(0, [1], None, None, None, []));
    var local := Encode(Parts(0, [1], None, None, None, [Word("a")]));
    var clauses := [Specifier(Eq, "1", Some(one), false)];
    assert clauses[..0] == [];
    EncodeDecode(Parts(0, [1], None, None, None, []));
    EncodeDecode(Parts(0, [1], None, None, None, [Word("a")]));
    assert ValidLocalPart(Word("a")) by {
      assert "a"[0] == 'a';
    }
    WithoutLocalLeq(local.key);
    KeySymmetry(one.key, local.key);
    assert UpperOf(clauses) == Some(Bound(one, true));
  }
}
