/** Filtering sequences. */
module Sequences {

  function Filter<T>(keep: T -> bool, s: seq<T>): seq<T> {
    if s == [] then []
    else Filter(keep, s[..|s| - 1]) + (if keep(s[|s| - 1]) then [s[|s| - 1]] else [])
  }

  predicate Distinct<T(==)>(s: seq<T>) {
    forall i, j :: 0 <= i < j < |s| ==> s[i] != s[j]
  }

  predicate Any<T>(p: T -> bool, s: seq<T>) {
    exists i :: 0 <= i < |s| && p(s[i])
  }

  lemma AnyLast<T>(p: T -> bool, s: seq<T>, x: T)
    ensures Any(p, s + [x]) <==> Any(p, s) || p(x)
  {
    var more := s + [x];
    if Any(p, s) {
      var i :| 0 <= i < |s| && p(s[i]);
      assert p(more[i]);
    }
    if p(x) { assert p(more[|s|]); }
    forall i | 0 <= i < |s| ensures more[i] == s[i] { }
  }

  lemma {:induction false} FilterLast<T>(keep: T -> bool, s: seq<T>, x: T)
    ensures Filter(keep, s + [x]) == Filter(keep, s) + (if keep(x) then [x] else [])
  {
    assert (s + [x])[..|s|] == s;
  }

  /** `a` is `b` with some elements left out: `places` says where its elements stand in `b`. */
  ghost predicate TakenFrom<T(!new)>(a: seq<T>, b: seq<T>, places: seq<nat>) {
    && |places| == |a|
    && (forall i :: 0 <= i < |a| ==> places[i] < |b| && a[i] == b[places[i]])
    && (forall i, j :: 0 <= i < j < |a| ==> places[i] < places[j])
  }

  ghost predicate Subsequence<T(!new)>(a: seq<T>, b: seq<T>) {
    exists places :: TakenFrom(a, b, places)
  }

  /** A filter keeps the order, keeps what satisfies the test, and keeps nothing else. */
  lemma {:induction false} FilterSpec<T(!new)>(keep: T -> bool, s: seq<T>) returns (places: seq<nat>)
    ensures TakenFrom(Filter(keep, s), s, places)
    ensures forall x :: x in Filter(keep, s) <==> x in s && keep(x)
  {
    if s == [] {
      places := [];
    } else {
      var front, last := s[..|s| - 1], s[|s| - 1];
      places := FilterSpec(keep, front);
      assert s == front + [last];
      if keep(last) { places := places + [|front|]; }
    }
  }

  lemma {:induction false} FilterNonempty<T>(keep: T -> bool, s: seq<T>)
    ensures Filter(keep, s) != [] <==> Any(keep, s)
  {
    if s != [] {
      var front, last := s[..|s| - 1], s[|s| - 1];
      FilterNonempty(keep, front);
      assert s == front + [last];
      AnyLast(keep, front, last);
    }
  }

  lemma {:induction false} FilterShrinks<T>(keep: T -> bool, s: seq<T>)
    ensures |Filter(keep, s)| <= |s|
  {
    if s != [] { FilterShrinks(keep, s[..|s| - 1]); }
  }

  lemma FilterNothing<T>(keep: T -> bool)
    ensures Filter(keep, []) == []
  {
  }

  lemma {:induction false} FilterCongruent<T>(f: T -> bool, g: T -> bool, s: seq<T>)
    requires forall x :: x in s ==> f(x) == g(x)
    ensures Filter(f, s) == Filter(g, s)
  {
    if s != [] {
      assert s == s[..|s| - 1] + [s[|s| - 1]];
      FilterCongruent(f, g, s[..|s| - 1]);
    }
  }

  lemma WholeIsSubsequence<T(!new)>(s: seq<T>)
    ensures Subsequence(s, s)
  {
    var places: seq<nat> := seq(|s|, i => i);
    assert TakenFrom(s, s, places);
  }

  lemma SubsequenceTransitive<T(!new)>(a: seq<T>, b: seq<T>, c: seq<T>)
    requires Subsequence(a, b) && Subsequence(b, c)
    ensures Subsequence(a, c)
  {
    var p :| TakenFrom(a, b, p);
    var q :| TakenFrom(b, c, q);
    var r: seq<nat> := seq(|a|, i requires 0 <= i < |p| && p[i] < |q| => q[p[i]]);
    assert TakenFrom(a, c, r);
  }
}
