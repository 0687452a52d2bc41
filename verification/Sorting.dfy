/** Stable sorting, as `list.sort` promises it. */
module Sorting {

  /** `before(x, y)`: `x` may stand to the left of `y`; a total preorder. */
  ghost predicate TotalPreorder<T(!new)>(before: (T, T) -> bool) {
    && (forall x, y :: before(x, y) || before(y, x))
    && (forall x, y, z :: before(x, y) && before(y, z) ==> before(x, z))
  }

  function Insert<T>(before: (T, T) -> bool, x: T, s: seq<T>): seq<T> {
    if s == [] then [x]
    else if before(x, s[0]) then [x] + s
    else [s[0]] + Insert(before, x, s[1..])
  }

  function Sort<T>(before: (T, T) -> bool, s: seq<T>): seq<T> {
    if s == [] then [] else Insert(before, s[0], Sort(before, s[1..]))
  }

  ghost predicate Sorted<T>(before: (T, T) -> bool, s: seq<T>) {
    forall i, j :: 0 <= i < j < |s| ==> before(s[i], s[j])
  }

  lemma {:induction false} InsertSpec<T(!new)>(before: (T, T) -> bool, x: T, s: seq<T>)
    requires TotalPreorder(before) && Sorted(before, s)
    ensures multiset(Insert(before, x, s)) == multiset{x} + multiset(s)
    ensures Sorted(before, Insert(before, x, s))
  {
    if s != [] {
      assert s == [s[0]] + s[1..];
      if before(x, s[0]) {
        FirstBefore(before, x, s);
      } else {
        InsertSpec(before, x, s[1..]);
        InsertedAfter(before, x, s);
      }
    }
  }

  lemma FirstBefore<T(!new)>(before: (T, T) -> bool, x: T, s: seq<T>)
    requires TotalPreorder(before) && Sorted(before, s) && s != [] && before(x, s[0])
    ensures Sorted(before, [x] + s)
  {
  }

  lemma InsertedAfter<T(!new)>(before: (T, T) -> bool, x: T, s: seq<T>)
    requires TotalPreorder(before) && Sorted(before, s) && s != [] && !before(x, s[0])
    requires var rest := Insert(before, x, s[1..]); Sorted(before, rest) && multiset(rest) == multiset{x} + multiset(s[1..])
    ensures Sorted(before, [s[0]] + Insert(before, x, s[1..]))
  {
    var rest := Insert(before, x, s[1..]);
    forall j | 0 <= j < |rest| ensures before(s[0], rest[j]) {
      assert rest[j] in multiset(rest);
      if rest[j] in s[1..] {
        var i :| 0 <= i < |s[1..]| && s[1..][i] == rest[j];
        assert s[i + 1] == rest[j];
      }
    }
  }

  /** The result is sorted and has the same elements. */
  lemma {:induction false} SortSpec<T(!new)>(before: (T, T) -> bool, s: seq<T>)
    requires TotalPreorder(before)
    ensures multiset(Sort(before, s)) == multiset(s)
    ensures Sorted(before, Sort(before, s))
  {
    if s != [] {
      SortSpec(before, s[1..]);
      InsertSpec(before, s[0], Sort(before, s[1..]));
      assert s == [s[0]] + s[1..];
    }
  }

  predicate Tied<T>(before: (T, T) -> bool, x: T, y: T) {
    before(x, y) && before(y, x)
  }

  function TiedWith<T>(before: (T, T) -> bool, x: T, s: seq<T>): seq<T> {
    if s == [] then []
    else (if Tied(before, x, s[0]) then [s[0]] else []) + TiedWith(before, x, s[1..])
  }

  lemma {:induction false} InsertStable<T(!new)>(before: (T, T) -> bool, x: T, s: seq<T>, y: T)
    requires TotalPreorder(before)
    ensures TiedWith(before, y, Insert(before, x, s)) == TiedWith(before, y, [x] + s)
  {
    if s != [] && !before(x, s[0]) {
      InsertStable(before, x, s[1..], y);
      var rest := Insert(before, x, s[1..]);
      assert ([s[0]] + rest)[1..] == rest;
      assert ([x] + s)[1..] == s && ([x] + s[1..])[1..] == s[1..];
      assert !(Tied(before, y, x) && Tied(before, y, s[0]));
    } else if s == [] {
      assert [x] + s == [x];
    }
  }

  /** Elements that may stand either way keep their order; with `SortSpec` this determines the result. */
  lemma {:induction false} SortStable<T(!new)>(before: (T, T) -> bool, s: seq<T>, y: T)
    requires TotalPreorder(before)
    ensures TiedWith(before, y, Sort(before, s)) == TiedWith(before, y, s)
  {
    if s != [] {
      SortStable(before, s[1..], y);
      InsertStable(before, s[0], Sort(before, s[1..]), y);
      var t := Sort(before, s[1..]);
      assert ([s[0]] + t)[1..] == t;
    }
  }
}
