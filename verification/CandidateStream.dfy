/**
  A replayable stream that materializes candidates on demand, checked against the eager list.

  `full` is everything the source will ever yield and `ending` how it ends. Whatever is asked of the
  stream, the materialized items followed by what the source still holds are `full`.
*/
module CandidateStream {
  import opened Wrappers
  import opened Sequences

  datatype Ending = Ends | Fails(error: string)

  datatype Result<+R> = Ok(value: R) | Raised(error: string) | IndexError | ZeroStep

  // ---------- Python sequences ----------

  function Index<T>(s: seq<T>, index: int): Option<T> {
    if 0 <= index < |s| then Some(s[index])
    else if -|s| <= index < 0 then Some(s[|s| + index])
    else None
  }

  function Clamp(value: int, low: int, high: int): int {
    if value < low then low else if value > high then high else value
  }

  /** A slice bound on a sequence of length `n`; `low` and `high` are the extremes for the direction. */
  function Bound(value: Option<int>, default: int, n: nat, low: int, high: int): int {
    match value
    case None => default
    case Some(v) => if v < 0 then Clamp(v + n, low, high) else Clamp(v, low, high)
  }

  function Upwards<T>(s: seq<T>, from: nat, to: nat, step: nat): seq<T>
    requires to <= |s| && 0 < step
    decreases if from < to then to - from else 0
  {
    if from >= to then [] else [s[from]] + Upwards(s, from + step, to, step)
  }

  function Downwards<T>(s: seq<T>, from: int, to: int, step: nat): seq<T>
    requires -1 <= to && from < |s| && 0 < step
    decreases if to < from then from - to else 0
  {
    if from <= to then [] else [s[from]] + Downwards(s, from - step, to, step)
  }

  /** `s[start:stop:step]` for a nonzero step. */
  function Slice<T>(s: seq<T>, start: Option<int>, stop: Option<int>, step: int): seq<T>
    requires step != 0
  {
    var n := |s|;
    if step > 0 then Upwards(s, Bound(start, 0, n, 0, n), Bound(stop, n, n, 0, n), step)
    else Downwards(s, Bound(start, n - 1, n, -1, n - 1), Bound(stop, -1, n, -1, n - 1), -step)
  }

  /** Counted from the left from 0, counted from the right from 1. */
  lemma IndexMeans<T>(s: seq<T>, k: int)
    requires 0 <= k
    ensures Index(s, k) == if k < |s| then Some(s[k]) else None
    ensures 0 < k ==> Index(s, -k) == if k <= |s| then Some(s[|s| - k]) else None
  {
  }

  lemma {:induction false} UpwardsItem<T>(s: seq<T>, from: nat, to: nat, step: nat, m: nat)
    requires to <= |s| && 0 < step
    ensures m < |Upwards(s, from, to, step)| <==> from + m * step < to
    ensures from + m * step < to ==> Upwards(s, from, to, step)[m] == s[from + m * step]
    decreases m
  {
    if from < to && m > 0 {
      UpwardsItem(s, from + step, to, step, m - 1);
      assert from + step + (m - 1) * step == from + m * step;
    } else if from >= to {
      assert m * step >= 0;
    }
  }

  lemma {:induction false} DownwardsItem<T>(s: seq<T>, from: int, to: int, step: nat, m: nat)
    requires -1 <= to && from < |s| && 0 < step
    ensures m < |Downwards(s, from, to, step)| <==> from - m * step > to
    ensures from - m * step > to ==> from - m * step < |s| && Downwards(s, from, to, step)[m] == s[from - m * step]
    decreases m
  {
    if from > to && m > 0 {
      DownwardsItem(s, from - step, to, step, m - 1);
      assert from - step - (m - 1) * step == from - m * step;
    } else if from <= to {
      assert m * step >= 0;
    }
  }

  /** `bound` counted from the right if negative, then no less than `low` and no more than `high`. */
  ghost predicate Reaches(bound: int, n: nat, low: int, high: int, place: int) {
    var wanted := if bound < 0 then n + bound else bound;
    low <= place <= high && (place < wanted ==> place == high) && (place > wanted ==> place == low)
  }

  /** An upward slice holds the items `step` apart from its start up to its stop. */
  lemma SliceUpwards<T>(s: seq<T>, start: Option<int>, stop: Option<int>, step: int, i: nat, j: nat, m: nat)
    requires 0 < step
    requires if start.None? then i == 0 else Reaches(start.value, |s|, 0, |s|, i)
    requires if stop.None? then j == |s| else Reaches(stop.value, |s|, 0, |s|, j)
    ensures m < |Slice(s, start, stop, step)| <==> i + m * step < j
    ensures i + m * step < j ==> Slice(s, start, stop, step)[m] == s[i + m * step]
  {
    UpwardsItem(s, i, j, step, m);
  }

  /** A downward slice starts at the last item unless told otherwise, and may stop before the first. */
  lemma SliceDownwards<T>(s: seq<T>, start: Option<int>, stop: Option<int>, step: int, i: int, j: int, m: nat)
    requires 0 < step
    requires if start.None? then i == |s| - 1 else Reaches(start.value, |s|, -1, |s| - 1, i)
    requires if stop.None? then j == -1 else Reaches(stop.value, |s|, -1, |s| - 1, j)
    ensures m < |Slice(s, start, stop, -step)| <==> i - m * step > j
    ensures i - m * step > j ==> i - m * step < |s| && Slice(s, start, stop, -step)[m] == s[i - m * step]
  {
    DownwardsItem(s, i, j, step, m);
  }

  lemma {:induction false} UpwardsPrefix<T>(p: seq<T>, s: seq<T>, from: nat, to: nat, step: nat)
    requires p <= s && to <= |p| && 0 < step
    ensures Upwards(p, from, to, step) == Upwards(s, from, to, step)
    decreases if from < to then to - from else 0
  {
    if from < to {
      var next := from + step;
      UpwardsPrefix(p, s, next, to, step);
      assert Upwards(p, from, to, step) == [p[from]] + Upwards(p, next, to, step);
    }
  }

  lemma {:induction false} UpwardsEmpty<T>(s: seq<T>, from: nat, to: nat, step: nat)
    requires to <= |s| && 0 < step && to <= from
    ensures Upwards(s, from, to, step) == []
  {
  }

  /** A forward slice with nonnegative bounds is decided by the items before its stop. */
  lemma SliceOfPrefix<T>(p: seq<T>, s: seq<T>, start: Option<int>, stop: int, step: int)
    requires p <= s && (stop <= |p| || p == s)
    requires 0 <= stop && (start.Some? ==> 0 <= start.value) && 0 < step
    ensures Slice(p, start, Some(stop), step) == Slice(s, start, Some(stop), step)
  {
    if stop <= |p| {
      var from := Bound(start, 0, |s|, 0, |s|);
      var from' := Bound(start, 0, |p|, 0, |p|);
      UpwardsPrefix(p, s, from', stop, step);
      if from != from' {
        UpwardsEmpty(s, from, stop, step);
        UpwardsEmpty(s, from', stop, step);
      }
    }
  }

  /** What preferring yields in the end: the kept ones if any is decisive, else everything. */
  function Preferred<T>(keep: T -> bool, decisive: T -> bool, s: seq<T>): seq<T> {
    if Any(decisive, s) then Filter(keep, s) else s
  }

  /** What has been yielded once the prefix `s` was consumed. */
  function PreferredSoFar<T>(keep: T -> bool, decisive: T -> bool, s: seq<T>): seq<T> {
    if Any(decisive, s) then Filter(keep, s) else []
  }

  /** With the default test, preferring loses everything only when there was nothing. */
  lemma PreferredNonempty<T>(keep: T -> bool, s: seq<T>)
    ensures Preferred(keep, keep, s) == [] <==> s == []
  {
    FilterNonempty(keep, s);
  }

  // ---------- The stream ----------

  class Stream<T> {
    ghost const full: seq<T>
    const ending: Ending
    var source: seq<T>
    var items: seq<T>
    var exhausted: bool
    var error: Option<string>

    /** Materialized items followed by the rest of the source are the eager list. */
    ghost predicate Valid()
      reads this
    {
      && items + source == full
      && (exhausted ==> source == [] && ending == Ends && error.None?)
      && (error.Some? ==> source == [] && ending == Fails(error.value))
    }

    constructor (source: seq<T>, ending: Ending)
      ensures Valid() && full == source && this.ending == ending && items == []
    {
      this.full, this.ending, this.source := source, ending, source;
      items, exhausted, error := [], false, None;
    }

    /** `advance`: one more item if there is one. */
    method Advance() returns (r: Result<bool>)
      requires Valid()
      modifies this
      ensures Valid()
      ensures if |old(items)| < |full| then r == Ok(true) && items == full[..|old(items)| + 1]
              else items == full && r == if ending.Fails? then Raised(ending.error) else Ok(false)
    {
      if error.Some? {
        return Raised(error.value);
      }
      if exhausted {
        return Ok(false);
      }
      if source == [] {
        match ending {
          case Ends =>
            exhausted := true;
            return Ok(false);
          case Fails(e) =>
            error := Some(e);
            return Raised(e);
        }
      }
      items := items + [source[0]];
      source := source[1..];
      return Ok(true);
    }

    /** The next item for an iteration that has yielded `position` items; `Ok(None)` where it ends. */
    method Next(position: nat) returns (r: Result<Option<T>>)
      requires Valid() && position <= |items|
      modifies this
      ensures Valid()
      ensures if position < |full| then r == Ok(Some(full[position])) else r == if ending.Fails? then Raised(ending.error) else Ok(None)
      ensures items == full[..if position < |full| && position == |old(items)| then position + 1 else |old(items)|]
    {
      if position < |items| {
        return Ok(Some(items[position]));
      }
      var more := Advance();
      if more.Raised? {
        return Raised(more.error);
      }
      return Ok(if more.value then Some(items[position]) else None);
    }

    /** A lone iteration, abandoned after `limit` items: it replays the list from its start. */
    method Iterate(limit: nat) returns (yielded: seq<T>, end: Option<Result<()>>)
      requires Valid()
      modifies this
      ensures Valid()
      ensures yielded == full[..if limit < |full| then limit else |full|]
      ensures limit <= |full| <==> end.None?
      ensures end.Some? ==> end.value == if ending.Fails? then Raised(ending.error) else Ok(())
      ensures items == full[..if |yielded| > |old(items)| then |yielded| else |old(items)|]
    {
      yielded := [];
      while |yielded| < limit
        invariant Valid()
        invariant |yielded| <= limit && |yielded| <= |full| && yielded == full[..|yielded|]
        invariant items == full[..if |yielded| > |old(items)| then |yielded| else |old(items)|]
        decreases limit - |yielded|
      {
        var r := Next(|yielded|);
        if r.Raised? {
          return yielded, Some(Raised(r.error));
        }
        if r.value.None? {
          return yielded, Some(Ok(()));
        }
        yielded := yielded + [r.value.value];
      }
      end := None;
    }

    /** `len`: materializes everything. */
    method Length() returns (r: Result<nat>)
      requires Valid()
      modifies this
      ensures Valid() && items == full
      ensures r == if ending.Fails? then Raised(ending.error) else Ok(|full|)
    {
      while true
        invariant Valid()
        decreases |full| - |items|
      {
        var more := Advance();
        if more.Raised? {
          return Raised(more.error);
        }
        if !more.value {
          return Ok(|items|);
        }
      }
    }

    /** `bool`: looks at one item at most. */
    method NonEmpty() returns (r: Result<bool>)
      requires Valid()
      modifies this
      ensures Valid()
      ensures r == if full != [] then Ok(true) else if ending.Fails? then Raised(ending.error) else Ok(false)
      ensures |items| <= |old(items)| + 1
    {
      if items != [] {
        return Ok(true);
      }
      r := Advance();
    }

    /** Indexing agrees with the eager list; an unreadable rest matters only if it is needed. */
    method GetIndex(index: int) returns (r: Result<T>)
      requires Valid()
      modifies this
      ensures Valid()
      ensures r ==
        if ending.Fails? && (index < 0 || index >= |full|) then Raised(ending.error)
        else if Index(full, index).Some? then Ok(Index(full, index).value)
        else IndexError
    {
      if index < 0 {
        var n := Length();
        if n.Raised? {
          return Raised(n.error);
        }
      } else {
        var more := MaterializeBeyond(index + 1);
        if more.Raised? {
          return Raised(more.error);
        }
      }
      var found := Index(items, index);
      return if found.Some? then Ok(found.value) else IndexError;
    }

    /** Advance until there are `wanted` items or no more. */
    method MaterializeBeyond(wanted: nat) returns (r: Result<()>)
      requires Valid()
      modifies this
      ensures Valid() && items <= full
      ensures if wanted <= |full| then r == Ok(()) && wanted <= |items|
              else items == full && r == if ending.Fails? then Raised(ending.error) else Ok(())
    {
      while |items| < wanted
        invariant Valid()
        decreases |full| - |items|
      {
        var more := Advance();
        if more.Raised? {
          return Raised(more.error);
        }
        if !more.value {
          return Ok(());
        }
      }
      return Ok(());
    }

    /** Slicing agrees with the eager list, reading only up to the stop where that suffices. */
    method GetSlice(start: Option<int>, stop: Option<int>, step: Option<int>) returns (r: Result<seq<T>>)
      requires Valid()
      modifies this
      ensures Valid()
      ensures
        var all := stop.None? || (start.Some? && start.value < 0) || stop.value < 0 || (step.Some? && step.value < 0);
        r ==
          if ending.Fails? && (all || stop.value > |full|) then Raised(ending.error)
          else if step == Some(0) then ZeroStep
          else Ok(Slice(full, start, stop, if step.Some? then step.value else 1))
    {
      if stop.None? || (start.Some? && start.value < 0) || stop.value < 0 || (step.Some? && step.value < 0) {
        var n := Length();
        if n.Raised? {
          return Raised(n.error);
        }
      } else {
        var more := MaterializeBeyond(stop.value);
        if more.Raised? {
          return Raised(more.error);
        }
        if step != Some(0) {
          SliceOfPrefix(items, full, start, stop.value, if step.Some? then step.value else 1);
        }
      }
      if step == Some(0) {
        return ZeroStep;
      }
      return Ok(Slice(items, start, stop, if step.Some? then step.value else 1));
    }

    /**
      The generator behind `prefer`, run over a lone iteration of the stream until it has consumed
      `limit` items or the stream has ended. Before a decisive item nothing is yielded; from it on,
      what is kept.
    */
    method Prefer(keep: T -> bool, decisive: T -> bool, limit: nat) returns (yielded: seq<T>, end: Option<Result<()>>)
      requires Valid()
      modifies this
      ensures Valid()
      ensures limit <= |full| <==> end.None?
      ensures limit <= |full| ==> yielded == PreferredSoFar(keep, decisive, full[..limit])
      ensures end == Some(Ok(())) ==> yielded == Preferred(keep, decisive, full)
      ensures end.Some? && end.value.Raised? ==> yielded == PreferredSoFar(keep, decisive, full)
      ensures end.Some? ==> end.value == if ending.Fails? then Raised(ending.error) else Ok(())
    {
      hide Any, Filter, PreferredSoFar;
      yielded := [];
      var buffered: seq<T> := [];
      var found := false;
      var n := 0;
      PreferNothing(keep, decisive);
      while n < limit
        invariant Valid() && n <= limit && n <= |full| && n <= |items|
        invariant found == Any(decisive, full[..n])
        invariant !found ==> buffered == full[..n]
        invariant yielded == PreferredSoFar(keep, decisive, full[..n])
        decreases limit - n
      {
        var r := Next(n);
        if r.Raised? {
          assert full[..n] == full;
          return yielded, Some(Raised(r.error));
        }
        if r.value.None? {
          assert full[..n] == full;
          PreferAtEnd(keep, decisive, full);
          if !found {
            yielded := yielded + buffered;
          }
          return yielded, Some(Ok(()));
        }
        var candidate := r.value.value;
        assert full[..n + 1] == full[..n] + [candidate];
        PreferNext(keep, decisive, full[..n], candidate);
        if found {
          if keep(candidate) {
            yielded := yielded + [candidate];
          }
        } else {
          buffered := buffered + [candidate];
          if decisive(candidate) {
            found := true;
            var kept := KeepAll(keep, buffered);
            yielded := yielded + kept;
            buffered := [];
          }
        }
        n := n + 1;
      }
      end := None;
    }
  }

  lemma PreferNothing<T>(keep: T -> bool, decisive: T -> bool)
    ensures !Any(decisive, []) && PreferredSoFar(keep, decisive, []) == []
  {
  }

  lemma PreferAtEnd<T>(keep: T -> bool, decisive: T -> bool, s: seq<T>)
    ensures Preferred(keep, decisive, s) == if Any(decisive, s) then PreferredSoFar(keep, decisive, s) else s
    ensures !Any(decisive, s) ==> PreferredSoFar(keep, decisive, s) == []
  {
  }

  /** How one more item changes what has been yielded. */
  lemma {:induction false} PreferNext<T>(keep: T -> bool, decisive: T -> bool, s: seq<T>, x: T)
    ensures Any(decisive, s + [x]) <==> Any(decisive, s) || decisive(x)
    ensures PreferredSoFar(keep, decisive, s + [x]) ==
      if Any(decisive, s) then PreferredSoFar(keep, decisive, s) + (if keep(x) then [x] else [])
      else if decisive(x) then Filter(keep, s + [x])
      else []
    ensures !Any(decisive, s) ==> PreferredSoFar(keep, decisive, s) == []
  {
    AnyLast(decisive, s, x);
    FilterLast(keep, s, x);
    hide Any, Filter;
  }

  method KeepAll<T>(keep: T -> bool, buffered: seq<T>) returns (kept: seq<T>)
    ensures kept == Filter(keep, buffered)
  {
    kept := [];
    for i := 0 to |buffered|
      invariant kept == Filter(keep, buffered[..i])
    {
      assert buffered[..i + 1] == buffered[..i] + [buffered[i]];
      FilterLast(keep, buffered[..i], buffered[i]);
      if keep(buffered[i]) {
        kept := kept + [buffered[i]];
      }
    }
    assert buffered[..|buffered|] == buffered;
  }
}
