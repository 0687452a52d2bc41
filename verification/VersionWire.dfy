/** The plain-tuple records cached summaries store for a version, and the shape check readers apply. */
module VersionWire {
  import opened Orders
  import opened Wrappers
  import opened Versions
  import VersionText

  /** The unmarshalled values a reader may meet. `Bool` is a number to `==` but not to `type(x) is int`. */
  datatype Obj = Null | Bool(truth: bool) | Int(number: int) | Str(text: string) | Tuple(items: seq<Obj>)

  function Ints(numbers: seq<int>): Obj {
    Tuple(seq(|numbers|, i requires 0 <= i < |numbers| => Int(numbers[i])))
  }

  function LocalWire(local: seq<LocalPart>): Obj {
    Tuple(seq(|local|, i requires 0 <= i < |local| =>
      match local[i]
      case Word(text) => Tuple([Int(0), Str(text)])
      case Number(n) => Tuple([Int(1), Int(n)])))
  }

  function SuffixNumbers(s: Suffix): seq<int> {
    [s.preRank, s.preNumber, s.postRank, s.postNumber, s.devRank, s.devNumber]
  }

  /** `Version.to_wire`. */
  function ToWire(v: Version): Obj {
    Tuple([
      Str(VersionText.Public(v)),
      Ints(v.release),
      Tuple([Int(v.key.epoch), Ints(v.key.release), Ints(SuffixNumbers(v.key.suffix)), LocalWire(v.key.local)])])
  }

  predicate AllInts(items: seq<Obj>) {
    forall i :: 0 <= i < |items| ==> items[i].Int?
  }

  predicate SameNumber(a: Obj, b: Obj) {
    a == b || (a.Bool? && b == Int(if a.truth then 1 else 0))
  }

  /** Tuple equality against a tuple of integers. */
  predicate SameNumbers(a: seq<Obj>, b: seq<Obj>) {
    |a| == |b| && forall i :: 0 <= i < |a| ==> SameNumber(a[i], b[i])
  }

  function StripObj(items: seq<Obj>): seq<Obj> {
    if |items| > 1 && items[|items| - 1] == Int(0) then StripObj(items[..|items| - 1]) else items
  }

  /** `is_version_wire`. */
  predicate IsVersionWire(value: Obj) {
    && value.Tuple? && |value.items| == 3
    && var public, release, key := value.items[0], value.items[1], value.items[2];
    && public.Str? && release.Tuple? && release.items != [] && AllInts(release.items)
    && key.Tuple? && |key.items| == 4
    && var normalized, suffix := key.items[1], key.items[2];
    && key.items[0].Int? && normalized.Tuple? && normalized.items != []
    && SameNumbers(normalized.items, StripObj(release.items))
    && suffix.Tuple? && |suffix.items| == 6 && AllInts(suffix.items)
    && key.items[3].Tuple?
  }

  /** `Version.from_wire` of a checked record: the text decides. */
  function FromWire(value: Obj): Option<Version>
    requires IsVersionWire(value)
  {
    VersionText.ParseVersion(value.items[0].text)
  }

  lemma {:induction false} StripInts(release: seq<nat>)
    ensures StripObj(Ints(release).items) == Ints(Strip(release)).items
  {
    if |release| > 1 && release[|release| - 1] == 0 {
      var rest := release[..|release| - 1];
      assert Ints(release).items[..|release| - 1] == Ints(rest).items;
      StripInts(rest);
    }
  }

  /** What is written passes the reader's check and is read back as the version that was written. */
  lemma WireRoundTrip(v: Version)
    requires ValidVersion(v)
    ensures IsVersionWire(ToWire(v)) && FromWire(ToWire(v)) == Some(v)
  {
    StripInts(v.release);
    VersionText.PublicRoundTrip(v);
  }

  function WireRecord(text: string, release: Obj, epoch: Obj, normalized: Obj, suffix: Obj, local: Obj): Obj {
    Tuple([Str(text), release, Tuple([epoch, normalized, suffix, local])])
  }

  /** A record of integers is accepted exactly if its key strips its release and its suffix has six numbers. */
  lemma {:induction false} WireShape(text: string, release: seq<nat>, epoch: int, normalized: seq<nat>, suffix: seq<int>, local: seq<Obj>)
    ensures IsVersionWire(WireRecord(text, Ints(release), Int(epoch), Ints(normalized), Ints(suffix), Tuple(local))) <==>
      release != [] && normalized == Strip(release) && |suffix| == 6
  {
    StripInts(release);
    var a, b := Ints(normalized).items, Ints(Strip(release)).items;
    if SameNumbers(a, b) {
      forall i | 0 <= i < |normalized| ensures normalized[i] == Strip(release)[i] {
        assert SameNumber(a[i], b[i]);
      }
    }
  }

  /** Python's truth values equal 0 and 1, so the key may hold one where the release has the number. */
  lemma WireTruth(text: string, n: nat, epoch: int, truth: bool, suffix: seq<int>, local: seq<Obj>)
    ensures IsVersionWire(
        WireRecord(text, Ints([n]), Int(epoch), Tuple([Bool(truth)]), Ints(suffix), Tuple(local))) <==>
      n == (if truth then 1 else 0) && |suffix| == 6
    ensures !IsVersionWire(
        WireRecord(text, Tuple([Bool(truth)]), Int(epoch), Tuple([Bool(truth)]), Ints(suffix), Tuple(local)))
  {
    StripInts([n]);
    assert Ints(Strip([n])).items == [Int(n)];
    assert [Bool(truth)][0] == Bool(truth) && [Int(n)][0] == Int(n);
  }

  /** A record whose stored key contradicts its stored release is refused. */
  lemma {:induction false} WireKeyChecked(value: Obj, release: seq<nat>, normalized: seq<nat>)
    requires IsVersionWire(value)
    requires value.items[1] == Ints(release) && value.items[2].items[1] == Ints(normalized)
    ensures normalized == Strip(release)
  {
    StripInts(release);
    var a, b := Ints(normalized).items, Ints(Strip(release)).items;
    assert |normalized| == |Strip(release)|;
    forall i | 0 <= i < |normalized| ensures normalized[i] == Strip(release)[i] {
      assert SameNumber(a[i], b[i]);
    }
  }

  // ---------- Stored keys compare as versions do ----------

  /** Tuple comparison of stored values; values of different kinds do not meet. */
  function CmpObj(a: Obj, b: Obj): Cmp
    decreases a, 0
  {
    match (a, b)
    case (Int(m), Int(n)) => CmpInt(m, n)
    case (Str(s), Str(t)) => CmpString(s, t)
    case (Tuple(x), Tuple(y)) => CmpObjs(x, y)
    case _ => Equal
  }

  function CmpObjs(a: seq<Obj>, b: seq<Obj>): Cmp
    decreases a, 1
  {
    if a == [] && b == [] then Equal
    else if a == [] then Less
    else if b == [] then Greater
    else CmpObj(a[0], b[0]).Then(CmpObjs(a[1..], b[1..]))
  }

  lemma {:induction false} IntsCompare(a: seq<int>, b: seq<int>)
    ensures CmpObjs(Ints(a).items, Ints(b).items) == CmpInts(a, b)
  {
    if a != [] && b != [] {
      IntsCompare(a[1..], b[1..]);
      assert Ints(a).items[1..] == Ints(a[1..]).items && Ints(b).items[1..] == Ints(b[1..]).items;
    }
  }

  lemma {:induction false} FirstCompare(x: Obj, s: seq<Obj>, y: Obj, t: seq<Obj>)
    ensures CmpObjs([x] + s, [y] + t) == CmpObj(x, y).Then(CmpObjs(s, t))
    ensures CmpObjs([x], [y]) == CmpObj(x, y)
  {
    assert ([x] + s)[1..] == s && ([y] + t)[1..] == t && [x][1..] == [] && [y][1..] == [];
    assert CmpObjs([], []) == Equal;
  }

  lemma {:induction false} PairCompare(a: Obj, b: Obj, x: Obj, y: Obj)
    ensures CmpObj(Tuple([a, b]), Tuple([x, y])) == CmpObj(a, x).Then(CmpObj(b, y))
  {
    hide CmpObjs;
    FirstCompare(a, [b], x, [y]);
    FirstCompare(b, [], y, []);
    assert [a] + [b] == [a, b] && [x] + [y] == [x, y];
  }

  lemma PartCompare(a: LocalPart, b: LocalPart)
    ensures CmpObj(LocalWire([a]).items[0], LocalWire([b]).items[0]) == CmpLocalPart(a, b)
  {
    var x, y := LocalWire([a]).items[0].items, LocalWire([b]).items[0].items;
    PairCompare(x[0], x[1], y[0], y[1]);
  }

  lemma {:induction false} LocalCompare(a: seq<LocalPart>, b: seq<LocalPart>)
    ensures CmpObjs(LocalWire(a).items, LocalWire(b).items) == CmpLocal(a, b)
  {
    if a != [] && b != [] {
      LocalCompare(a[1..], b[1..]);
      PartCompare(a[0], b[0]);
      assert LocalWire(a).items[1..] == LocalWire(a[1..]).items && LocalWire(b).items[1..] == LocalWire(b[1..]).items;
      assert LocalWire(a).items[0] == LocalWire([a[0]]).items[0] && LocalWire(b).items[0] == LocalWire([b[0]]).items[0];
    }
  }

  lemma {:induction false} IntsFirst(x: int, s: seq<int>, y: int, t: seq<int>)
    ensures CmpInts([x] + s, [y] + t) == CmpInt(x, y).Then(CmpInts(s, t))
  {
    assert ([x] + s)[1..] == s && ([y] + t)[1..] == t;
  }

  lemma SuffixCompare(a: Suffix, b: Suffix)
    ensures CmpInts(SuffixNumbers(a), SuffixNumbers(b)) == CmpSuffix(a, b)
  {
    hide CmpInts;
    var s, t := SuffixNumbers(a), SuffixNumbers(b);
    IntsFirst(s[5], [], t[5], []);
    IntsFirst(s[4], [s[5]], t[4], [t[5]]);
    IntsFirst(s[3], [s[4], s[5]], t[3], [t[4], t[5]]);
    IntsFirst(s[2], [s[3], s[4], s[5]], t[2], [t[3], t[4], t[5]]);
    IntsFirst(s[1], [s[2], s[3], s[4], s[5]], t[1], [t[2], t[3], t[4], t[5]]);
    IntsFirst(s[0], [s[1], s[2], s[3], s[4], s[5]], t[0], [t[1], t[2], t[3], t[4], t[5]]);
    Shapes(s);
    Shapes(t);
    NoInts();
  }

  lemma NoInts()
    ensures CmpInts([], []) == Equal
  {
  }

  lemma Shapes(s: seq<int>)
    requires |s| == 6
    ensures [s[0]] + [s[1], s[2], s[3], s[4], s[5]] == s
    ensures [s[1]] + [s[2], s[3], s[4], s[5]] == [s[1], s[2], s[3], s[4], s[5]]
    ensures [s[2]] + [s[3], s[4], s[5]] == [s[2], s[3], s[4], s[5]]
    ensures [s[3]] + [s[4], s[5]] == [s[3], s[4], s[5]] && [s[4]] + [s[5]] == [s[4], s[5]] && [s[5]] + [] == [s[5]]
  {
  }

  lemma {:induction false} FourCompare(a: Obj, b: Obj, c: Obj, d: Obj, w: Obj, x: Obj, y: Obj, z: Obj)
    ensures CmpObj(Tuple([a, b, c, d]), Tuple([w, x, y, z])) ==
      CmpObj(a, w).Then(CmpObj(b, x)).Then(CmpObj(c, y)).Then(CmpObj(d, z))
  {
    hide CmpObjs;
    TupleCompare(Tuple([a, b, c, d]), Tuple([w, x, y, z]));
    FirstCompare(a, [b, c, d], w, [x, y, z]);
    FirstCompare(b, [c, d], x, [y, z]);
    FirstCompare(c, [d], y, [z]);
    FirstCompare(d, [], z, []);
    assert [a] + [b, c, d] == [a, b, c, d] && [w] + [x, y, z] == [w, x, y, z];
    assert [b] + [c, d] == [b, c, d] && [x] + [y, z] == [x, y, z] && [c] + [d] == [c, d] && [y] + [z] == [y, z];
  }

  /** The key in a record orders as the version does, so sorted records need not be parsed to be searched. */
  lemma WireKeyOrder(v: Version, w: Version)
    ensures CmpObj(ToWire(v).items[2], ToWire(w).items[2]) == CmpKey(v.key, w.key)
  {
    hide CmpSuffix, SuffixNumbers, CmpInts, CmpLocal, CmpObjs;
    IntsCompare(v.key.release, w.key.release);
    IntsCompare(SuffixNumbers(v.key.suffix), SuffixNumbers(w.key.suffix));
    SuffixCompare(v.key.suffix, w.key.suffix);
    LocalCompare(v.key.local, w.key.local);
    TupleCompare(Ints(v.key.release), Ints(w.key.release));
    TupleCompare(Ints(SuffixNumbers(v.key.suffix)), Ints(SuffixNumbers(w.key.suffix)));
    TupleCompare(LocalWire(v.key.local), LocalWire(w.key.local));
    FourCompare(
      Int(v.key.epoch), Ints(v.key.release), Ints(SuffixNumbers(v.key.suffix)), LocalWire(v.key.local),
      Int(w.key.epoch), Ints(w.key.release), Ints(SuffixNumbers(w.key.suffix)), LocalWire(w.key.local));
  }

  lemma {:induction false} TupleCompare(a: Obj, b: Obj)
    requires a.Tuple? && b.Tuple?
    ensures CmpObj(a, b) == CmpObjs(a.items, b.items)
  {
    hide CmpObjs;
  }
}
