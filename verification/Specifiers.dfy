/**
  One clause of a version specifier.

  `Contains` is the program's operator-by-operator test on keys. The `...Meaning` lemmas say what
  an operator admits in the terms of the standard (PEP 440, "Compatible release", "Version
  matching", "Exclusive ordered comparison"), on parts and zero-padded releases. Prefix matching is
  in `Wildcards`.
*/
module Specifiers {
  import opened Orders
  import opened Wrappers
  import opened Versions
  import VersionText
  import Text

  datatype Operator = Eq | Ne | Ge | Le | Gt | Lt | Compatible | Arbitrary

  datatype Specifier = Specifier(op: Operator, text: string, parsed: Option<Version>, wildcard: bool)

  predicate EndsWithStar(text: string) {
    |text| >= 2 && text[|text| - 2..] == ".*"
  }

  /** The constructor; `None` where it raises. */
  function MakeSpecifier(op: Operator, text: string): Option<Specifier> {
    if op == Arbitrary then Some(Specifier(op, text, None, false))
    else if EndsWithStar(text) && op != Eq && op != Ne then None
    else
      var wildcard := EndsWithStar(text);
      var parsed := VersionText.ParseVersion(if wildcard then text[..|text| - 2] else text);
      if parsed.None? then None else Some(Specifier(op, text, parsed, wildcard))
  }

  predicate ValidSpecifier(s: Specifier) {
    && (s.op == Arbitrary <==> s.parsed.None?)
    && (s.wildcard ==> s.op == Eq || s.op == Ne)
    && (s.parsed.Some? ==> ValidVersion(s.parsed.value))
  }

  lemma MadeIsValid(op: Operator, text: string)
    requires MakeSpecifier(op, text).Some?
    ensures ValidSpecifier(MakeSpecifier(op, text).value)
  {
    if op != Arbitrary {
      VersionText.ParseIsValid(if EndsWithStar(text) then text[..|text| - 2] else text);
    }
  }

  /** Equal up to the local label: the first three elements of the tuple. */
  predicate SamePublic(v: Version, w: Version) {
    v.key.(local := []) == w.key.(local := [])
  }

  /** `candidate[:width] == release`, the candidate padded with zeros. */
  predicate HasPrefix(candidate: seq<nat>, release: seq<nat>) {
    forall i :: 0 <= i < |release| ==> At(candidate, i) == release[i]
  }

  function CompatiblePrefix(release: seq<nat>): seq<nat> {
    if |release| <= 1 then release else release[..|release| - 1]
  }

  /** `_prefix_matches`. */
  predicate PrefixMatches(version: Version, prefix: Version, compatible: bool) {
    && version.key.epoch == prefix.key.epoch
    && (compatible || prefix.key.suffix == FINAL_SUFFIX || version.key.suffix == prefix.key.suffix)
    && HasPrefix(version.release, if compatible then CompatiblePrefix(prefix.release) else prefix.release)
  }

  predicate MatchesEq(version: Version, other: Version) {
    version.key == other.key || (version.key.local != [] && other.key.local == [] && SamePublic(version, other))
  }

  /** The key of `version` without post, dev and local parts, as `>` builds it. */
  function BaseSuffix(s: Suffix): Suffix {
    if s.preRank == 3 then FINAL_SUFFIX else Suffix(s.preRank, s.preNumber, 0, 0, 1, 0)
  }

  predicate MatchesGt(version: Version, other: Version) {
    var suffix := version.key.suffix;
    && Versions.Lt(other.key, version.key)
    && !(suffix.postRank == 1 && other.key.suffix.postRank == 0
         && other.key == Key(version.key.epoch, version.key.release, BaseSuffix(suffix), []))
    && !(version.key.local != [] && other.key.local == [] && SamePublic(version, other))
  }

  function EarliestSuffix(s: Suffix): Suffix {
    if s == FINAL_SUFFIX then Suffix(-1, 0, 0, 0, 0, 0) else Suffix(3, 0, s.postRank, s.postNumber, 0, 0)
  }

  function Earliest(k: Key): Key {
    Key(k.epoch, k.release, EarliestSuffix(k.suffix), [])
  }

  predicate MatchesLt(version: Version, other: Version) {
    && Versions.Lt(version.key, other.key)
    && !(version.IsPrerelease() && !other.IsPrerelease() && Leq(Earliest(other.key), version.key))
  }

  /** `Specifier.contains`. */
  predicate Contains(s: Specifier, version: Version)
    requires ValidSpecifier(s)
  {
    match s.op
    case Arbitrary => VersionText.Public(version) == s.text
    case Eq => if s.wildcard then PrefixMatches(version, s.parsed.value, false) else MatchesEq(version, s.parsed.value)
    case Ne => if s.wildcard then !PrefixMatches(version, s.parsed.value, false) else !MatchesEq(version, s.parsed.value)
    case Ge => Leq(s.parsed.value.key, version.key)
    case Le => Leq(version.key, s.parsed.value.key)
    case Gt => MatchesGt(version, s.parsed.value)
    case Lt => MatchesLt(version, s.parsed.value)
    case Compatible =>
      Leq(s.parsed.value.key, version.key) && PrefixMatches(version, s.parsed.value, true)
  }

  // ---------- The operators in the terms of the standard ----------

  /** Same epoch and same release, zero-padded. */
  ghost predicate SameRelease(a: Parts, b: Parts) {
    a.epoch == b.epoch && forall i: nat :: At(a.release, i) == At(b.release, i)
  }

  predicate PreOrDev(p: Parts) {
    p.pre.Some? || p.dev.Some?
  }

  /** `a` is a pre- or development release of `b` itself. */
  ghost predicate PrereleaseOf(a: Parts, b: Parts) {
    && PreOrDev(a) && SameRelease(a, b)
    && (b.post.Some? ==> a.pre.None? && a.post == b.post)
  }

  /** Equality of keys is equality of parts with zero-padded releases. */
  lemma KeyEqual(v: Version, w: Version)
    requires ValidVersion(v) && ValidVersion(w)
    ensures v.key == w.key <==>
      SameRelease(Decode(v), Decode(w)) && Decode(v).(epoch := 0, release := [0]) == Decode(w).(epoch := 0, release := [0])
  {
    StripEqual(v.release, w.release);
    if Decode(v).(epoch := 0, release := [0]) == Decode(w).(epoch := 0, release := [0]) {
      assert v.key.suffix == EncodeSuffix(Decode(v).pre, Decode(v).post, Decode(v).dev);
    }
  }

  lemma PrereleaseParts(v: Version)
    requires ValidVersion(v)
    ensures v.IsPrerelease() <==> PreOrDev(Decode(v))
  {
  }

  lemma LocalLeast(local: seq<LocalPart>)
    ensures CmpLocal([], local) != Greater && CmpLocal(local, []) != Less
    ensures local != [] ==> CmpLocal(local, []) == Greater && CmpLocal([], local) == Less
  {
  }

  /** Between two keys of one epoch and release there are only keys of that epoch and release. */
  lemma Sandwich(low: Key, k: Key, high: Key)
    requires low.epoch == high.epoch && low.release == high.release
    requires Leq(low, k) && Leq(k, high)
    ensures k.epoch == low.epoch && k.release == low.release
  {
    IntsTotalOrder();
    assert CmpInts(low.release, k.release) == CmpInts(k.release, high.release).Flip();
  }

  lemma LeqSameRelease(a: Key, b: Key)
    requires a.epoch == b.epoch && a.release == b.release
    ensures CmpKey(a, b) == CmpSuffix(a.suffix, b.suffix).Then(CmpLocal(a.local, b.local))
  {
    IntsTotalOrder();
    assert CmpInts(a.release, b.release) == Equal;
  }

  lemma CompareParts(v: Version, w: Version)
    requires ValidVersion(v) && ValidVersion(w)
    ensures CmpKey(v.key, w.key) == CmpParts(Decode(v), Decode(w))
    ensures CmpKey(w.key, v.key) == CmpKey(v.key, w.key).Flip()
  {
    hide CmpKey, CmpParts, Decode;
    KeyOrderIsPep440(Decode(v), Decode(w));
    KeyTotalOrder();
  }

  /** `>=` is the order of PEP 440, nothing excluded. */
  lemma GeMeaning(s: Specifier, v: Version)
    requires ValidSpecifier(s) && s.op == Ge && ValidVersion(v)
    ensures Contains(s, v) <==> CmpParts(Decode(s.parsed.value), Decode(v)) != Greater
  {
    hide CmpKey, CmpParts, Decode;
    CompareParts(s.parsed.value, v);
  }

  lemma LeMeaning(s: Specifier, v: Version)
    requires ValidSpecifier(s) && s.op == Le && ValidVersion(v)
    ensures Contains(s, v) <==> CmpParts(Decode(v), Decode(s.parsed.value)) != Greater
  {
    hide CmpKey, CmpParts, Decode;
    CompareParts(v, s.parsed.value);
  }

  /** `===` asks for the canonical spelling, letter by letter. */
  lemma ArbitraryMeaning(s: Specifier, v: Version)
    requires ValidSpecifier(s) && s.op == Arbitrary && ValidVersion(v)
    ensures var c := VersionText.Canonical(Decode(v));
      c.release != [] && (Contains(s, v) <==> c.Text() == s.text)
  {
    hide Decode, VersionText.Canonical, VersionText.Public;
    VersionText.PublicIsCanonical(Decode(v));
  }

  lemma LtMeaning(s: Specifier, v: Version)
    requires ValidSpecifier(s) && s.op == Lt && ValidVersion(v)
    ensures Contains(s, v) <==>
      && CmpParts(Decode(v), Decode(s.parsed.value)) == Less
      && (PreOrDev(Decode(s.parsed.value)) || !PrereleaseOf(Decode(v), Decode(s.parsed.value)))
  {
    hide CmpKey, CmpParts, Decode, Contains, PrereleaseOf;
    LtByKeys(s, v);
    CompareParts(v, s.parsed.value);
  }

  lemma LtByKeys(s: Specifier, v: Version)
    requires ValidSpecifier(s) && s.op == Lt && ValidVersion(v)
    ensures Contains(s, v) <==>
      && Versions.Lt(v.key, s.parsed.value.key)
      && (PreOrDev(Decode(s.parsed.value)) || !PrereleaseOf(Decode(v), Decode(s.parsed.value)))
  {
    var other := s.parsed.value;
    PrereleaseParts(v);
    PrereleaseParts(other);
    if Versions.Lt(v.key, other.key) && v.IsPrerelease() && !other.IsPrerelease() {
      StripEqual(v.release, other.release);
      assert v.key.release == Versions.Strip(v.release) && other.key.release == Versions.Strip(other.release);
      if Leq(Earliest(other.key), v.key) {
        Sandwich(Earliest(other.key), v.key, other.key);
      }
      if v.key.epoch == other.key.epoch && v.key.release == other.key.release {
        EarliestSpec(v, other);
      }
    }
  }

  lemma EarliestSpec(v: Version, other: Version)
    requires ValidVersion(v) && ValidVersion(other)
    requires v.key.epoch == other.key.epoch && v.key.release == other.key.release
    requires Versions.Lt(v.key, other.key) && v.IsPrerelease() && !other.IsPrerelease()
    ensures Leq(Earliest(other.key), v.key) <==>
      (Decode(other).post.Some? ==> Decode(v).pre.None? && Decode(v).post == Decode(other).post)
  {
    LeqSameRelease(Earliest(other.key), v.key);
    LeqSameRelease(v.key, other.key);
    LocalLeast(v.key.local);
    assert v.key.suffix == EncodeSuffix(Decode(v).pre, Decode(v).post, Decode(v).dev);
    assert other.key.suffix == EncodeSuffix(Decode(other).pre, Decode(other).post, Decode(other).dev);
  }

  /** `v` without its post, dev and local parts. */
  function Base(p: Parts): Parts {
    p.(post := None, dev := None, local := [])
  }

  lemma GtMeaning(s: Specifier, v: Version)
    requires ValidSpecifier(s) && s.op == Gt && ValidVersion(v)
    ensures var other := s.parsed.value;
      Contains(s, v) <==>
        && CmpParts(Decode(other), Decode(v)) == Less
        && !(Decode(v).post.Some? && Decode(other).post.None? && other.key == Encode(Base(Decode(v))).key)
        && !(v.key.local != [] && other.key == v.key.(local := []))
  {
    hide CmpKey, CmpParts, Decode, Contains;
    GtByKeys(s, v);
    CompareParts(s.parsed.value, v);
  }

  lemma GtByKeys(s: Specifier, v: Version)
    requires ValidSpecifier(s) && s.op == Gt && ValidVersion(v)
    ensures var other := s.parsed.value;
      Contains(s, v) <==>
        && Versions.Lt(other.key, v.key)
        && !(Decode(v).post.Some? && Decode(other).post.None? && other.key == Encode(Base(Decode(v))).key)
        && !(v.key.local != [] && other.key == v.key.(local := []))
  {
    assert v.key.suffix == EncodeSuffix(Decode(v).pre, Decode(v).post, Decode(v).dev);
    assert Decode(v).post.Some? ==> BaseSuffix(v.key.suffix) == EncodeSuffix(Decode(v).pre, None, None);
  }

  /** `==` names one public version; a clause without a local label admits every label. */
  lemma EqMeaning(s: Specifier, v: Version)
    requires ValidSpecifier(s) && (s.op == Eq || s.op == Ne) && !s.wildcard && ValidVersion(v)
    ensures var other := s.parsed.value;
      (s.op == Eq <==> Contains(s, v)) <==>
        if other.key.local == [] then SamePublic(v, other) else v.key == other.key
  {
  }

  // ---------- Compatible release ----------

  function Bump(release: seq<nat>): seq<nat>
    requires release != []
  {
    var prefix := CompatiblePrefix(release);
    prefix[|prefix| - 1 := prefix[|prefix| - 1] + 1]
  }

  function UpperText(v: Version): string
    requires v.release != []
  {
    (if v.key.epoch != 0 then Text.NatText(v.key.epoch) + "!" else "")
    + Text.Join('.', VersionText.Texts(Bump(v.release)))
  }

  function UpperParts(v: Version): Parts
    requires v.release != []
  {
    Parts(v.key.epoch, Bump(v.release), None, None, None, [])
  }

  /** `compatible_upper_bound_internal`: the bound is printed and parsed again. */
  function CompatibleUpper(v: Version): (upper: Version)
    requires ValidVersion(v)
    ensures upper == Encode(UpperParts(v)) && ValidVersion(upper)
  {
    UpperIsPublic(v);
    VersionText.ParseVersion(UpperText(v)).value
  }

  lemma UpperIsPublic(v: Version)
    requires ValidVersion(v)
    ensures VersionText.ParseVersion(UpperText(v)) == Some(Encode(UpperParts(v)))
    ensures ValidVersion(Encode(UpperParts(v)))
  {
    var u := Encode(UpperParts(v));
    EncodeDecode(UpperParts(v));
    VersionText.PublicRoundTrip(u);
    assert VersionText.Public(u) == UpperText(v) + "" + "";
    assert UpperText(v) + "" + "" == UpperText(v);
  }

  /** The first segment, if any, at which a candidate leaves the prefix. */
  lemma {:induction false} FirstMismatch(candidate: seq<nat>, release: seq<nat>, n: nat) returns (k: nat)
    requires n <= |release|
    ensures k <= n && (forall i :: 0 <= i < k ==> At(candidate, i) == release[i])
    ensures k < n ==> At(candidate, k) != release[k]
  {
    k := 0;
    while k < n && At(candidate, k) == release[k]
      invariant k <= n && forall i :: 0 <= i < k ==> At(candidate, i) == release[i]
    {
      k := k + 1;
    }
  }

  /** Keys of one epoch compare first by padded release. */
  lemma CmpByRelease(v: Version, w: Version)
    requires ValidVersion(v) && ValidVersion(w) && v.key.epoch == w.key.epoch
    ensures CmpPadded(v.release, w.release) != Equal ==> CmpKey(v.key, w.key) == CmpPadded(v.release, w.release)
    ensures CmpPadded(v.release, w.release) == Equal <==> v.key.release == w.key.release
  {
    StripCmp(v.release, w.release);
    IntsTotalOrder();
    assert CmpInts(v.key.release, w.key.release) == Equal <==> v.key.release == w.key.release;
  }

  /** What `~=` accepts lies below the upper bound. */
  lemma CompatibleBelowUpper(v: Version, other: Version)
    requires ValidVersion(v) && ValidVersion(other)
    requires PrefixMatches(v, other, true)
    ensures Versions.Lt(v.key, CompatibleUpper(other).key)
  {
    var u := CompatibleUpper(other);
    var last := |CompatiblePrefix(other.release)| - 1;
    assert u.release == Bump(other.release);
    PaddedFirstDifference(v.release, u.release, last);
    CmpByRelease(v, u);
  }

  /** A version in the interval that leaves the prefix has the release of the bound. */
  lemma MismatchMeetsUpper(v: Version, other: Version)
    requires ValidVersion(v) && ValidVersion(other) && v.key.epoch == other.key.epoch
    requires Leq(other.key, v.key) && Versions.Lt(v.key, CompatibleUpper(other).key)
    requires !HasPrefix(v.release, CompatiblePrefix(other.release))
    ensures forall i: nat :: At(v.release, i) == At(Bump(other.release), i)
  {
    hide CmpKey, CmpPadded, ValidVersion, HasPrefix, CompatiblePrefix, Bump, CompatibleUpper, At;
    var u := CompatibleUpper(other);
    var prefix := CompatiblePrefix(other.release);
    UpperSpec(other);
    var k := FirstMismatch(v.release, prefix, |prefix|);
    if k == |prefix| { PrefixHolds(v.release, prefix); }
    MeetsAt(v, other, u, prefix, k);
    AgreeThenZeros(v, u);
  }

  lemma MeetsAt(v: Version, low: Version, u: Version, prefix: seq<nat>, k: nat)
    requires ValidVersion(v) && ValidVersion(low) && ValidVersion(u) && v.key.epoch == low.key.epoch == u.key.epoch
    requires Leq(low.key, v.key) && Leq(v.key, u.key)
    requires k < |prefix| == |u.release| <= |low.release|
    requires forall i :: 0 <= i < |prefix| ==> low.release[i] == prefix[i]
    requires forall i :: 0 <= i < |prefix| - 1 ==> u.release[i] == prefix[i]
    requires u.release[|prefix| - 1] == prefix[|prefix| - 1] + 1
    requires (forall i :: 0 <= i < k ==> At(v.release, i) == prefix[i]) && At(v.release, k) != prefix[k]
    ensures k == |prefix| - 1 && At(v.release, k) == u.release[k]
  {
    hide CmpKey, CmpPadded, ValidVersion;
    ExceedsAt(low, v, k);
    if At(v.release, k) != u.release[k] { ExceedsAt(v, u, k); }
  }

  /** The first difference between a version and a higher one of its epoch is upwards. */
  lemma ExceedsAt(low: Version, v: Version, k: nat)
    requires ValidVersion(low) && ValidVersion(v) && low.key.epoch == v.key.epoch && Leq(low.key, v.key)
    requires At(low.release, k) != At(v.release, k)
    requires forall i: nat :: i < k ==> At(low.release, i) == At(v.release, i)
    ensures At(low.release, k) < At(v.release, k)
  {
    hide CmpKey, CmpPadded, ValidVersion;
    PaddedFirstDifference(low.release, v.release, k);
    CmpByRelease(low, v);
  }

  lemma PrefixHolds(candidate: seq<nat>, release: seq<nat>)
    requires forall i :: 0 <= i < |release| ==> At(candidate, i) == release[i]
    ensures HasPrefix(candidate, release)
  {
  }

  lemma UpperSpec(other: Version)
    requires ValidVersion(other)
    ensures var u := CompatibleUpper(other); var prefix := CompatiblePrefix(other.release);
      && u.release == Bump(other.release) && u.key.epoch == other.key.epoch && ValidVersion(u)
      && |u.release| == |prefix| <= |other.release| && prefix != []
      && (forall i :: 0 <= i < |prefix| - 1 ==> u.release[i] == prefix[i])
      && (forall i :: 0 <= i < |prefix| ==> other.release[i] == prefix[i])
      && u.release[|prefix| - 1] == prefix[|prefix| - 1] + 1
      && u.key.suffix == FINAL_SUFFIX && u.key.local == []
  {
  }

  lemma CompatibleInInterval(v: Version, other: Version)
    requires ValidVersion(v) && ValidVersion(other)
    requires Leq(other.key, v.key) && Versions.Lt(v.key, CompatibleUpper(other).key)
    ensures PrefixMatches(v, other, true) <==> !SameRelease(Decode(v), Decode(CompatibleUpper(other)))
    ensures SameRelease(Decode(v), Decode(CompatibleUpper(other))) ==> PreOrDev(Decode(v))
  {
    var u := CompatibleUpper(other);
    UpperSpec(other);
    assert v.key.epoch == other.key.epoch;
    var last := |u.release| - 1;
    if PrefixMatches(v, other, true) {
      assert At(v.release, last) != At(u.release, last);
    } else {
      MismatchMeetsUpper(v, other);
    }
    if SameRelease(Decode(v), Decode(u)) {
      StripEqual(v.release, u.release);
      BelowFinal(v, u);
    }
  }

  /** Agreeing with all written segments of the bound and not exceeding it leaves only zeros. */
  lemma AgreeThenZeros(v: Version, u: Version)
    requires ValidVersion(v) && ValidVersion(u) && v.key.epoch == u.key.epoch
    requires Leq(v.key, u.key)
    requires forall i :: 0 <= i < |u.release| ==> At(v.release, i) == u.release[i]
    ensures forall i: nat :: At(v.release, i) == At(u.release, i)
  {
    PaddedEqual(v.release, u.release);
    if CmpPadded(v.release, u.release) != Equal {
      var k := FirstExcess(v.release, u.release);
      PaddedFirstDifference(v.release, u.release, k);
      CmpByRelease(v, u);
    }
  }

  lemma FirstExcess(a: seq<nat>, b: seq<nat>) returns (k: nat)
    requires forall i :: 0 <= i < |b| ==> At(a, i) == b[i]
    requires exists i: nat :: At(a, i) != At(b, i)
    ensures At(a, k) > At(b, k) && forall i: nat :: i < k ==> At(a, i) == At(b, i)
  {
    var n: nat :| At(a, n) != At(b, n);
    k := 0;
    while At(a, k) == At(b, k)
      invariant k <= n && forall i: nat :: i < k ==> At(a, i) == At(b, i)
      decreases n - k
    {
      k := k + 1;
    }
  }

  lemma BelowFinal(v: Version, u: Version)
    requires ValidVersion(v) && v.key.epoch == u.key.epoch && v.key.release == u.key.release
    requires u.key.suffix == FINAL_SUFFIX && u.key.local == [] && Versions.Lt(v.key, u.key)
    ensures PreOrDev(Decode(v))
  {
    LeqSameRelease(v.key, u.key);
    LocalLeast(v.key.local);
    assert v.key.suffix == EncodeSuffix(Decode(v).pre, Decode(v).post, Decode(v).dev);
  }

  /**
    `~=V` is the interval from `V` up to its bound, less the pre- and development releases of the
    bound itself, which are all that the interval has at the release of the bound.
  */
  lemma CompatibleMeaning(s: Specifier, v: Version)
    requires ValidSpecifier(s) && s.op == Compatible && ValidVersion(v)
    ensures var other := s.parsed.value; var upper := CompatibleUpper(other);
      && (Contains(s, v) <==>
           && Leq(other.key, v.key) && Versions.Lt(v.key, upper.key)
           && !SameRelease(Decode(v), Decode(upper)))
      && (Leq(other.key, v.key) && Versions.Lt(v.key, upper.key) && !Contains(s, v) ==>
           PreOrDev(Decode(v)) && SameRelease(Decode(v), Decode(upper)))
  {
    hide SameRelease, Decode, CompatibleUpper, PrefixMatches;
    var other := s.parsed.value;
    if PrefixMatches(v, other, true) {
      CompatibleBelowUpper(v, other);
    }
    if Leq(other.key, v.key) && Versions.Lt(v.key, CompatibleUpper(other).key) {
      CompatibleInInterval(v, other);
    }
  }

  // ---------- Trailing zeros do not matter ----------

  /** Apart from `===`, a clause cannot tell versions with equal keys apart. */
  lemma ContainsRespectsKeys(s: Specifier, v: Version, w: Version)
    requires ValidSpecifier(s) && s.op != Arbitrary
    requires ValidVersion(v) && ValidVersion(w) && v.key == w.key
    ensures Contains(s, v) <==> Contains(s, w)
  {
    StripEqual(v.release, w.release);
  }

  /**
    `~=V` in the words of the standard: not below V, and on the segments of V without its last one (a
    single segment stays).
  */
  lemma CompatibleClause(s: Specifier, v: Version)
    requires ValidSpecifier(s) && s.op == Compatible && ValidVersion(v)
    ensures var operand, p := Decode(s.parsed.value), Decode(v);
      Contains(s, v) <==>
        && CmpParts(operand, p) != Greater && p.epoch == operand.epoch
        && forall i :: 0 <= i < (if |operand.release| == 1 then 1 else |operand.release| - 1) ==>
             At(p.release, i) == operand.release[i]
  {
    hide CmpKey, CmpParts;
    CompareParts(s.parsed.value, v);
  }

  /** The upper bound adds one to the last segment that `~=` looks at, and drops what follows it. */
  lemma UpperRelease(v: Version)
    requires ValidVersion(v)
    ensures var r, upper := v.release, Decode(CompatibleUpper(v));
      && upper == Parts(v.key.epoch, upper.release, None, None, None, [])
      && upper.release == if |r| == 1 then [r[0] + 1] else r[..|r| - 2] + [r[|r| - 2] + 1]
  {
    hide CompatibleUpper, Bump, Encode, Decode, ValidParts;
    ReleaseNonempty(v);
    EncodeDecode(UpperParts(v));
    BumpMeans(v.release);
  }

  lemma ReleaseNonempty(v: Version)
    requires ValidVersion(v)
    ensures v.release != []
  {
  }

  lemma BumpMeans(r: seq<nat>)
    requires r != []
    ensures Bump(r) == if |r| == 1 then [r[0] + 1] else r[..|r| - 2] + [r[|r| - 2] + 1]
  {
  }

  /** A clause is made exactly if its text, less a wildcard only `==` and `!=` may have, is a version. */
  lemma MadeFrom(op: Operator, text: string)
    requires op != Arbitrary && !EndsWithStar(text)
    ensures MakeSpecifier(op, text) ==
      if VersionText.ParseVersion(text).None? then None
      else Some(Specifier(op, text, VersionText.ParseVersion(text), false))
    ensures MakeSpecifier(op, text + ".*") ==
      if VersionText.ParseVersion(text).None? || op !in {Eq, Ne} then None
      else Some(Specifier(op, text + ".*", VersionText.ParseVersion(text), true))
  {
    hide VersionText.ParseVersion;
    var starred := text + ".*";
    assert starred[|starred| - 2..] == ".*" && starred[..|starred| - 2] == text;
  }
}
