/**
  Prefix matching: `==V.*` and `!=V.*` (PEP 440, "Version matching").

  For a release-only operand the clause is an interval. An operand with a pre, post or dev part is
  read differently from the standard; `FollowsStandardIff` and `WildcardDeparts` say where.
*/
module Wildcards {
  import opened Orders
  import opened Wrappers
  import opened Versions
  import opened Specifiers
  import VersionText
  import Text

  /** The versions a wildcard clause singles out: those `==` admits and `!=` refuses. */
  predicate Singles(s: Specifier, v: Version)
    requires ValidSpecifier(s)
  {
    s.op == Eq <==> Contains(s, v)
  }

  predicate IsWildcard(s: Specifier) {
    ValidSpecifier(s) && s.wildcard
  }

  predicate ReleaseOnly(p: Parts) {
    p.pre.None? && p.post.None? && p.dev.None?
  }

  function BumpLast(release: seq<nat>): seq<nat>
    requires release != []
  {
    release[|release| - 1 := release[|release| - 1] + 1]
  }

  /** The least version of a release. */
  function DevZero(epoch: nat, release: seq<nat>): Version {
    Encode(Parts(epoch, release, None, None, Some(0), []))
  }

  lemma DevZeroSpec(epoch: nat, release: seq<nat>)
    requires release != []
    ensures var d := DevZero(epoch, release);
      ValidVersion(d) && d.release == release && d.key.epoch == epoch && d.key.suffix == Suffix(-1, 0, 0, 0, 0, 0) && d.key.local == []
  {
    EncodeDecode(Parts(epoch, release, None, None, Some(0), []));
  }

  lemma DevZeroLeast(d: Version, v: Version)
    requires ValidVersion(d) && ValidVersion(v)
    requires d.key.suffix == Suffix(-1, 0, 0, 0, 0, 0) && d.key.local == []
    requires d.key.epoch == v.key.epoch && d.key.release == v.key.release
    ensures Leq(d.key, v.key)
  {
    hide CmpLocal;
    LeqSameRelease(d.key, v.key);
    LocalLeast(v.key.local);
    assert v.key.suffix == EncodeSuffix(Decode(v).pre, Decode(v).post, Decode(v).dev);
  }

  /** Keys between two keys of one epoch have that epoch. */
  lemma EpochBetween(low: Key, k: Key, high: Key)
    requires Leq(low, k) && Leq(k, high) && low.epoch == high.epoch
    ensures k.epoch == low.epoch
  {
    hide CmpInts, CmpSuffix, CmpLocal;
  }

  // ---------- A release-only operand ----------

  lemma PrefixAboveFloor(v: Version, low: Version)
    requires ValidVersion(v) && ValidVersion(low) && v.key.epoch == low.key.epoch
    requires low.key.suffix == Suffix(-1, 0, 0, 0, 0, 0) && low.key.local == []
    requires HasPrefix(v.release, low.release)
    ensures Leq(low.key, v.key)
  {
    hide CmpKey, CmpPadded, ValidVersion;
    CmpByRelease(low, v);
    PaddedEqual(low.release, v.release);
    if CmpPadded(low.release, v.release) == Equal {
      DevZeroLeast(low, v);
    } else {
      var k := FirstExcess(v.release, low.release);
      PaddedFirstDifference(low.release, v.release, k);
    }
  }

  lemma PrefixBelowCeiling(v: Version, release: seq<nat>, high: Version)
    requires ValidVersion(v) && ValidVersion(high) && v.key.epoch == high.key.epoch
    requires release != [] && high.release == BumpLast(release) && HasPrefix(v.release, release)
    ensures Versions.Lt(v.key, high.key)
  {
    hide CmpKey, CmpPadded, ValidVersion;
    PaddedFirstDifference(v.release, high.release, |release| - 1);
    CmpByRelease(v, high);
  }

  lemma BetweenHasPrefix(v: Version, low: Version, high: Version)
    requires ValidVersion(v) && ValidVersion(low) && ValidVersion(high)
    requires v.key.epoch == low.key.epoch == high.key.epoch
    requires low.release != [] && high.release == BumpLast(low.release)
    requires high.key.suffix == Suffix(-1, 0, 0, 0, 0, 0) && high.key.local == []
    requires Leq(low.key, v.key) && Versions.Lt(v.key, high.key)
    ensures HasPrefix(v.release, low.release)
  {
    hide CmpKey, CmpPadded, ValidVersion, HasPrefix;
    var n := |low.release|;
    var k := FirstMismatch(v.release, low.release, n);
    if k == n {
      PrefixHolds(v.release, low.release);
    } else {
      PaddedFirstDifference(low.release, v.release, k);
      CmpByRelease(low, v);
      assert At(v.release, k) > low.release[k];
      LeavesAbove(v, low.release, high, k);
    }
  }

  lemma LeavesAbove(v: Version, release: seq<nat>, high: Version, k: nat)
    requires ValidVersion(v) && ValidVersion(high) && v.key.epoch == high.key.epoch
    requires k < |release| && high.release == BumpLast(release)
    requires high.key.suffix == Suffix(-1, 0, 0, 0, 0, 0) && high.key.local == []
    requires (forall i :: 0 <= i < k ==> At(v.release, i) == release[i]) && At(v.release, k) > release[k]
    ensures !Versions.Lt(v.key, high.key)
  {
    hide CmpKey, CmpPadded, ValidVersion;
    KeySymmetry(high.key, v.key);
    CmpByRelease(v, high);
    if At(v.release, k) != At(high.release, k) {
      PaddedFirstDifference(v.release, high.release, k);
    } else if Versions.Lt(v.key, high.key) {
      AgreeThenZeros(v, high);
      PaddedEqual(v.release, high.release);
      DevZeroLeast(high, v);
    }
  }

  /** For a release-only V, `==V.*` is the interval from V.dev0 up to, not including, bumped-V.dev0. */
  lemma WildcardMeaning(s: Specifier, v: Version)
    requires IsWildcard(s) && ValidVersion(v) && ReleaseOnly(Decode(s.parsed.value))
    ensures var other := s.parsed.value;
      Singles(s, v) <==>
        && Leq(DevZero(other.key.epoch, other.release).key, v.key)
        && Versions.Lt(v.key, DevZero(other.key.epoch, BumpLast(other.release)).key)
  {
    hide CmpKey, HasPrefix, DevZero;
    var other := s.parsed.value;
    var low, high := DevZero(other.key.epoch, other.release), DevZero(other.key.epoch, BumpLast(other.release));
    DevZeroSpec(other.key.epoch, other.release);
    DevZeroSpec(other.key.epoch, BumpLast(other.release));
    assert other.key.suffix == FINAL_SUFFIX;
    if PrefixMatches(v, other, false) {
      PrefixAboveFloor(v, low);
      PrefixBelowCeiling(v, other.release, high);
    }
    if Leq(low.key, v.key) && Versions.Lt(v.key, high.key) {
      EpochBetween(low.key, v.key, high.key);
      BetweenHasPrefix(v, low, high);
    }
  }

  // ---------- An operand with a suffix ----------

  predicate SameSuffix(a: Parts, b: Parts) {
    a.pre == b.pre && a.post == b.post && a.dev == b.dev
  }

  /** With a pre, post or dev part, the clause asks for just these parts on any release it is a prefix of. */
  lemma SuffixWildcardMeaning(s: Specifier, v: Version)
    requires IsWildcard(s) && ValidVersion(v) && !ReleaseOnly(Decode(s.parsed.value))
    ensures var other := s.parsed.value;
      Singles(s, v) <==>
        v.key.epoch == other.key.epoch && HasPrefix(v.release, other.release) && SameSuffix(Decode(v), Decode(other))
  {
    var other := s.parsed.value;
    assert v.key.suffix == EncodeSuffix(Decode(v).pre, Decode(v).post, Decode(v).dev);
    assert other.key.suffix == EncodeSuffix(Decode(other).pre, Decode(other).post, Decode(other).dev);
  }

  /**
    The standard: what follows the last part that is written is ignored. Further release segments
    follow the last part only when nothing but a release is written.
  */
  ghost predicate StandardPrefix(written: Parts, p: Parts) {
    if ReleaseOnly(written) then p.epoch == written.epoch && HasPrefix(p.release, written.release)
    else
      && SameRelease(p, written) && p.pre == written.pre
      && (written.post.Some? || written.dev.Some? ==> p.post == written.post)
      && (written.dev.Some? ==> p.dev == written.dev)
  }

  /** The operand's suffix on a longer release: admitted, against the standard. */
  ghost predicate LongerRelease(written: Parts, p: Parts) {
    p.epoch == written.epoch && HasPrefix(p.release, written.release) && SameSuffix(p, written) && !SameRelease(p, written)
  }

  /** A further post or dev part on the operand: refused, against the standard. */
  ghost predicate FurtherPart(written: Parts, p: Parts) {
    && SameRelease(p, written) && p.pre == written.pre && written.dev.None?
    && if written.post.None? then p.post.Some? || p.dev.Some? else p.post == written.post && p.dev.Some?
  }

  /** The two departures, and there is no other. */
  lemma WildcardDeparts(s: Specifier, v: Version)
    requires IsWildcard(s) && ValidVersion(v)
    ensures var written, p := Decode(s.parsed.value), Decode(v);
      && (Singles(s, v) && !StandardPrefix(written, p) <==> !ReleaseOnly(written) && LongerRelease(written, p))
      && (!Singles(s, v) && StandardPrefix(written, p) <==> !ReleaseOnly(written) && FurtherPart(written, p))
  {
    hide EncodeSuffix, Singles, At;
    var other := s.parsed.value;
    if ReleaseOnly(Decode(other)) {
      PlainWildcard(s, v);
    } else {
      SuffixWildcardMeaning(s, v);
      SameHasPrefix(Decode(v), Decode(other));
    }
  }

  lemma PlainWildcard(s: Specifier, v: Version)
    requires IsWildcard(s) && ReleaseOnly(Decode(s.parsed.value))
    ensures Singles(s, v) <==> StandardPrefix(Decode(s.parsed.value), Decode(v))
  {
    assert s.parsed.value.key.suffix == FINAL_SUFFIX;
  }

  lemma SameHasPrefix(p: Parts, written: Parts)
    ensures SameRelease(p, written) ==> HasPrefix(p.release, written.release)
  {
    if SameRelease(p, written) {
      forall i | 0 <= i < |written.release| ensures At(p.release, i) == written.release[i] {
        assert At(p.release, i) == At(written.release, i);
      }
    }
  }

  /** A wildcard clause follows the standard on all versions exactly when its operand is a release only. */
  lemma FollowsStandardIff(s: Specifier)
    requires IsWildcard(s)
    ensures (forall v | ValidVersion(v) :: Singles(s, v) <==> StandardPrefix(Decode(s.parsed.value), Decode(v)))
       <==> ReleaseOnly(Decode(s.parsed.value))
  {
    hide Singles, StandardPrefix, LongerRelease;
    var written := Decode(s.parsed.value);
    if ReleaseOnly(written) {
      forall v | ValidVersion(v) ensures Singles(s, v) <==> StandardPrefix(written, Decode(v)) {
        WildcardDeparts(s, v);
      }
    } else {
      var v := Longer(written);
      WildcardDeparts(s, v);
    }
  }

  lemma Longer(written: Parts) returns (v: Version)
    requires ValidParts(written)
    ensures ValidVersion(v) && LongerRelease(written, Decode(v))
  {
    var p := written.(release := written.release + [1]);
    v := Encode(p);
    EncodeDecode(p);
    assert At(p.release, |written.release|) == 1 != At(written.release, |written.release|);
  }

  const ALPHA := Parts(0, [1, 0], Some(Pre(Alpha, 1)), None, None, [])

  /** `==1.0a1.*` admits 1.0.5a1 and refuses 1.0a1.post1; the standard has it the other way round. */
  lemma AlphaWildcard()
    ensures var s := Specifier(Eq, "1.0a1.*", Some(Encode(ALPHA)), true);
      var longer, post := Encode(ALPHA.(release := [1, 0, 5])), Encode(ALPHA.(post := Some(1)));
      && MakeSpecifier(Eq, "1.0a1.*") == Some(s) && IsWildcard(s) && ValidVersion(longer) && ValidVersion(post)
      && Contains(s, longer) && !StandardPrefix(ALPHA, Decode(longer))
      && !Contains(s, post) && StandardPrefix(ALPHA, Decode(post))
  {
    hide Encode, Decode, Contains, StandardPrefix, LongerRelease, FurtherPart, ValidVersion, ValidParts;
    var s := Specifier(Eq, "1.0a1.*", Some(Encode(ALPHA)), true);
    var longer, post := ALPHA.(release := [1, 0, 5]), ALPHA.(post := Some(1));
    AlphaParts();
    EncodeDecode(ALPHA);
    EncodeDecode(longer);
    EncodeDecode(post);
    AlphaClause();
    WildcardDeparts(s, Encode(longer));
    WildcardDeparts(s, Encode(post));
  }

  lemma AlphaParts()
    ensures ValidParts(ALPHA) && ValidParts(ALPHA.(release := [1, 0, 5])) && ValidParts(ALPHA.(post := Some(1)))
    ensures LongerRelease(ALPHA, ALPHA.(release := [1, 0, 5])) && FurtherPart(ALPHA, ALPHA.(post := Some(1)))
  {
    assert At([1, 0, 5], 2) == 5 != At([1, 0], 2);
  }

  lemma AlphaClause()
    ensures MakeSpecifier(Eq, "1.0a1.*") == Some(Specifier(Eq, "1.0a1.*", Some(Encode(ALPHA)), true))
  {
    hide VersionText.ParseVersion, VersionText.Public, Encode, ValidVersion;
    AlphaText();
    EncodeDecode(ALPHA);
    AlphaParts();
    VersionText.PublicRoundTrip(Encode(ALPHA));
    assert "1.0a1.*"[..5] == "1.0a1" && "1.0a1.*"[5..] == ".*";
  }

  lemma AlphaText()
    ensures VersionText.Public(Encode(ALPHA)) == "1.0a1"
  {
    assert Text.NatText(0) == "0" && Text.NatText(1) == "1";
    assert VersionText.Texts([1, 0]) == ["1", "0"];
    assert ["1", "0"][1..] == ["0"];
    assert Text.Join('.', ["1", "0"]) == "1.0";
  }
}
