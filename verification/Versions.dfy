/**
  PEP 440 versions as their own ordering key.

  `Parts` is a version as the standard describes it. `Encode` turns it into the tuple the program
  compares; `CmpKey` is Python's comparison of that tuple. `CmpParts` is the ordering of the
  standard, stated on parts alone, with zero-padded releases. The main result is that the two agree.
*/
module Versions {
  import opened Orders
  import opened Wrappers
  import Text

  datatype PreStage = Alpha | Beta | Candidate

  datatype Pre = Pre(stage: PreStage, number: nat)

  datatype LocalPart = Word(text: string) | Number(value: nat)

  datatype Parts = Parts(
    epoch: nat,
    release: seq<nat>,
    pre: Option<Pre>,
    post: Option<nat>,
    dev: Option<nat>,
    local: seq<LocalPart>)

  datatype Suffix = Suffix(
    preRank: int,
    preNumber: int,
    postRank: int,
    postNumber: int,
    devRank: int,
    devNumber: int)

  datatype Key = Key(epoch: nat, release: seq<nat>, suffix: Suffix, local: seq<LocalPart>)

  /** The tuple itself and the display-only `release`; program equality is equality of keys. */
  datatype Version = Version(key: Key, release: seq<nat>) {
    predicate IsPrerelease() {
      key.suffix.preRank != 3 || key.suffix.devRank == 0
    }
  }

  const FINAL_SUFFIX := Suffix(3, 0, 0, 0, 1, 0)

  // ---------- Encoding ----------

  function Strip(release: seq<nat>): (r: seq<nat>)
    ensures release != [] ==> r != []
  {
    if |release| > 1 && release[|release| - 1] == 0 then Strip(release[..|release| - 1]) else release
  }

  function PreRank(stage: PreStage): int {
    match stage
    case Alpha => 0
    case Beta => 1
    case Candidate => 2
  }

  function EncodeSuffix(pre: Option<Pre>, post: Option<nat>, dev: Option<nat>): Suffix {
    if pre.None? && post.None? && dev.None? then FINAL_SUFFIX
    else if pre.None? && post.None? then Suffix(-1, 0, 0, 0, 0, dev.value)
    else
      Suffix(
        if pre.None? then 3 else PreRank(pre.value.stage),
        if pre.None? then 0 else pre.value.number,
        if post.None? then 0 else 1,
        if post.None? then 0 else post.value,
        if dev.None? then 1 else 0,
        if dev.None? then 0 else dev.value)
  }

  function Encode(p: Parts): Version {
    Version(Key(p.epoch, Strip(p.release), EncodeSuffix(p.pre, p.post, p.dev), p.local), p.release)
  }

  function DecodePre(s: Suffix): Option<Pre> {
    if s.preRank == 0 && s.preNumber >= 0 then Some(Pre(Alpha, s.preNumber))
    else if s.preRank == 1 && s.preNumber >= 0 then Some(Pre(Beta, s.preNumber))
    else if s.preRank == 2 && s.preNumber >= 0 then Some(Pre(Candidate, s.preNumber))
    else None
  }

  function DecodePost(s: Suffix): Option<nat> {
    if s.postRank == 1 && s.postNumber >= 0 then Some(s.postNumber) else None
  }

  function DecodeDev(s: Suffix): Option<nat> {
    if s.devRank == 0 && s.devNumber >= 0 then Some(s.devNumber) else None
  }

  function Decode(v: Version): Parts {
    var s := v.key.suffix;
    Parts(v.key.epoch, v.release, DecodePre(s), DecodePost(s), DecodeDev(s), v.key.local)
  }

  /** Local label segments: words are nonempty lower-case alphanumerics with some letter. */
  predicate ValidLocalPart(part: LocalPart) {
    part.Word? ==>
      && part.text != ""
      && (forall i :: 0 <= i < |part.text| ==> Text.IsDigit(part.text[i]) || Text.IsLower(part.text[i]))
      && !Text.AllDigits(part.text)
  }

  predicate ValidParts(p: Parts) {
    && p.release != []
    && (forall i :: 0 <= i < |p.local| ==> ValidLocalPart(p.local[i]))
  }

  /** The versions the constructor can build; see `VersionText.ParseIsValid`. */
  predicate ValidVersion(v: Version) {
    ValidParts(Decode(v)) && Encode(Decode(v)) == v
  }

  lemma EncodeDecode(p: Parts)
    ensures Decode(Encode(p)) == p
    ensures ValidParts(p) ==> ValidVersion(Encode(p))
  {
  }

  lemma SuffixInjective(p: Parts, q: Parts)
    requires EncodeSuffix(p.pre, p.post, p.dev) == EncodeSuffix(q.pre, q.post, q.dev)
    ensures p.pre == q.pre && p.post == q.post && p.dev == q.dev
  {
    EncodeDecode(p);
    EncodeDecode(q);
  }

  // ---------- Program order: comparison of key tuples ----------

  function CmpSuffix(a: Suffix, b: Suffix): Cmp {
    CmpInt(a.preRank, b.preRank)
    .Then(CmpInt(a.preNumber, b.preNumber))
    .Then(CmpInt(a.postRank, b.postRank))
    .Then(CmpInt(a.postNumber, b.postNumber))
    .Then(CmpInt(a.devRank, b.devRank))
    .Then(CmpInt(a.devNumber, b.devNumber))
  }

  /** Segments are the tuples (0, text) and (1, number). */
  function CmpLocalPart(a: LocalPart, b: LocalPart): Cmp {
    match (a, b)
    case (Word(s), Word(t)) => CmpString(s, t)
    case (Number(m), Number(n)) => CmpInt(m, n)
    case (Word(_), Number(_)) => Less
    case (Number(_), Word(_)) => Greater
  }

  function CmpLocal(a: seq<LocalPart>, b: seq<LocalPart>): Cmp {
    CmpSeq(CmpLocalPart, a, b)
  }

  function CmpKey(a: Key, b: Key): Cmp {
    CmpInt(a.epoch, b.epoch)
    .Then(CmpInts(a.release, b.release))
    .Then(CmpSuffix(a.suffix, b.suffix))
    .Then(CmpLocal(a.local, b.local))
  }

  predicate Leq(a: Key, b: Key) {
    CmpKey(a, b) != Greater
  }

  predicate Lt(a: Key, b: Key) {
    CmpKey(a, b) == Less
  }

  lemma LocalPartTotalOrder()
    ensures TotalOrder(CmpLocalPart)
  {
    StringTotalOrder();
  }

  lemma LocalTotalOrder()
    ensures TotalOrder(CmpLocal)
  {
    LocalPartTotalOrder();
    forall a, b ensures (CmpLocal(a, b) == Equal <==> a == b) && CmpLocal(b, a) == CmpLocal(a, b).Flip() {
      SeqSymmetry(CmpLocalPart, a, b);
    }
    forall a, b, c | CmpLocal(a, b) != Greater && CmpLocal(b, c) != Greater ensures CmpLocal(a, c) != Greater {
      SeqTransitive(CmpLocalPart, a, b, c);
    }
  }

  lemma SuffixTotalOrder()
    ensures TotalOrder(CmpSuffix)
  {
    forall a, b, c | CmpSuffix(a, b) != Greater && CmpSuffix(b, c) != Greater ensures CmpSuffix(a, c) != Greater {
      SuffixTransitive(a, b, c);
    }
  }

  lemma SuffixTransitive(a: Suffix, b: Suffix, c: Suffix)
    requires CmpSuffix(a, b) != Greater && CmpSuffix(b, c) != Greater
    ensures CmpSuffix(a, c) != Greater
  {
  }

  /** Equal keys compare equal, and nothing else does; comparison flips; the order is transitive. */
  lemma KeyTotalOrder()
    ensures TotalOrder(CmpKey)
  {
    IntsTotalOrder();
    SuffixTotalOrder();
    LocalTotalOrder();
    forall a, b ensures (CmpKey(a, b) == Equal <==> a == b) && CmpKey(b, a) == CmpKey(a, b).Flip() {
      KeySymmetry(a, b);
    }
    forall a, b, c | CmpKey(a, b) != Greater && CmpKey(b, c) != Greater ensures CmpKey(a, c) != Greater {
      KeyTransitive(a, b, c);
    }
  }

  lemma KeySymmetry(a: Key, b: Key)
    ensures CmpKey(a, b) == Equal <==> a == b
    ensures CmpKey(b, a) == CmpKey(a, b).Flip()
  {
    IntsTotalOrder();
    SuffixTotalOrder();
    LocalTotalOrder();
    assert CmpInts(b.release, a.release) == CmpInts(a.release, b.release).Flip();
  }

  lemma KeyTransitive(a: Key, b: Key, c: Key)
    requires Leq(a, b) && Leq(b, c)
    ensures Leq(a, c)
    ensures Lt(a, b) || Lt(b, c) ==> Lt(a, c)
  {
    IntsTotalOrder();
    SuffixTotalOrder();
    LocalTotalOrder();
    assert CmpInts(a.release, c.release) == Equal <==> a.release == c.release;
    if a.epoch == b.epoch == c.epoch {
      ThenTransitive<seq<int>>(CmpInts, a.release, b.release, c.release);
      if a.release == b.release == c.release {
        ThenTransitive(CmpSuffix, a.suffix, b.suffix, c.suffix);
        if a.suffix == b.suffix == c.suffix {
          ThenTransitive(CmpLocal, a.local, b.local, c.local);
        }
      }
    }
  }

  lemma ThenTransitive<T(!new)>(cmp: (T, T) -> Cmp, a: T, b: T, c: T)
    requires TotalOrder(cmp)
    requires cmp(a, b) != Greater && cmp(b, c) != Greater
    ensures cmp(a, c) != Greater
    ensures cmp(a, c) == Equal ==> a == b == c
  {
    if cmp(a, c) == Equal {
      assert cmp(b, a) == cmp(a, b).Flip();
      assert cmp(b, a) != Greater ==> cmp(b, b) != Greater;
      assert a == c;
    }
  }

  // ---------- The ordering of the standard ----------

  function At(release: seq<nat>, i: nat): nat {
    if i < |release| then release[i] else 0
  }

  function Rest(release: seq<nat>): seq<nat> {
    if release == [] then [] else release[1..]
  }

  /** Releases compare segment by segment, the shorter one padded with zeros. */
  function CmpPadded(a: seq<nat>, b: seq<nat>): Cmp
    decreases |a| + |b|
  {
    if a == [] && b == [] then Equal
    else CmpInt(At(a, 0), At(b, 0)).Then(CmpPadded(Rest(a), Rest(b)))
  }

  /** Pre-release phases in order, each by number; a release without a phase comes after them all. */
  function CmpPre(a: Option<Pre>, b: Option<Pre>): Cmp {
    match (a, b)
    case (None, None) => Equal
    case (Some(_), None) => Less
    case (None, Some(_)) => Greater
    case (Some(x), Some(y)) => CmpInt(PreRank(x.stage), PreRank(y.stage)).Then(CmpInt(x.number, y.number))
  }

  /** A post-release comes after what it follows. */
  function CmpPost(a: Option<nat>, b: Option<nat>): Cmp {
    match (a, b)
    case (None, None) => Equal
    case (Some(_), None) => Greater
    case (None, Some(_)) => Less
    case (Some(x), Some(y)) => CmpInt(x, y)
  }

  /** A development release comes before what it leads to. */
  function CmpDev(a: Option<nat>, b: Option<nat>): Cmp {
    match (a, b)
    case (None, None) => Equal
    case (Some(_), None) => Less
    case (None, Some(_)) => Greater
    case (Some(x), Some(y)) => CmpInt(x, y)
  }

  /** A development release of the final release itself comes before its alphas. */
  predicate BareDev(p: Parts) {
    p.pre.None? && p.post.None? && p.dev.Some?
  }

  /** dev < a < b < rc < final < post, with a dev release just before whatever it leads to. */
  function CmpStage(a: Parts, b: Parts): Cmp {
    if BareDev(a) && BareDev(b) then CmpInt(a.dev.value, b.dev.value)
    else if BareDev(a) then Less
    else if BareDev(b) then Greater
    else
      CmpPre(a.pre, b.pre).Then(CmpPost(a.post, b.post)).Then(CmpDev(a.dev, b.dev))
  }

  function CmpParts(a: Parts, b: Parts): Cmp {
    CmpInt(a.epoch, b.epoch)
    .Then(CmpPadded(a.release, b.release))
    .Then(CmpStage(a, b))
    .Then(CmpLocal(a.local, b.local))
  }

  // ---------- The two orders agree ----------

  /** `Strip` that may remove every segment. */
  function Trim(release: seq<nat>): seq<nat> {
    if release != [] && release[|release| - 1] == 0 then Trim(release[..|release| - 1]) else release
  }

  lemma {:induction false} TrimOfCons(x: nat, r: seq<nat>)
    ensures Trim([x] + r) == if Trim(r) == [] && x == 0 then [] else [x] + Trim(r)
  {
    var s := [x] + r;
    if r == [] {
      assert s[..0] == [];
    } else if r[|r| - 1] == 0 {
      assert s[..|s| - 1] == [x] + r[..|r| - 1];
      TrimOfCons(x, r[..|r| - 1]);
    }
  }

  lemma {:induction false} TrimCmp(a: seq<nat>, b: seq<nat>)
    ensures CmpInts(Trim(a), Trim(b)) == CmpPadded(a, b)
    decreases |a| + |b|
  {
    if a == [] && b == [] {
    } else {
      TrimCmp(Rest(a), Rest(b));
      if a != [] { TrimOfCons(a[0], a[1..]); assert a == [a[0]] + a[1..]; }
      if b != [] { TrimOfCons(b[0], b[1..]); assert b == [b[0]] + b[1..]; }
      if Trim(a) != [] { assert Trim(a)[1..] == Trim(Rest(a)); }
      if Trim(b) != [] { assert Trim(b)[1..] == Trim(Rest(b)); }
    }
  }

  lemma {:induction false} StripIsTrim(r: seq<nat>)
    requires r != []
    ensures Strip(r) == if Trim(r) == [] then [0] else Trim(r)
  {
    if r[|r| - 1] == 0 {
      if |r| > 1 {
        StripIsTrim(r[..|r| - 1]);
      } else {
        assert r == [0];
      }
    }
  }

  lemma {:induction false} TrimLast(r: seq<nat>)
    ensures Trim(r) != [] ==> Trim(r)[|Trim(r)| - 1] != 0
  {
    if r != [] && r[|r| - 1] == 0 {
      TrimLast(r[..|r| - 1]);
    }
  }

  /** The single zero kept by `Strip` sorts like the empty trimmed release. */
  lemma {:induction false} ZeroCmp(r: seq<nat>)
    ensures Trim(r) != [] ==> CmpInts([0], Trim(r)) == Less && CmpInts(Trim(r), [0]) == Greater
  {
    TrimLast(r);
    var t := Trim(r);
    var zero: seq<int> := [0];
    assert zero[1..] == [];
    if t != [] && t[0] == 0 {
      assert |t| > 1;
      assert CmpInts(zero[1..], t[1..]) == Less && CmpInts(t[1..], zero[1..]) == Greater;
    }
  }

  /** Comparing stripped releases as tuples is comparing the releases with zero padding. */
  lemma {:induction false} StripCmp(a: seq<nat>, b: seq<nat>)
    requires a != [] && b != []
    ensures CmpInts(Strip(a), Strip(b)) == CmpPadded(a, b)
  {
    TrimCmp(a, b);
    StripIsTrim(a);
    StripIsTrim(b);
    ZeroCmp(a);
    ZeroCmp(b);
    IntsTotalOrder();
    assert Trim(a) == [] || Trim(b) == [] || CmpInts(Strip(a), Strip(b)) == CmpPadded(a, b);
    assert Trim(a) == [] && Trim(b) != [] ==> CmpInts(Trim(a), Trim(b)) == Less;
    assert Trim(b) == [] && Trim(a) != [] ==> CmpInts(Trim(a), Trim(b)) == Greater;
  }

  lemma StageCmp(a: Parts, b: Parts)
    ensures CmpSuffix(EncodeSuffix(a.pre, a.post, a.dev), EncodeSuffix(b.pre, b.post, b.dev)) == CmpStage(a, b)
  {
  }

  /** Tuple order on keys is the order of the standard on parts. */
  lemma KeyOrderIsPep440(a: Parts, b: Parts)
    requires ValidParts(a) && ValidParts(b)
    ensures CmpKey(Encode(a).key, Encode(b).key) == CmpParts(a, b)
  {
    StripCmp(a.release, b.release);
    StageCmp(a, b);
  }

  // ---------- Releases up to trailing zeros ----------

  lemma {:induction false} PaddedEqual(a: seq<nat>, b: seq<nat>)
    ensures CmpPadded(a, b) == Equal <==> forall i: nat :: At(a, i) == At(b, i)
    decreases |a| + |b|
  {
    if a == [] && b == [] {
    } else {
      PaddedEqual(Rest(a), Rest(b));
      if CmpPadded(a, b) == Equal {
        forall i: nat ensures At(a, i) == At(b, i) {
          if i > 0 { assert At(Rest(a), i - 1) == At(Rest(b), i - 1); }
        }
      }
      if forall i: nat :: At(a, i) == At(b, i) {
        assert At(a, 0) == At(b, 0);
        forall i: nat ensures At(Rest(a), i) == At(Rest(b), i) {
          assert At(a, i + 1) == At(b, i + 1);
        }
      }
    }
  }

  /** Stripped releases are equal exactly when the releases differ by trailing zeros only. */
  lemma {:induction false} StripEqual(a: seq<nat>, b: seq<nat>)
    requires a != [] && b != []
    ensures Strip(a) == Strip(b) <==> forall i: nat :: At(a, i) == At(b, i)
  {
    StripCmp(a, b);
    PaddedEqual(a, b);
    IntsTotalOrder();
    assert CmpInts(Strip(a), Strip(b)) == Equal <==> Strip(a) == Strip(b);
  }

  /** The first differing segment decides the comparison. */
  lemma {:induction false} PaddedFirstDifference(a: seq<nat>, b: seq<nat>, k: nat)
    requires forall i: nat :: i < k ==> At(a, i) == At(b, i)
    requires At(a, k) != At(b, k)
    ensures CmpPadded(a, b) == CmpInt(At(a, k), At(b, k))
    decreases k
  {
    if k > 0 {
      assert At(a, 0) == At(b, 0);
      forall i: nat | i < k - 1 ensures At(Rest(a), i) == At(Rest(b), i) {
        assert At(a, i + 1) == At(b, i + 1);
      }
      PaddedFirstDifference(Rest(a), Rest(b), k - 1);
    }
  }
}
