/**
  A set of clauses with its memo tables.

  `Plain` is containment without memory. The tables are keyed by version, and versions that differ in
  trailing zeros are one key; `===` does tell them apart. `MemoTransparent` says exactly for which
  sets the remembered answers are the plain ones, over any sequence of calls and sweeps.
*/
module SpecifierSets {
  import opened Wrappers
  import opened Versions
  import opened Specifiers
  import opened Caches
  import Bounds
  import VersionText
  import Text

  const CONTAINS_CACHE_SIZE: nat := 4096

  type Clauses = c: seq<Specifier> | Bounds.AllValid(c) witness []

  // ---------- Containment without memory ----------

  predicate ExplicitlyAllowsPrereleases(clauses: Clauses) {
    exists i :: 0 <= i < |clauses| && clauses[i].parsed.Some? && clauses[i].op != Ne && clauses[i].parsed.value.IsPrerelease()
  }

  predicate Plain(clauses: Clauses, version: Version, allow: bool) {
    && (version.IsPrerelease() ==> allow || ExplicitlyAllowsPrereleases(clauses))
    && forall i :: 0 <= i < |clauses| ==> Contains(clauses[i], version)
  }

  function ExactVersion(clauses: Clauses): Option<Version> {
    if |clauses| == 1 && clauses[0].op == Eq && !clauses[0].wildcard then clauses[0].parsed else None
  }

  predicate IsPinned(clauses: Clauses) {
    exists i :: 0 <= i < |clauses| && (clauses[i].op == Eq || clauses[i].op == Arbitrary) && !clauses[i].wildcard
  }

  /** A pinned set admits at most one release, up to local labels and trailing zeros. */
  lemma PinnedAdmitsOneRelease(clauses: Clauses, v: Version, w: Version, allow: bool, allow': bool)
    requires IsPinned(clauses) && ValidVersion(v) && ValidVersion(w)
    requires Plain(clauses, v, allow) && Plain(clauses, w, allow')
    ensures SamePublic(v, w)
  {
    hide VersionText.Public, VersionText.ParseVersion, ValidVersion, PrefixMatches, MatchesGt, MatchesLt;
    var i :| 0 <= i < |clauses| && (clauses[i].op == Eq || clauses[i].op == Arbitrary) && !clauses[i].wildcard;
    assert Contains(clauses[i], v) && Contains(clauses[i], w);
    if clauses[i].op == Arbitrary {
      VersionText.PublicInjective(v, w);
    }
  }

  /** The exact version of a set is admitted with or without prereleases, and nothing of another release is. */
  lemma ExactVersionMeaning(clauses: Clauses, v: Version, allow: bool)
    requires ExactVersion(clauses).Some? && ValidVersion(v)
    ensures var exact := ExactVersion(clauses).value;
      Plain(clauses, v, allow) <==> if exact.key.local == [] then SamePublic(v, exact) else v.key == exact.key
  {
    EqMeaning(clauses[0], v);
    assert clauses[0].parsed.value.IsPrerelease() ==> ExplicitlyAllowsPrereleases(clauses);
  }

  /** Every clause has to admit the version; a prerelease has to be allowed or to be asked for by some clause. */
  lemma PlainMeaning(clauses: Clauses, v: Version, allow: bool)
    requires ValidVersion(v)
    ensures Plain(clauses, v, allow) <==>
      && Bounds.AdmittedByAll(clauses, v)
      && (PreOrDev(Decode(v)) ==> allow || exists i :: 0 <= i < |clauses| && AsksPrerelease(clauses[i]))
  {
    hide Contains;
    PrereleaseParts(v);
    forall i | 0 <= i < |clauses|
      ensures AsksPrerelease(clauses[i]) <==>
        clauses[i].parsed.Some? && clauses[i].op != Ne && clauses[i].parsed.value.IsPrerelease()
    {
      if clauses[i].parsed.Some? { PrereleaseParts(clauses[i].parsed.value); }
    }
  }

  /** The clause names a pre- or development release, and not to exclude it. */
  predicate AsksPrerelease(s: Specifier) {
    s.op in {Eq, Ge, Le, Gt, Operator.Lt, Compatible} && s.parsed.Some? && PreOrDev(Decode(s.parsed.value))
  }

  /** One clause of `==` without a wildcard, or of `===`, pins a set; no other clause does. */
  lemma PinnedBy(clauses: Clauses, s: Specifier)
    requires ValidSpecifier(s)
    ensures !IsPinned([])
    ensures IsPinned(clauses + [s]) <==> IsPinned(clauses) || s.op == Arbitrary || (s.op == Eq && !s.wildcard)
  {
    var more := clauses + [s];
    assert forall i :: 0 <= i < |clauses| ==> more[i] == clauses[i];
    assert more[|clauses|] == s;
  }

  /** A set names its one version exactly if it is a single `==` clause without a wildcard. */
  lemma ExactlyOne(clauses: Clauses)
    ensures ExactVersion(clauses).Some? <==> exists s :: clauses == [s] && s.op == Eq && !s.wildcard
  {
    if |clauses| == 1 { assert clauses == [clauses[0]]; }
  }

  // ---------- Containment with memory ----------

  datatype Answer = Answer(result: bool, cache: map<Key, bool>)

  /** One call of `contains` on the table it consults. */
  function Ask(clauses: Clauses, version: Version, allow: bool, cache: map<Key, bool>): Answer {
    if clauses == [] && !version.IsPrerelease() then Answer(true, cache)
    else if version.key in cache then Answer(cache[version.key], cache)
    else
      var result := Plain(clauses, version, allow);
      Answer(result, BoundedPut(cache, version.key, result, CONTAINS_CACHE_SIZE))
  }

  class SpecifierSet {
    const clauses: Clauses
    var containsStable: map<Key, bool>
    var containsAll: map<Key, bool>

    ghost predicate Valid()
      reads this
    {
      |containsStable| <= CONTAINS_CACHE_SIZE && |containsAll| <= CONTAINS_CACHE_SIZE
    }

    constructor (clauses: Clauses)
      ensures Valid() && this.clauses == clauses && containsStable == containsAll == map[]
    {
      this.clauses := clauses;
      containsStable, containsAll := map[], map[];
    }

    /** `SpecifierSet.contains`: the table of the requested policy changes as `Ask` says, the other not at all. */
    method ContainsVersion(version: Version, allow: bool) returns (result: bool)
      requires Valid()
      modifies this
      ensures Valid()
      ensures var cache := if allow then old(containsAll) else old(containsStable);
        && result == Ask(clauses, version, allow, cache).result
        && (if allow then containsAll else containsStable) == Ask(clauses, version, allow, cache).cache
      ensures if allow then containsStable == old(containsStable) else containsAll == old(containsAll)
    {
      if clauses == [] && !version.IsPrerelease() {
        return true;
      }
      var cache := if allow then containsAll else containsStable;
      if version.key in cache {
        return cache[version.key];
      }
      if version.IsPrerelease() && !allow && !ExplicitlyAllowsPrereleases(clauses) {
        result := false;
      } else {
        result := true;
        var i := 0;
        while i < |clauses| && result
          invariant i <= |clauses|
          invariant result <==> forall j :: 0 <= j < i ==> Contains(clauses[j], version)
        {
          if !Contains(clauses[i], version) {
            result := false;
          }
          i := i + 1;
        }
      }
      BoundedPutSpec(cache, version.key, result, CONTAINS_CACHE_SIZE);
      cache := BoundedPut(cache, version.key, result, CONTAINS_CACHE_SIZE);
      if allow {
        containsAll := cache;
      } else {
        containsStable := cache;
      }
    }
  }

  // ---------- When memory is transparent ----------

  /** The answers to a sequence of calls, starting from some table. */
  function Answers(clauses: Clauses, calls: seq<Version>, allow: bool, cache: map<Key, bool>): seq<bool> {
    if calls == [] then []
    else
      var first := Ask(clauses, calls[0], allow, cache);
      [first.result] + Answers(clauses, calls[1..], allow, first.cache)
  }

  function PlainAnswers(clauses: Clauses, calls: seq<Version>, allow: bool): seq<bool> {
    seq(|calls|, i requires 0 <= i < |calls| => Plain(clauses, calls[i], allow))
  }

  predicate AllValidVersions(calls: seq<Version>) {
    forall i :: 0 <= i < |calls| ==> ValidVersion(calls[i])
  }

  ghost predicate Transparent(clauses: Clauses, allow: bool) {
    forall calls: seq<Version> | AllValidVersions(calls) ::
      Answers(clauses, calls, allow, map[]) == PlainAnswers(clauses, calls, allow)
  }

  /** Some `===` clause spells, canonically, a version that the whole set admits. */
  predicate NamesAdmitted(clauses: Clauses, allow: bool) {
    exists i :: 0 <= i < |clauses| && NamedBy(clauses, i, allow)
  }

  predicate NamedBy(clauses: Clauses, i: nat, allow: bool)
    requires i < |clauses|
  {
    && clauses[i].op == Arbitrary
    && var v := VersionText.ParseVersion(clauses[i].text);
       v.Some? && VersionText.Public(v.value) == clauses[i].text && Plain(clauses, v.value, allow)
  }

  lemma ExtraZero(v: Version) returns (w: Version)
    requires ValidVersion(v)
    ensures ValidVersion(w) && w.key == v.key && w != v
  {
    w := v.(release := v.release + [0]);
    assert (v.release + [0])[..|v.release|] == v.release;
    assert Strip(w.release) == Strip(v.release);
  }

  /** Without such a clause, versions with equal keys get equal plain answers. */
  lemma PlainRespectsKeys(clauses: Clauses, v: Version, w: Version, allow: bool)
    requires ValidVersion(v) && ValidVersion(w) && v.key == w.key
    requires !NamesAdmitted(clauses, allow)
    ensures Plain(clauses, v, allow) == Plain(clauses, w, allow)
  {
    if exists i :: 0 <= i < |clauses| && clauses[i].op == Arbitrary {
      var i :| 0 <= i < |clauses| && clauses[i].op == Arbitrary;
      ArbitraryRefuses(clauses, i, v, allow);
      ArbitraryRefuses(clauses, i, w, allow);
    } else {
      forall i | 0 <= i < |clauses| ensures Contains(clauses[i], v) == Contains(clauses[i], w) {
        ContainsRespectsKeys(clauses[i], v, w);
      }
    }
  }

  lemma ArbitraryRefuses(clauses: Clauses, i: nat, v: Version, allow: bool)
    requires i < |clauses| && clauses[i].op == Arbitrary && ValidVersion(v)
    requires !NamesAdmitted(clauses, allow)
    ensures !Plain(clauses, v, allow)
  {
    PlainNames(clauses, i, v, allow);
  }

  lemma PlainNames(clauses: Clauses, i: nat, v: Version, allow: bool)
    requires i < |clauses| && clauses[i].op == Arbitrary && ValidVersion(v)
    ensures Plain(clauses, v, allow) ==> NamedBy(clauses, i, allow)
  {
    hide VersionText.ParseVersion, VersionText.Public;
    VersionText.PublicRoundTrip(v);
  }

  /** Every remembered answer is the plain answer of every version with that key. */
  ghost predicate Faithful(clauses: Clauses, allow: bool, cache: map<Key, bool>) {
    forall v: Version | ValidVersion(v) && v.key in cache :: cache[v.key] == Plain(clauses, v, allow)
  }

  lemma AskFaithful(clauses: Clauses, v: Version, allow: bool, cache: map<Key, bool>)
    requires ValidVersion(v) && !NamesAdmitted(clauses, allow) && Faithful(clauses, allow, cache)
    ensures var a := Ask(clauses, v, allow, cache);
      a.result == Plain(clauses, v, allow) && Faithful(clauses, allow, a.cache)
  {
    hide Plain, NamesAdmitted, ValidVersion;
    if clauses == [] && !v.IsPrerelease() {
      EmptyAdmits(v, allow);
    } else if v.key !in cache {
      var a := Ask(clauses, v, allow, cache);
      forall w: Version | ValidVersion(w) && w.key in a.cache ensures a.cache[w.key] == Plain(clauses, w, allow) {
        if w.key == v.key { PlainRespectsKeys(clauses, v, w, allow); }
      }
    }
  }

  lemma EmptyAdmits(v: Version, allow: bool)
    requires !v.IsPrerelease()
    ensures Plain([], v, allow)
  {
  }

  lemma {:induction false} AnswersArePlain(clauses: Clauses, calls: seq<Version>, allow: bool, cache: map<Key, bool>)
    requires AllValidVersions(calls) && !NamesAdmitted(clauses, allow) && Faithful(clauses, allow, cache)
    ensures Answers(clauses, calls, allow, cache) == PlainAnswers(clauses, calls, allow)
  {
    hide Ask, Plain, NamesAdmitted, Faithful, ValidVersion;
    if calls != [] {
      AskFaithful(clauses, calls[0], allow, cache);
      assert AllValidVersions(calls[1..]);
      AnswersArePlain(clauses, calls[1..], allow, Ask(clauses, calls[0], allow, cache).cache);
      assert PlainAnswers(clauses, calls, allow)
          == [Plain(clauses, calls[0], allow)] + PlainAnswers(clauses, calls[1..], allow);
    }
  }

  /** Asking first for the named version and then for the same one with another zero is answered wrongly. */
  lemma NamedMisleads(clauses: Clauses, allow: bool) returns (calls: seq<Version>)
    requires NamesAdmitted(clauses, allow)
    ensures AllValidVersions(calls) && Answers(clauses, calls, allow, map[]) != PlainAnswers(clauses, calls, allow)
  {
    hide Ask, Plain, ValidVersion;
    var v, w := NamedPair(clauses, allow);
    calls := [v, w];
    PlainAnswer(clauses, v, allow);
    RememberedAnswer(clauses, w, allow, Ask(clauses, v, allow, map[]).cache);
    TwoAnswers(clauses, v, w, allow);
    assert PlainAnswers(clauses, calls, allow)[1] == Plain(clauses, w, allow);
  }

  /** The named version, and the same one with another zero. */
  lemma NamedPair(clauses: Clauses, allow: bool) returns (v: Version, w: Version)
    requires NamesAdmitted(clauses, allow)
    ensures ValidVersion(v) && ValidVersion(w) && v.key == w.key && clauses != []
    ensures Plain(clauses, v, allow) && !Plain(clauses, w, allow)
  {
    hide VersionText.ParseVersion, VersionText.Public, ValidVersion;
    var i :| 0 <= i < |clauses| && NamedBy(clauses, i, allow);
    v := VersionText.ParseVersion(clauses[i].text).value;
    VersionText.ParseIsValid(clauses[i].text);
    w := ExtraZero(v);
    VersionText.PublicInjective(v, w);
    assert !Contains(clauses[i], w);
  }

  lemma RememberedAnswer(clauses: Clauses, w: Version, allow: bool, cache: map<Key, bool>)
    requires clauses != [] && w.key in cache
    ensures Ask(clauses, w, allow, cache).result == cache[w.key]
  {
  }

  lemma PlainAnswer(clauses: Clauses, v: Version, allow: bool)
    ensures Ask(clauses, v, allow, map[]).result == Plain(clauses, v, allow)
    ensures clauses != [] ==> Ask(clauses, v, allow, map[]).cache == map[v.key := Plain(clauses, v, allow)]
  {
  }

  lemma {:induction false} TwoAnswers(clauses: Clauses, v: Version, w: Version, allow: bool)
    ensures Answers(clauses, [v, w], allow, map[])
         == [Ask(clauses, v, allow, map[]).result, Ask(clauses, w, allow, Ask(clauses, v, allow, map[]).cache).result]
  {
    hide Ask;
    var next := Ask(clauses, v, allow, map[]).cache;
    assert [v, w][1..] == [w] && [w][1..] == [];
    assert Answers(clauses, [w], allow, next) == [Ask(clauses, w, allow, next).result];
  }

  const ONE := Encode(Parts(0, [1], None, None, None, []))
  const ONE_ZERO := Encode(Parts(0, [1, 0], None, None, None, []))

  /** `===1`, asked for 1 and then for 1.0, answers true twice; the second answer should be false. */
  lemma {:induction false} ArbitraryOneMisleads(allow: bool)
    ensures var s := Specifier(Arbitrary, "1", None, false);
      && MakeSpecifier(Arbitrary, "1") == Some(s) && NamesAdmitted([s], allow)
      && AllValidVersions([ONE, ONE_ZERO])
      && Answers([s], [ONE, ONE_ZERO], allow, map[]) == [true, true]
      && PlainAnswers([s], [ONE, ONE_ZERO], allow) == [true, false]
  {
    hide VersionText.ParseVersion, VersionText.Public, Ask, ValidVersion;
    var s := Specifier(Arbitrary, "1", None, false);
    OneTexts();
    assert [s][0] == s && Contains([s][0], ONE) && !Contains([s][0], ONE_ZERO);
    assert Plain([s], ONE, allow) && !Plain([s], ONE_ZERO, allow);
    VersionText.PublicRoundTrip(ONE);
    assert NamedBy([s], 0, allow);
    PlainAnswer([s], ONE, allow);
    RememberedAnswer([s], ONE_ZERO, allow, Ask([s], ONE, allow, map[]).cache);
    TwoAnswers([s], ONE, ONE_ZERO, allow);
  }

  lemma OneTexts()
    ensures ValidVersion(ONE) && ValidVersion(ONE_ZERO) && ONE.key == ONE_ZERO.key
    ensures VersionText.Public(ONE) == "1" && VersionText.Public(ONE_ZERO) != "1"
    ensures !ONE.IsPrerelease() && !ONE_ZERO.IsPrerelease()
  {
    EncodeDecode(Parts(0, [1], None, None, None, []));
    EncodeDecode(Parts(0, [1, 0], None, None, None, []));
    assert [1, 0][..1] == [1];
    assert Text.NatText(1) == "1";
    assert VersionText.Texts([1]) == ["1"];
    assert VersionText.Public(ONE) == "1";
    hide VersionText.Public;
    VersionText.PublicInjective(ONE, ONE_ZERO);
  }

  /**
    For each prerelease policy, the memo table never changes an answer, whatever was asked before and
    however often the table was swept, exactly when no `===` clause canonically names an admitted
    version. Sets without `===` are among them.
  */
  lemma MemoTransparent(clauses: Clauses, allow: bool)
    ensures Transparent(clauses, allow) <==> !NamesAdmitted(clauses, allow)
    ensures (forall i :: 0 <= i < |clauses| ==> clauses[i].op != Arbitrary) ==> Transparent(clauses, allow)
  {
    if NamesAdmitted(clauses, allow) {
      var calls := NamedMisleads(clauses, allow);
    } else {
      assert Faithful(clauses, allow, map[]);
      forall calls: seq<Version> | AllValidVersions(calls)
        ensures Answers(clauses, calls, allow, map[]) == PlainAnswers(clauses, calls, allow)
      {
        AnswersArePlain(clauses, calls, allow, map[]);
      }
    }
  }
}
