/**
  Filtering and ranking the candidates of one project.

  Filtering keeps an order-preserving part of what it is given; ranking takes the first greatest
  sort key. `BestMeaning` states the policy the two amount to.
*/
module CandidateChoice {
  import opened Wrappers
  import opened Orders
  import opened Versions
  import opened Sequences
  import opened SpecifierSets
  import Text

  datatype Wheel = Wheel(tags: seq<string>, buildTag: Option<string>)

  /** `wheel` is the parsed wheel of the record; `fileWheel` is what the file name of a wheel link parses to. */
  datatype Candidate = Candidate(
    url: string, version: Version, digest: Option<string>, yanked: bool,
    eggFragment: Option<string>, wheel: Option<Wheel>, fileWheel: Option<Wheel>)

  /** `ranks` is what `SupportedTagRanks` makes of the supported tags. */
  datatype Evaluator = Evaluator(
    ranks: map<string, nat>, specifier: Clauses, allowPrereleases: Option<bool>, preferBinary: bool, hashes: Option<set<string>>)
  {
    predicate Stable(c: Candidate) {
      !c.version.IsPrerelease() && Plain(specifier, c.version, false)
    }

    predicate Matching(c: Candidate) {
      Plain(specifier, c.version, true)
    }

    predicate AllowedUnder(allow: bool, c: Candidate) {
      !(c.version.IsPrerelease() && !allow) && Plain(specifier, c.version, allow)
    }

    function AllowedBy(allow: bool): Candidate -> bool {
      c => AllowedUnder(allow, c)
    }

    /** The candidates the specifier and the prerelease policy let through. */
    function Matches(candidates: seq<Candidate>): seq<Candidate> {
      match allowPrereleases
      case None =>
        if ExplicitlyAllowsPrereleases(specifier) then Filter(Matching, candidates)
        else
          var stable := Filter(Stable, candidates);
          if stable != [] then stable else Filter(Matching, candidates)
      case Some(allow) => Filter(AllowedBy(allow), candidates)
    }

    function Allowed(): set<string> {
      if hashes.Some? then hashes.value else {}
    }

    function Applicable(candidates: seq<Candidate>): seq<Candidate> {
      HashFiltered(Matches(candidates), hashes)
    }

    function SortKeyOf(c: Candidate): SortKey {
      var wheel := if c.wheel.Some? then c.wheel else c.fileWheel;
      var wheelRank := if wheel.Some? then 1 else 0;
      SortKey(
        if HasDigestIn(c, Allowed()) then 1 else 0,
        if c.yanked then -1 else 0,
        c.version.key,
        if preferBinary then wheelRank else 0,
        wheelRank,
        if c.eggFragment.Some? then 0 else 1,
        if wheel.Some? then TagRank(ranks, wheel.value.tags) else UNSUPPORTED,
        if wheel.Some? then BuildTag(wheel.value.buildTag) else None)
    }

    function Best(candidates: seq<Candidate>): Option<Candidate> {
      if candidates == [] then None else Some(First(candidates))
    }

    /** `max` with a key: the leftmost of the greatest. */
    function First(candidates: seq<Candidate>): Candidate
      requires candidates != []
    {
      var last := candidates[|candidates| - 1];
      if |candidates| == 1 then last
      else
        var best := First(candidates[..|candidates| - 1]);
        if CmpSortKey(SortKeyOf(last), SortKeyOf(best)) == Greater then last else best
    }

    function ComputeBest(candidates: seq<Candidate>): Option<Candidate> {
      Best(Applicable(candidates))
    }
  }

  // ---------- Hashes ----------

  predicate HasDigestIn(c: Candidate, allowed: set<string>) {
    c.digest.Some? && c.digest.value in allowed
  }

  predicate NotRefuted(c: Candidate, allowed: set<string>) {
    c.digest.Some? ==> c.digest.value in allowed
  }

  function DigestTest(allowed: set<string>): Candidate -> bool {
    c => NotRefuted(c, allowed)
  }

  function MatchTest(allowed: set<string>): Candidate -> bool {
    c => HasDigestIn(c, allowed)
  }

  predicate SomeMatch(candidates: seq<Candidate>, allowed: set<string>) {
    Any(MatchTest(allowed), candidates)
  }

  /** Wrong digests count against candidates only when some candidate has a right one. */
  function HashFiltered(candidates: seq<Candidate>, hashes: Option<set<string>>): seq<Candidate> {
    if hashes.Some? && SomeMatch(candidates, hashes.value)
    then Filter(DigestTest(hashes.value), candidates)
    else candidates
  }

  lemma NoneAllowed(candidates: seq<Candidate>)
    ensures !SomeMatch(candidates, {})
  {
  }

  method FilterUnallowedHashes(candidates: seq<Candidate>, hashes: Option<set<string>>) returns (kept: seq<Candidate>)
    ensures kept == HashFiltered(candidates, hashes)
  {
    if hashes.None? {
      return candidates;
    }
    var allowed := hashes.value;
    if allowed == {} {
      NoneAllowed(candidates);
      return candidates;
    }
    var matches, noDigest, discarded := 0, 0, [];
    var result: seq<Candidate> := [];
    var i := 0;
    while i < |candidates|
      invariant i <= |candidates|
      invariant result == Filter(DigestTest(allowed), candidates[..i])
      invariant 0 <= matches && (matches > 0 <==> SomeMatch(candidates[..i], allowed))
    {
      var candidate := candidates[i];
      assert candidates[..i + 1] == candidates[..i] + [candidate];
      FilterLast(DigestTest(allowed), candidates[..i], candidate);
      AnyLast(MatchTest(allowed), candidates[..i], candidate);
      if candidate.digest.None? {
        noDigest := noDigest + 1;
        result := result + [candidate];
      } else if candidate.digest.value in allowed {
        matches := matches + 1;
        result := result + [candidate];
      } else {
        discarded := discarded + [candidate.url];
      }
      i := i + 1;
    }
    assert candidates[..i] == candidates;
    return if matches == 0 then candidates else result;
  }

  // ---------- Filtering through the memo tables ----------

  predicate AllParsed(candidates: seq<Candidate>) {
    forall i :: 0 <= i < |candidates| ==> ValidVersion(candidates[i].version)
  }

  predicate Lets(clauses: Clauses, allow: bool, finalOnly: bool, c: Candidate) {
    !(c.version.IsPrerelease() && finalOnly) && Plain(clauses, c.version, allow)
  }

  function LetsTest(clauses: Clauses, allow: bool, finalOnly: bool): Candidate -> bool {
    c => Lets(clauses, allow, finalOnly, c)
  }

  /** No `===` clause names an admitted version, and what the table of the policy remembers is right. */
  ghost predicate Trusted(clauses: Clauses, allow: bool, table: map<Key, bool>) {
    !NamesAdmitted(clauses, allow) && Faithful(clauses, allow, table)
  }

  /** One of the comprehensions, asking the set about each candidate in turn. */
  method AskEach(specifier: SpecifierSet, candidates: seq<Candidate>, allow: bool, finalOnly: bool) returns (kept: seq<Candidate>)
    requires specifier.Valid() && AllParsed(candidates)
    modifies specifier
    ensures specifier.Valid()
    ensures if allow then specifier.containsStable == old(specifier.containsStable)
      else specifier.containsAll == old(specifier.containsAll)
    ensures Trusted(specifier.clauses, allow, old(if allow then specifier.containsAll else specifier.containsStable)) ==>
      && kept == Filter(LetsTest(specifier.clauses, allow, finalOnly), candidates)
      && Trusted(specifier.clauses, allow, if allow then specifier.containsAll else specifier.containsStable)
  {
    hide Filter, Plain, NamesAdmitted, Faithful, SpecifierSets.Ask, Version.IsPrerelease, ValidVersion;
    kept := [];
    ghost var test := LetsTest(specifier.clauses, allow, finalOnly);
    ghost var trusted := Trusted(specifier.clauses, allow, if allow then specifier.containsAll else specifier.containsStable);
    FilterNothing(test);
    for i := 0 to |candidates|
      invariant specifier.Valid()
      invariant if allow then specifier.containsStable == old(specifier.containsStable)
        else specifier.containsAll == old(specifier.containsAll)
      invariant trusted ==>
        && kept == Filter(test, candidates[..i])
        && Trusted(specifier.clauses, allow, if allow then specifier.containsAll else specifier.containsStable)
    {
      var c := candidates[i];
      assert candidates[..i + 1] == candidates[..i] + [c];
      FilterLast(test, candidates[..i], c);
      if !(c.version.IsPrerelease() && finalOnly) {
        if trusted {
          AskFaithful(specifier.clauses, c.version, allow, if allow then specifier.containsAll else specifier.containsStable);
        }
        var admitted := specifier.ContainsVersion(c.version, allow);
        if admitted {
          kept := kept + [c];
        }
      }
    }
    assert candidates[..|candidates|] == candidates;
  }

  /** `get_applicable_candidates` on the tables of its specifier set. */
  method GetApplicable(e: Evaluator, specifier: SpecifierSet, candidates: seq<Candidate>) returns (kept: seq<Candidate>)
    requires specifier.Valid() && specifier.clauses == e.specifier && AllParsed(candidates)
    modifies specifier
    ensures specifier.Valid()
    ensures Trusted(e.specifier, false, old(specifier.containsStable)) && Trusted(e.specifier, true, old(specifier.containsAll)) ==>
      && kept == e.Applicable(candidates)
      && Trusted(e.specifier, false, specifier.containsStable) && Trusted(e.specifier, true, specifier.containsAll)
  {
    hide Filter, Plain, Trusted, HashFiltered;
    SameTests(e, candidates);
    var matching: seq<Candidate>;
    if e.allowPrereleases.Some? {
      var allow := e.allowPrereleases.value;
      matching := AskEach(specifier, candidates, allow, !allow);
    } else if ExplicitlyAllowsPrereleases(e.specifier) {
      matching := AskEach(specifier, candidates, true, false);
    } else {
      matching := AskEach(specifier, candidates, false, true);
      if matching == [] {
        matching := AskEach(specifier, candidates, true, false);
      }
    }
    kept := FilterUnallowedHashes(matching, e.hashes);
  }

  lemma {:induction false} SameTests(e: Evaluator, candidates: seq<Candidate>)
    ensures Filter(LetsTest(e.specifier, true, false), candidates) == Filter(e.Matching, candidates)
    ensures Filter(LetsTest(e.specifier, false, true), candidates) == Filter(e.Stable, candidates)
    ensures forall allow :: Filter(LetsTest(e.specifier, allow, !allow), candidates) == Filter(e.AllowedBy(allow), candidates)
  {
    hide Filter, Plain;
    FilterCongruent(LetsTest(e.specifier, true, false), e.Matching, candidates);
    FilterCongruent(LetsTest(e.specifier, false, true), e.Stable, candidates);
    forall allow ensures Filter(LetsTest(e.specifier, allow, !allow), candidates) == Filter(e.AllowedBy(allow), candidates) {
      FilterCongruent(LetsTest(e.specifier, allow, !allow), e.AllowedBy(allow), candidates);
    }
  }

  // ---------- Tags ----------

  /** Every supported tag, in lower case, ranks as its first occurrence. */
  predicate AreRanks(tags: seq<string>, ranks: map<string, nat>) {
    && (forall i :: 0 <= i < |tags| ==> Text.Lower(tags[i]) in ranks && ranks[Text.Lower(tags[i])] <= i)
    && (forall t :: t in ranks ==> ranks[t] < |tags| && Text.Lower(tags[ranks[t]]) == t)
  }

  method SupportedTagRanks(tags: seq<string>) returns (ranks: map<string, nat>)
    ensures AreRanks(tags, ranks)
  {
    ranks := map[];
    for i := 0 to |tags|
      invariant AreRanks(tags[..i], ranks)
    {
      var tag := Text.Lower(tags[i]);
      if tag !in ranks {
        ranks := ranks[tag := i];
      }
      assert tags[..i + 1] == tags[..i] + [tags[i]];
    }
    assert tags[..] == tags;
  }

  const UNSUPPORTED := -1_000_000

  /** The least rank among the tags of a file. */
  function BestRank(ranks: map<string, nat>, tags: seq<string>): Option<nat> {
    if tags == [] then None
    else
      var rest := BestRank(ranks, tags[1..]);
      var tag := Text.Lower(tags[0]);
      if tag !in ranks then rest
      else if rest.None? || ranks[tag] < rest.value then Some(ranks[tag])
      else rest
  }

  function TagRank(ranks: map<string, nat>, tags: seq<string>): int {
    var best := BestRank(ranks, tags);
    if best.Some? then -(best.value as int) else UNSUPPORTED
  }

  lemma {:induction false} BestRankSpec(ranks: map<string, nat>, tags: seq<string>)
    ensures var best := BestRank(ranks, tags);
      && (forall i :: 0 <= i < |tags| && Text.Lower(tags[i]) in ranks ==> best.Some? && best.value <= ranks[Text.Lower(tags[i])])
      && (best.Some? ==> exists i :: 0 <= i < |tags| && Text.Lower(tags[i]) in ranks && best.value == ranks[Text.Lower(tags[i])])
  {
    if tags != [] {
      BestRankSpec(ranks, tags[1..]);
      assert tags == [tags[0]] + tags[1..];
    }
  }

  predicate Carries(tags: seq<string>, tag: string) {
    exists i :: 0 <= i < |tags| && Text.Lower(tags[i]) == Text.Lower(tag)
  }

  /** The tag rank is minus the first position of the supported list that the file carries. */
  lemma {:induction false} TagRankMeaning(supported: seq<string>, ranks: map<string, nat>, tags: seq<string>, k: nat)
    requires AreRanks(supported, ranks) && k < |supported|
    ensures BestRank(ranks, tags) == Some(k)
       <==> (Carries(tags, supported[k]) && forall j :: 0 <= j < k ==> !Carries(tags, supported[j]))
    ensures BestRank(ranks, tags) == None <==> forall j :: 0 <= j < |supported| ==> !Carries(tags, supported[j])
  {
    BestRankSpec(ranks, tags);
    var best := BestRank(ranks, tags);
    forall j | 0 <= j < |supported| && Carries(tags, supported[j]) ensures best.Some? && best.value <= j {
    }
    if best.Some? {
      var i :| 0 <= i < |tags| && Text.Lower(tags[i]) in ranks && best.value == ranks[Text.Lower(tags[i])];
      assert Text.Lower(tags[i]) == Text.Lower(supported[best.value]);
      assert Carries(tags, supported[best.value]);
    }
  }

  /** `legacy_build_tag`: leading digits, then the rest as text. */
  function BuildTag(value: Option<string>): Option<(nat, string)> {
    if value.None? then None
    else
      var n := Text.DigitCount(value.value);
      Some((Text.NatValue(value.value[..n]), value.value[n..]))
  }

  lemma {:induction false} BuildTagMeans(digits: string, rest: string)
    requires Text.AllDigits(digits) && (rest != "" ==> !Text.IsDigit(rest[0]))
    ensures BuildTag(Some(digits + rest)) == Some((Text.NatValue(digits), rest))
  {
    Text.DigitRun(digits, rest);
  }

  // ---------- The sort key ----------

  datatype SortKey = SortKey(
    hashRank: int, yankedRank: int, version: Key, binaryPreference: int,
    wheelRank: int, eggRank: int, tagRank: int, buildTag: Option<(nat, string)>)
  {
    function Policy(): seq<int> { [hashRank, yankedRank] }
    function Artifact(): seq<int> { [binaryPreference, wheelRank, eggRank, tagRank] }
  }

  /** The empty tuple comes before any (number, text). */
  function CmpBuild(a: Option<(nat, string)>, b: Option<(nat, string)>): Cmp {
    match (a, b)
    case (None, None) => Equal
    case (None, Some(_)) => Less
    case (Some(_), None) => Greater
    case (Some(x), Some(y)) => CmpInt(x.0, y.0).Then(CmpString(x.1, y.1))
  }

  function CmpSortKey(a: SortKey, b: SortKey): Cmp {
    CmpInts(a.Policy(), b.Policy())
    .Then(CmpKey(a.version, b.version))
    .Then(CmpInts(a.Artifact(), b.Artifact()))
    .Then(CmpBuild(a.buildTag, b.buildTag))
  }

  lemma BuildTotalOrder()
    ensures TotalOrder(CmpBuild)
  {
    StringTotalOrder();
    forall a, b, c | CmpBuild(a, b) != Greater && CmpBuild(b, c) != Greater ensures CmpBuild(a, c) != Greater {
      if a.Some? && b.Some? && c.Some? && a.value.0 == b.value.0 == c.value.0 {
        ThenTransitive<string>(CmpString, a.value.1, b.value.1, c.value.1);
      }
    }
    forall a, b ensures (CmpBuild(a, b) == Equal <==> a == b) && CmpBuild(b, a) == CmpBuild(a, b).Flip() {
      BuildSymmetry(a, b);
    }
  }

  lemma BuildSymmetry(a: Option<(nat, string)>, b: Option<(nat, string)>)
    requires TotalOrder(CmpString)
    ensures CmpBuild(a, b) == Equal <==> a == b
    ensures CmpBuild(b, a) == CmpBuild(a, b).Flip()
  {
    hide CmpString;
    if a.Some? && b.Some? {
      assert CmpString(b.value.1, a.value.1) == CmpString(a.value.1, b.value.1).Flip();
    }
  }

  /** Sort keys are totally ordered, so the greatest is unique up to the order of the candidates. */
  lemma SortKeyTotalOrder()
    ensures TotalOrder(CmpSortKey)
  {
    hide CmpSortKey;
    forall a, b ensures (CmpSortKey(a, b) == Equal <==> a == b) && CmpSortKey(b, a) == CmpSortKey(a, b).Flip() {
      SortKeySymmetry(a, b);
    }
    forall a, b, c | CmpSortKey(a, b) != Greater && CmpSortKey(b, c) != Greater ensures CmpSortKey(a, c) != Greater {
      SortKeyTransitive(a, b, c);
    }
  }

  lemma SortKeySymmetry(a: SortKey, b: SortKey)
    ensures CmpSortKey(a, b) == Equal <==> a == b
    ensures CmpSortKey(b, a) == CmpSortKey(a, b).Flip()
  {
    hide CmpInts, CmpKey, CmpBuild;
    IntsTotalOrder();
    KeyTotalOrder();
    BuildTotalOrder();
    assert CmpInts(b.Policy(), a.Policy()) == CmpInts(a.Policy(), b.Policy()).Flip();
    assert CmpInts(b.Artifact(), a.Artifact()) == CmpInts(a.Artifact(), b.Artifact()).Flip();
    assert a.Policy()[0] == a.hashRank && a.Policy()[1] == a.yankedRank;
    assert b.Policy()[0] == b.hashRank && b.Policy()[1] == b.yankedRank;
    assert a.Artifact()[0] == a.binaryPreference && a.Artifact()[1] == a.wheelRank;
    assert a.Artifact()[2] == a.eggRank && a.Artifact()[3] == a.tagRank;
    assert b.Artifact()[0] == b.binaryPreference && b.Artifact()[1] == b.wheelRank;
    assert b.Artifact()[2] == b.eggRank && b.Artifact()[3] == b.tagRank;
  }

  lemma SortKeyTransitive(a: SortKey, b: SortKey, c: SortKey)
    requires CmpSortKey(a, b) != Greater && CmpSortKey(b, c) != Greater
    ensures CmpSortKey(a, c) != Greater
  {
    hide CmpInts, CmpKey, CmpBuild;
    IntsTotalOrder();
    KeyTotalOrder();
    BuildTotalOrder();
    ThenTransitive<seq<int>>(CmpInts, a.Policy(), b.Policy(), c.Policy());
    if a.Policy() == b.Policy() == c.Policy() {
      ThenTransitive(CmpKey, a.version, b.version, c.version);
      if a.version == b.version == c.version {
        ThenTransitive<seq<int>>(CmpInts, a.Artifact(), b.Artifact(), c.Artifact());
        if a.Artifact() == b.Artifact() == c.Artifact() {
          ThenTransitive(CmpBuild, a.buildTag, b.buildTag, c.buildTag);
        }
      }
    }
  }

  // ---------- What is applicable ----------

  /** Candidates are neither reordered nor invented. */
  lemma ApplicableIsSubsequence(e: Evaluator, candidates: seq<Candidate>)
    ensures Subsequence(e.Applicable(candidates), candidates)
  {
    MatchesIsSubsequence(e, candidates);
    var matching := e.Matches(candidates);
    WholeIsSubsequence(matching);
    if e.hashes.Some? {
      var places := FilterSpec(DigestTest(e.hashes.value), matching);
    }
    assert Subsequence(e.Applicable(candidates), matching);
    SubsequenceTransitive(e.Applicable(candidates), matching, candidates);
  }

  lemma MatchesIsSubsequence(e: Evaluator, candidates: seq<Candidate>)
    ensures Subsequence(e.Matches(candidates), candidates)
  {
    hide Plain, ExplicitlyAllowsPrereleases, Filter;
    var all := FilterSpec(e.Matching, candidates);
    var stable := FilterSpec(e.Stable, candidates);
    if e.allowPrereleases.Some? {
      var allow := e.allowPrereleases.value;
      var some := FilterSpec(e.AllowedBy(allow), candidates);
    }
  }

  /** A final release is let through exactly when the clauses admit it. */
  lemma FinalMatches(e: Evaluator, candidates: seq<Candidate>, c: Candidate)
    requires !c.version.IsPrerelease()
    ensures c in e.Matches(candidates) <==> c in candidates && e.Matching(c)
  {
    hide Plain, ExplicitlyAllowsPrereleases, Filter, Version.IsPrerelease, Evaluator.Matches;
    FilterPolicies(e, candidates);
    PolicyCases(e, candidates);
    FinalIsStable(e, c);
    if c in candidates && e.Stable(c) {
      assert c in Filter(e.Stable, candidates);
    }
  }

  /** Of a final release the prerelease policy makes no difference. */
  lemma FinalIsStable(e: Evaluator, c: Candidate)
    requires !c.version.IsPrerelease()
    ensures e.Stable(c) <==> e.Matching(c)
    ensures forall allow :: e.AllowedUnder(allow, c) <==> e.Matching(c)
  {
  }

  /** When the evaluator lets prereleases through. */
  predicate PrereleasesWanted(e: Evaluator, candidates: seq<Candidate>) {
    match e.allowPrereleases
    case Some(allow) => allow
    case None => ExplicitlyAllowsPrereleases(e.specifier) || !Any(e.Stable, candidates)
  }

  /**
    A prerelease is let through exactly when the clauses admit it and prereleases are wanted: by
    policy, or, without a policy, because a clause names one or because no final release matches.
  */
  lemma PrereleaseMatches(e: Evaluator, candidates: seq<Candidate>, c: Candidate)
    requires c.version.IsPrerelease()
    ensures c in e.Matches(candidates) <==> c in candidates && e.Matching(c) && PrereleasesWanted(e, candidates)
  {
    hide Plain, ExplicitlyAllowsPrereleases, Filter, Any, Version.IsPrerelease, Evaluator.Matches;
    FilterPolicies(e, candidates);
    PolicyCases(e, candidates);
    FilterNonempty(e.Stable, candidates);
    StableIsFinal(e, c);
    AllowedPrerelease(e, c);
  }

  lemma {:induction false} PolicyCases(e: Evaluator, candidates: seq<Candidate>)
    ensures e.allowPrereleases.None? ==>
      e.Matches(candidates) ==
        if ExplicitlyAllowsPrereleases(e.specifier) || Filter(e.Stable, candidates) == [] then Filter(e.Matching, candidates)
        else Filter(e.Stable, candidates)
  {
    hide Plain, ExplicitlyAllowsPrereleases, Filter;
  }

  lemma StableIsFinal(e: Evaluator, c: Candidate)
    ensures e.Stable(c) ==> !c.version.IsPrerelease() && e.Matching(c)
  {
  }

  lemma AllowedPrerelease(e: Evaluator, c: Candidate)
    ensures c.version.IsPrerelease() ==> (forall allow :: e.AllowedUnder(allow, c) <==> allow && e.Matching(c))
  {
  }

  lemma {:induction false} FilterPolicies(e: Evaluator, candidates: seq<Candidate>)
    ensures forall c :: c in Filter(e.Matching, candidates) <==> c in candidates && e.Matching(c)
    ensures forall c :: c in Filter(e.Stable, candidates) <==> c in candidates && e.Stable(c)
    ensures e.allowPrereleases.Some? ==>
      var allow := e.allowPrereleases.value;
      forall c :: c in e.Matches(candidates)
        <==> c in candidates && e.AllowedUnder(allow, c)
  {
    hide Plain, ExplicitlyAllowsPrereleases, Filter;
    var all := FilterSpec(e.Matching, candidates);
    var stable := FilterSpec(e.Stable, candidates);
    if e.allowPrereleases.Some? {
      var allow := e.allowPrereleases.value;
      var some := FilterSpec(e.AllowedBy(allow), candidates);
    }
  }

  /** A right digest is never discarded, and with one present every wrong digest is. */
  lemma DigestsApplicable(e: Evaluator, candidates: seq<Candidate>, c: Candidate)
    ensures c in e.Applicable(candidates) <==>
      (c in e.Matches(candidates) && (SomeMatch(e.Matches(candidates), e.Allowed()) ==> NotRefuted(c, e.Allowed())))
  {
    NoneAllowed(e.Matches(candidates));
    if e.hashes.Some? {
      var places := FilterSpec(DigestTest(e.hashes.value), e.Matches(candidates));
    }
  }

  // ---------- What is best ----------

  lemma {:induction false} FirstSpec(e: Evaluator, s: seq<Candidate>) returns (k: nat)
    requires s != []
    ensures k < |s| && s[k] == e.First(s)
    ensures forall i :: 0 <= i < k ==> CmpSortKey(e.SortKeyOf(s[i]), e.SortKeyOf(s[k])) == Less
    ensures forall i :: k <= i < |s| ==> CmpSortKey(e.SortKeyOf(s[i]), e.SortKeyOf(s[k])) != Greater
  {
    hide CmpSortKey, Evaluator.SortKeyOf;
    SortKeyTotalOrder();
    var last := |s| - 1;
    if |s| == 1 {
      k := 0;
    } else {
      var front := s[..last];
      var j := FirstSpec(e, front);
      assert s[j] == front[j];
      forall i | 0 <= i < last ensures s[i] == front[i] { }
      if CmpSortKey(e.SortKeyOf(s[last]), e.SortKeyOf(s[j])) == Greater {
        k := last;
        forall i | 0 <= i < last ensures CmpSortKey(e.SortKeyOf(s[i]), e.SortKeyOf(s[last])) == Less {
          StrictlyAbove(e.SortKeyOf(front[i]), e.SortKeyOf(s[j]), e.SortKeyOf(s[last]));
        }
      } else {
        k := j;
      }
    }
  }

  lemma StrictlyAbove(a: SortKey, b: SortKey, c: SortKey)
    requires CmpSortKey(a, b) != Greater && CmpSortKey(c, b) == Greater
    ensures CmpSortKey(a, c) == Less
  {
    hide CmpSortKey;
    SortKeyTotalOrder();
    assert CmpSortKey(b, c) == CmpSortKey(c, b).Flip();
    assert CmpSortKey(b, a) == CmpSortKey(a, b).Flip();
    assert CmpSortKey(a, c) == Equal <==> a == c;
  }

  predicate IsWheel(c: Candidate) {
    c.wheel.Some? || c.fileWheel.Some?
  }

  /** The tags and build tag of a wheel; the parsed wheel goes before the file name. */
  function TagsOf(c: Candidate): seq<string> {
    if c.wheel.Some? then c.wheel.value.tags else if c.fileWheel.Some? then c.fileWheel.value.tags else []
  }

  function BuildOf(c: Candidate): Option<(nat, string)> {
    if c.wheel.Some? then BuildTag(c.wheel.value.buildTag)
    else if c.fileWheel.Some? then BuildTag(c.fileWheel.value.buildTag)
    else None
  }

  /** The first supported tag that `d` carries is no later than the one `c` carries. */
  predicate TagsPreferred(e: Evaluator, c: Candidate, d: Candidate) {
    var mine, best := BestRank(e.ranks, TagsOf(c)), BestRank(e.ranks, TagsOf(d));
    && (mine.Some? && mine.value < 1_000_000 ==> best.Some? && best.value <= mine.value)
    && (mine.None? && best.Some? ==> best.value <= 1_000_000)
    && (mine == best ==> BuildPreferred(BuildOf(c), BuildOf(d)))
  }

  /** A build tag is better than none, then the higher number, then the later text. */
  predicate BuildPreferred(mine: Option<(nat, string)>, best: Option<(nat, string)>) {
    mine.Some? ==>
      && best.Some? && mine.value.0 <= best.value.0
      && (mine.value.0 == best.value.0 ==> CmpString(mine.value.1, best.value.1) != Greater)
  }

  /** Of one version: a wheel, then a link without an egg fragment, then the tags, then the build tag. */
  predicate FilePreferred(e: Evaluator, c: Candidate, d: Candidate) {
    && (IsWheel(c) ==> IsWheel(d))
    && (IsWheel(c) == IsWheel(d) ==>
          && (c.eggFragment.None? ==> d.eggFragment.None?)
          && (c.eggFragment.None? == d.eggFragment.None? ==> TagsPreferred(e, c, d)))
  }

  /** `d` is at least as good as `c`: right digest, then not yanked, then version, then kind of file. */
  predicate Preferred(e: Evaluator, c: Candidate, d: Candidate) {
    && (HasDigestIn(c, e.Allowed()) ==> HasDigestIn(d, e.Allowed()))
    && (HasDigestIn(c, e.Allowed()) == HasDigestIn(d, e.Allowed()) ==>
          && (d.yanked ==> c.yanked)
          && (c.yanked == d.yanked ==>
                && Leq(c.version.key, d.version.key)
                && (c.version.key == d.version.key ==> FilePreferred(e, c, d))))
  }

  /** The choice at `k` beats everything to its left. */
  predicate AheadOfEarlier(e: Evaluator, s: seq<Candidate>, k: nat)
    requires k < |s|
  {
    forall i :: 0 <= i < k ==> CmpSortKey(e.SortKeyOf(s[i]), e.SortKeyOf(s[k])) == Less
  }

  lemma PreferredByKey(e: Evaluator, c: Candidate, d: Candidate)
    requires CmpSortKey(e.SortKeyOf(c), e.SortKeyOf(d)) != Greater
    ensures Preferred(e, c, d)
  {
    hide CmpInts, CmpBuild, CmpKey, FilePreferred;
    KeyTotalOrder();
    IntsTotalOrder();
    var k, best := e.SortKeyOf(c), e.SortKeyOf(d);
    PairOrder(k.hashRank, k.yankedRank, best.hashRank, best.yankedRank);
    if CmpInts(k.Artifact(), best.Artifact()).Then(CmpBuild(k.buildTag, best.buildTag)) != Greater {
      FileByKey(e, c, d);
    }
  }

  lemma FileByKey(e: Evaluator, c: Candidate, d: Candidate)
    requires var k, best := e.SortKeyOf(c), e.SortKeyOf(d);
      CmpInts(k.Artifact(), best.Artifact()).Then(CmpBuild(k.buildTag, best.buildTag)) != Greater
    ensures FilePreferred(e, c, d)
  {
    hide CmpInts, CmpString, BuildTag, BestRank, HasDigestIn;
    var k, best := e.SortKeyOf(c), e.SortKeyOf(d);
    ArtifactOrder(k, best);
    assert BestRank(e.ranks, []) == None by { NoTags(e.ranks); }
  }

  lemma {:induction false} NoTags(ranks: map<string, nat>)
    ensures BestRank(ranks, []) == None
  {
  }

  lemma ArtifactOrder(a: SortKey, b: SortKey)
    ensures CmpInts(a.Artifact(), b.Artifact()) ==
      CmpInt(a.binaryPreference, b.binaryPreference)
      .Then(CmpInt(a.wheelRank, b.wheelRank))
      .Then(CmpInt(a.eggRank, b.eggRank))
      .Then(CmpInt(a.tagRank, b.tagRank))
  {
    var x, y := a.Artifact(), b.Artifact();
    assert x == [a.binaryPreference, a.wheelRank] + [a.eggRank, a.tagRank];
    assert x[1..] == [a.wheelRank, a.eggRank, a.tagRank] && y[1..] == [b.wheelRank, b.eggRank, b.tagRank];
    TripleOrder(a.wheelRank, a.eggRank, a.tagRank, b.wheelRank, b.eggRank, b.tagRank);
  }

  lemma TripleOrder(a: int, b: int, c: int, x: int, y: int, z: int)
    ensures CmpInts([a, b, c], [x, y, z]) == CmpInt(a, x).Then(CmpInt(b, y)).Then(CmpInt(c, z))
  {
    assert [a, b, c][1..] == [b, c] && [x, y, z][1..] == [y, z];
    PairOrder(b, c, y, z);
  }

  lemma PairOrder(a: int, b: int, c: int, d: int)
    ensures CmpInts([a, b], [c, d]) == CmpInt(a, c).Then(CmpInt(b, d))
  {
    assert [a, b][1..] == [b] && [c, d][1..] == [d] && [b][1..] == [] && [d][1..] == [];
    assert CmpInts([b], [d]) == CmpInt(b, d).Then(CmpInts([], []));
  }

  /** The two wheel ranks stand side by side after the version, so preferring binaries changes no choice. */
  lemma {:induction false} PreferBinaryIdle(e: Evaluator, candidates: seq<Candidate>, prefer: bool)
    ensures e.(preferBinary := prefer).ComputeBest(candidates) == e.ComputeBest(candidates)
  {
    hide Filter, Plain, HashFiltered, ExplicitlyAllowsPrereleases;
    var other := e.(preferBinary := prefer);
    SameApplicable(e, candidates, prefer);
    if e.Applicable(candidates) != [] { SameFirst(e, e.Applicable(candidates), prefer); }
  }

  lemma {:induction false} SameApplicable(e: Evaluator, candidates: seq<Candidate>, prefer: bool)
    ensures e.(preferBinary := prefer).Applicable(candidates) == e.Applicable(candidates)
  {
    hide Filter, Plain, HashFiltered, ExplicitlyAllowsPrereleases;
    var other := e.(preferBinary := prefer);
    FilterCongruent(other.Matching, e.Matching, candidates);
    FilterCongruent(other.Stable, e.Stable, candidates);
    if e.allowPrereleases.Some? {
      var allow := e.allowPrereleases.value;
      FilterCongruent(other.AllowedBy(allow), e.AllowedBy(allow), candidates);
    }
  }

  lemma {:induction false} SameFirst(e: Evaluator, s: seq<Candidate>, prefer: bool)
    requires s != []
    ensures e.(preferBinary := prefer).First(s) == e.First(s)
  {
    hide CmpSortKey, Evaluator.SortKeyOf;
    if |s| > 1 {
      SameFirst(e, s[..|s| - 1], prefer);
      SameOrder(e, s[|s| - 1], e.First(s[..|s| - 1]), prefer);
    }
  }

  lemma SameOrder(e: Evaluator, c: Candidate, d: Candidate, prefer: bool)
    ensures var other := e.(preferBinary := prefer);
      CmpSortKey(other.SortKeyOf(c), other.SortKeyOf(d)) == CmpSortKey(e.SortKeyOf(c), e.SortKeyOf(d))
  {
    hide CmpInts, CmpBuild, CmpKey, HasDigestIn, TagRank, BuildTag;
    var other := e.(preferBinary := prefer);
    ArtifactOrder(e.SortKeyOf(c), e.SortKeyOf(d));
    ArtifactOrder(other.SortKeyOf(c), other.SortKeyOf(d));
    assert other.SortKeyOf(c).Policy() == e.SortKeyOf(c).Policy();
    assert other.SortKeyOf(d).Policy() == e.SortKeyOf(d).Policy();
  }

  /**
    There is a best candidate exactly when one is applicable. It is applicable, and at least as good
    as every applicable candidate in the order of preference; in particular it has a right digest
    when any candidate that passed the specifier has one, and of those with equal keys it is the leftmost.
  */
  lemma BestMeaning(e: Evaluator, candidates: seq<Candidate>)
    ensures var applicable, best := e.Applicable(candidates), e.ComputeBest(candidates);
      && (best == None <==> applicable == [])
      && (best.Some? ==>
            && (exists k :: 0 <= k < |applicable| && applicable[k] == best.value && AheadOfEarlier(e, applicable, k))
            && (forall c :: c in applicable ==> Preferred(e, c, best.value))
            && (SomeMatch(e.Matches(candidates), e.Allowed()) ==> HasDigestIn(best.value, e.Allowed())))
  {
    hide Preferred, CmpSortKey, Evaluator.SortKeyOf, Evaluator.Applicable, Evaluator.Matches;
    var applicable := e.Applicable(candidates);
    if applicable != [] {
      var k := FirstSpec(e, applicable);
      var best := applicable[k];
      assert AheadOfEarlier(e, applicable, k);
      forall c | c in applicable ensures Preferred(e, c, best) {
        var i :| 0 <= i < |applicable| && applicable[i] == c;
        PreferredByKey(e, c, best);
      }
      if SomeMatch(e.Matches(candidates), e.Allowed()) {
        var matching := e.Matches(candidates);
        var i :| 0 <= i < |matching| && HasDigestIn(matching[i], e.Allowed());
        DigestsApplicable(e, candidates, matching[i]);
        assert Preferred(e, matching[i], best);
        RightDigestWins(e, matching[i], best);
      }
    }
  }

  lemma RightDigestWins(e: Evaluator, c: Candidate, d: Candidate)
    requires Preferred(e, c, d) && HasDigestIn(c, e.Allowed())
    ensures HasDigestIn(d, e.Allowed())
  {
  }
}
