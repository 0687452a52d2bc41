/**
  The compact catalog of one project page: artifacts grouped by release, eligibility facts by
  release, and the summary sorted by version.

  A link enters as the record kept of it and the identity its file name parses to. Nothing is lost
  (`RecordsPreserved`), and the facts answer what the links would (`SummaryAnswers`).
*/
module Catalogs {
  import opened Wrappers
  import opened Sequences
  import opened OrderedDicts
  import Versions
  import VersionText
  import Sorting

  type Kind = k: bv8 | k == 1 || k == 2 witness 1

  const WHEEL_RECORD: Kind := 1
  const SDIST_RECORD: Kind := 2

  datatype Record = Record(
    url: string, text: string, hashes: map<string, string>, requiresPython: Option<string>,
    yanked: Option<string>, metadata: Option<map<string, string>>, uploadTime: Option<string>)

  datatype Identity = Identity(kind: Kind, name: string, version: Versions.Version)

  datatype Link = Link(record: Record, identity: Option<Identity>)

  datatype Artifact = Artifact(kind: Kind, record: Record)

  datatype Fact = Fact(mask: bv8, requiresPython: Option<string>, yanked: Option<string>)

  datatype Group = Group(name: string, version: string, artifacts: seq<Artifact>, facts: seq<Fact>)

  datatype Catalog = Catalog(groups: seq<Group>, unparsed: seq<Record>)

  /** A group as the summary keeps it; `VersionWire` says how `state` is stored. */
  datatype SummaryGroup = SummaryGroup(name: string, version: string, state: Versions.Version, facts: seq<Fact>)

  predicate ValidLinks(links: seq<Link>) {
    forall i :: 0 <= i < |links| && links[i].identity.Some? ==> Versions.ValidVersion(links[i].identity.value.version)
  }

  // ---------- Facts ----------

  type FactKey = (Option<string>, Option<string>)

  function KeyOf(a: Artifact): FactKey {
    (a.record.requiresPython, a.record.yanked)
  }

  function With(mask: bv8, kind: Kind): bv8 {
    mask | kind
  }

  predicate Has(mask: bv8, kind: Kind) {
    mask & kind != 0
  }

  /** The kinds of the artifacts, collected as bits for each pair of constraints. */
  function Masks(artifacts: seq<Artifact>): (masks: Dict<FactKey, bv8>)
    ensures masks.Valid()
  {
    if artifacts == [] then Dict([], map[])
    else
      var last, masks := artifacts[|artifacts| - 1], Masks(artifacts[..|artifacts| - 1]);
      masks.Put(KeyOf(last), With(masks.Get(KeyOf(last), 0), last.kind))
  }

  function FactAt(masks: Dict<FactKey, bv8>, i: nat): Fact
    requires masks.Valid() && i < |masks.keys|
  {
    var key := masks.keys[i];
    Fact(masks.table[key], key.0, key.1)
  }

  function FactsOf(masks: Dict<FactKey, bv8>): seq<Fact>
    requires masks.Valid()
  {
    seq(|masks.keys|, i requires 0 <= i < |masks.keys| => FactAt(masks, i))
  }

  function ReleaseFacts(artifacts: seq<Artifact>): seq<Fact> {
    FactsOf(Masks(artifacts))
  }

  method CollectFacts(artifacts: seq<Artifact>) returns (facts: seq<Fact>)
    ensures facts == ReleaseFacts(artifacts)
  {
    hide Masks, KeyOf;
    var masks: Dict<FactKey, bv8> := Dict([], map[]);
    NoMasks();
    for i := 0 to |artifacts|
      invariant masks == Masks(artifacts[..i])
    {
      var key := KeyOf(artifacts[i]);
      assert artifacts[..i + 1] == artifacts[..i] + [artifacts[i]];
      MasksLast(artifacts[..i], artifacts[i]);
      masks := masks.Put(key, masks.Get(key, 0) | artifacts[i].kind);
    }
    assert artifacts[..|artifacts|] == artifacts;
    facts := [];
    for i := 0 to |masks.keys|
      invariant facts == FactsOf(masks)[..i]
    {
      facts := facts + [FactAt(masks, i)];
    }
    assert FactsOf(masks)[..|masks.keys|] == FactsOf(masks);
  }

  lemma NoMasks()
    ensures Masks([]) == Dict([], map[])
  {
  }

  lemma {:induction false} MasksLast(front: seq<Artifact>, last: Artifact)
    ensures Masks(front + [last]) == Masks(front).Put(KeyOf(last), With(Masks(front).Get(KeyOf(last), 0), last.kind))
  {
    assert (front + [last])[..|front|] == front;
  }

  lemma Bits(mask: bv8, added: Kind, kind: Kind)
    ensures Has(With(mask, added), kind) <==> Has(mask, kind) || added == kind
    ensures !Has(0, kind)
  {
  }

  predicate Is(a: Artifact, kind: Kind, key: FactKey) {
    a.kind == kind && KeyOf(a) == key
  }

  lemma {:induction false} MaskBits(artifacts: seq<Artifact>, kind: Kind, key: FactKey)
    ensures Has(Masks(artifacts).Get(key, 0), kind) <==> exists i :: 0 <= i < |artifacts| && Is(artifacts[i], kind, key)
  {
    hide Is, KeyOf, Masks, Has, With;
    if artifacts == [] {
      NoMasks();
      Bits(0, kind, kind);
    } else {
      var front, last := artifacts[..|artifacts| - 1], artifacts[|artifacts| - 1];
      MaskBits(front, kind, key);
      MaskStep(artifacts, kind, key);
      SomeOfLast(front, last, kind, key);
      assert artifacts == front + [last];
    }
  }

  lemma MaskStep(artifacts: seq<Artifact>, kind: Kind, key: FactKey)
    requires artifacts != []
    ensures var front, last := artifacts[..|artifacts| - 1], artifacts[|artifacts| - 1];
      Has(Masks(artifacts).Get(key, 0), kind) <==> Has(Masks(front).Get(key, 0), kind) || Is(last, kind, key)
  {
    hide KeyOf, Masks, Has, With;
    var front, last := artifacts[..|artifacts| - 1], artifacts[|artifacts| - 1];
    var before := Masks(front).Get(key, 0);
    assert artifacts == front + [last];
    MasksLast(front, last);
    PutGet(Masks(front), KeyOf(last), With(Masks(front).Get(KeyOf(last), 0), last.kind), key);
    assert Masks(artifacts).Get(key, 0) == if KeyOf(last) == key then With(before, last.kind) else before;
    MaskOr(before, last.kind, kind, KeyOf(last) == key);
  }

  lemma MaskOr(mask: bv8, added: Kind, kind: Kind, same: bool)
    ensures Has(if same then With(mask, added) else mask, kind) <==> Has(mask, kind) || (added == kind && same)
  {
    hide Has, With;
    Bits(mask, added, kind);
  }

  lemma PutGet(d: Dict<FactKey, bv8>, put: FactKey, mask: bv8, key: FactKey)
    requires d.Valid()
    ensures d.Put(put, mask).Get(key, 0) == if key == put then mask else d.Get(key, 0)
  {
  }

  lemma SomeOfLast(front: seq<Artifact>, last: Artifact, kind: Kind, key: FactKey)
    ensures var all := front + [last];
      (exists i :: 0 <= i < |all| && Is(all[i], kind, key))
      <==> (exists i :: 0 <= i < |front| && Is(front[i], kind, key)) || Is(last, kind, key)
  {
    AnyLast(a => Is(a, kind, key), front, last);
  }

  /** A question about an artifact that depends on its kind and its two constraints only. */
  type Question = (Kind, Option<string>, Option<string>) -> bool

  predicate Satisfies(p: Question, a: Artifact) {
    p(a.kind, a.record.requiresPython, a.record.yanked)
  }

  /** Some bit of the fact's mask answers the question. */
  predicate FactSatisfies(p: Question, f: Fact) {
    || (Has(f.mask, WHEEL_RECORD) && p(WHEEL_RECORD, f.requiresPython, f.yanked))
    || (Has(f.mask, SDIST_RECORD) && p(SDIST_RECORD, f.requiresPython, f.yanked))
  }

  predicate SomeArtifact(p: Question, artifacts: seq<Artifact>) {
    exists i :: 0 <= i < |artifacts| && Satisfies(p, artifacts[i])
  }

  predicate SomeFact(p: Question, facts: seq<Fact>) {
    exists i :: 0 <= i < |facts| && FactSatisfies(p, facts[i])
  }

  lemma SomeArtifactLast(p: Question, front: seq<Artifact>, last: Artifact)
    ensures SomeArtifact(p, front + [last]) <==> SomeArtifact(p, front) || Satisfies(p, last)
  {
    AnyLast(a => Satisfies(p, a), front, last);
  }

  /** The facts of a release answer any such question as its artifacts do. */
  lemma FactsExact(artifacts: seq<Artifact>, p: Question)
    ensures SomeFact(p, ReleaseFacts(artifacts)) <==> SomeArtifact(p, artifacts)
  {
    hide Masks, Is, Satisfies;
    var facts, masks := ReleaseFacts(artifacts), Masks(artifacts);
    if SomeFact(p, facts) {
      var i :| 0 <= i < |facts| && FactSatisfies(p, facts[i]);
      FactHasArtifact(artifacts, p, i);
    }
    if SomeArtifact(p, artifacts) {
      var j :| 0 <= j < |artifacts| && Satisfies(p, artifacts[j]);
      ArtifactHasFact(artifacts, p, j);
    }
  }

  lemma FactHasArtifact(artifacts: seq<Artifact>, p: Question, i: nat)
    requires i < |ReleaseFacts(artifacts)| && FactSatisfies(p, ReleaseFacts(artifacts)[i])
    ensures SomeArtifact(p, artifacts)
  {
    hide Masks;
    var masks := Masks(artifacts);
    var f, key := FactAt(masks, i), masks.keys[i];
    var kind := if Has(f.mask, WHEEL_RECORD) && p(WHEEL_RECORD, f.requiresPython, f.yanked) then WHEEL_RECORD else SDIST_RECORD;
    MaskBits(artifacts, kind, key);
    var j :| 0 <= j < |artifacts| && Is(artifacts[j], kind, key);
    assert Satisfies(p, artifacts[j]);
  }

  lemma ArtifactHasFact(artifacts: seq<Artifact>, p: Question, j: nat)
    requires j < |artifacts| && Satisfies(p, artifacts[j])
    ensures SomeFact(p, ReleaseFacts(artifacts))
  {
    hide Masks;
    var masks := Masks(artifacts);
    var key, kind := KeyOf(artifacts[j]), artifacts[j].kind;
    assert Is(artifacts[j], kind, key);
    MaskBits(artifacts, kind, key);
    Bits(0, kind, kind);
    assert key in masks.table;
    var i :| 0 <= i < |masks.keys| && masks.keys[i] == key;
    assert FactSatisfies(p, FactAt(masks, i));
    assert ReleaseFacts(artifacts)[i] == FactAt(masks, i);
  }

  // ---------- Groups ----------

  type GroupKey = (string, string)

  function GroupKeyOf(identity: Identity): GroupKey {
    (identity.name, VersionText.Public(identity.version))
  }

  function Grouped(links: seq<Link>): (grouped: Dict<GroupKey, seq<Artifact>>)
    ensures grouped.Valid()
  {
    if links == [] then Dict([], map[])
    else
      var last, grouped := links[|links| - 1], Grouped(links[..|links| - 1]);
      if last.identity.None? then grouped
      else
        var key := GroupKeyOf(last.identity.value);
        grouped.Put(key, grouped.Get(key, []) + [Artifact(last.identity.value.kind, last.record)])
  }

  function Unparsed(links: seq<Link>): seq<Record> {
    if links == [] then []
    else
      var last := links[|links| - 1];
      Unparsed(links[..|links| - 1]) + (if last.identity.None? then [last.record] else [])
  }

  function GroupOf(key: GroupKey, artifacts: seq<Artifact>): Group {
    Group(key.0, key.1, artifacts, ReleaseFacts(artifacts))
  }

  function Groups(keys: seq<GroupKey>, table: map<GroupKey, seq<Artifact>>): seq<Group>
    requires forall i :: 0 <= i < |keys| ==> keys[i] in table
  {
    if keys == [] then []
    else
      var last := keys[|keys| - 1];
      Groups(keys[..|keys| - 1], table) + [GroupOf(last, table[last])]
  }

  function CatalogOf(links: seq<Link>): Catalog {
    Catalog(Groups(Grouped(links).keys, Grouped(links).table), Unparsed(links))
  }

  /** `save_links`, up to writing the result. */
  method CompileLinks(links: seq<Link>) returns (catalog: Catalog)
    ensures catalog == CatalogOf(links)
  {
    hide VersionText.Public, ReleaseFacts, Groups;
    var grouped: Dict<GroupKey, seq<Artifact>> := Dict([], map[]);
    var unparsed: seq<Record> := [];
    for i := 0 to |links|
      invariant grouped == Grouped(links[..i]) && unparsed == Unparsed(links[..i])
    {
      assert links[..i + 1][..i] == links[..i];
      var link := links[i];
      if link.identity.None? {
        unparsed := unparsed + [link.record];
        continue;
      }
      var key := GroupKeyOf(link.identity.value);
      grouped := grouped.Put(key, grouped.Get(key, []) + [Artifact(link.identity.value.kind, link.record)]);
    }
    assert links[..|links|] == links;
    var groups := CompileGroups(grouped);
    catalog := Catalog(groups, unparsed);
  }

  method CompileGroups(grouped: Dict<GroupKey, seq<Artifact>>) returns (groups: seq<Group>)
    requires grouped.Valid()
    ensures groups == Groups(grouped.keys, grouped.table)
  {
    groups := [];
    for i := 0 to |grouped.keys|
      invariant groups == Groups(grouped.keys[..i], grouped.table)
    {
      assert grouped.keys[..i + 1][..i] == grouped.keys[..i];
      var key := grouped.keys[i];
      var facts := CollectFacts(grouped.table[key]);
      groups := groups + [Group(key.0, key.1, grouped.table[key], facts)];
    }
    assert grouped.keys[..|grouped.keys|] == grouped.keys;
  }

  // ---------- Nothing is lost ----------

  function RecordsIn(artifacts: seq<Artifact>): seq<Record> {
    seq(|artifacts|, i requires 0 <= i < |artifacts| => artifacts[i].record)
  }

  function GroupRecords(groups: seq<Group>): seq<Record> {
    if groups == [] then []
    else GroupRecords(groups[..|groups| - 1]) + RecordsIn(groups[|groups| - 1].artifacts)
  }

  /** `load_records`. */
  function LoadRecords(catalog: Catalog): seq<Record> {
    GroupRecords(catalog.groups) + catalog.unparsed
  }

  function RecordsOf(links: seq<Link>): seq<Record> {
    seq(|links|, i requires 0 <= i < |links| => links[i].record)
  }

  lemma {:induction false} Untouched(
      keys: seq<GroupKey>, table: map<GroupKey, seq<Artifact>>, key: GroupKey, artifacts: seq<Artifact>)
    requires (forall i :: 0 <= i < |keys| ==> keys[i] in table) && key !in keys
    ensures Groups(keys, table[key := artifacts]) == Groups(keys, table)
  {
    if keys != [] {
      Untouched(keys[..|keys| - 1], table, key, artifacts);
    }
  }

  lemma {:induction false} LastGroup(groups: seq<Group>, group: Group)
    ensures GroupRecords(groups + [group]) == GroupRecords(groups) + RecordsIn(group.artifacts)
  {
    assert (groups + [group])[..|groups|] == groups;
  }

  lemma {:induction false} OneMore(keys: seq<GroupKey>, table: map<GroupKey, seq<Artifact>>, key: GroupKey, a: Artifact)
    requires (forall i :: 0 <= i < |keys| ==> keys[i] in table) && Distinct(keys) && key in keys
    ensures multiset(GroupRecords(Groups(keys, table[key := table[key] + [a]])))
         == multiset(GroupRecords(Groups(keys, table))) + multiset{a.record}
  {
    hide RecordsIn, Groups, GroupRecords;
    var front, last := keys[..|keys| - 1], keys[|keys| - 1];
    var more := table[key := table[key] + [a]];
    assert keys == front + [last];
    SplitGroups(front, last, table);
    SplitGroups(front, last, more);
    if last == key {
      Untouched(front, table, key, table[key] + [a]);
      RecordsPlus(table[key], a);
    } else {
      OneMore(front, table, key, a);
    }
  }

  lemma {:induction false} SplitGroups(front: seq<GroupKey>, last: GroupKey, table: map<GroupKey, seq<Artifact>>)
    requires (forall i :: 0 <= i < |front| ==> front[i] in table) && last in table
    ensures GroupRecords(Groups(front + [last], table)) == GroupRecords(Groups(front, table)) + RecordsIn(table[last])
  {
    assert (front + [last])[..|front|] == front;
    LastGroup(Groups(front, table), GroupOf(last, table[last]));
  }

  lemma RecordsPlus(artifacts: seq<Artifact>, a: Artifact)
    ensures RecordsIn(artifacts + [a]) == RecordsIn(artifacts) + [a.record]
  {
  }

  lemma NoRecords()
    ensures RecordsIn([]) == []
  {
  }

  lemma Grow(d: Dict<GroupKey, seq<Artifact>>, key: GroupKey, a: Artifact)
    requires d.Valid()
    ensures var more := d.Put(key, d.Get(key, []) + [a]);
      multiset(GroupRecords(Groups(more.keys, more.table))) == multiset(GroupRecords(Groups(d.keys, d.table))) + multiset{a.record}
  {
    hide RecordsIn, Groups, GroupRecords;
    if key in d.table {
      OneMore(d.keys, d.table, key, a);
    } else {
      var keys := d.keys + [key];
      assert key !in d.keys;
      Untouched(d.keys, d.table, key, [] + [a]);
      SplitGroups(d.keys, key, d.table[key := [] + [a]]);
      RecordsPlus([], a);
      NoRecords();
    }
  }

  /** Saving links and loading records gives back every record, as often as it was saved. */
  lemma {:induction false} RecordsPreserved(links: seq<Link>)
    ensures multiset(LoadRecords(CatalogOf(links))) == multiset(RecordsOf(links))
  {
    hide LoadRecords, CatalogOf, RecordsOf;
    if links == [] {
      NoLinks();
    } else {
      var front, last := links[..|links| - 1], links[|links| - 1];
      RecordsPreserved(front);
      assert links == front + [last];
      RecordsOfLast(front, last);
      LoadRecordsLast(front, last);
    }
  }

  lemma NoLinks()
    ensures LoadRecords(CatalogOf([])) == [] && RecordsOf([]) == []
  {
  }

  lemma LoadRecordsLast(front: seq<Link>, last: Link)
    ensures multiset(LoadRecords(CatalogOf(front + [last]))) == multiset(LoadRecords(CatalogOf(front))) + multiset{last.record}
  {
    hide Groups, GroupRecords, GroupKeyOf, Grouped, Unparsed;
    GroupedLast(front, last);
    if last.identity.Some? {
      Grow(Grouped(front), GroupKeyOf(last.identity.value), Artifact(last.identity.value.kind, last.record));
    }
  }

  lemma RecordsOfLast(front: seq<Link>, last: Link)
    ensures RecordsOf(front + [last]) == RecordsOf(front) + [last.record]
  {
  }

  lemma {:induction false} GroupedLast(front: seq<Link>, last: Link)
    ensures var d, links := Grouped(front), front + [last];
      && Unparsed(links) == Unparsed(front) + (if last.identity.None? then [last.record] else [])
      && Grouped(links) == if last.identity.None? then d else
           d.Put(GroupKeyOf(last.identity.value),
             d.Get(GroupKeyOf(last.identity.value), []) + [Artifact(last.identity.value.kind, last.record)])
  {
    hide GroupKeyOf;
    assert (front + [last])[..|front|] == front;
  }

  // ---------- The content of a group ----------

  function ArtifactsOf(key: GroupKey, links: seq<Link>): seq<Artifact> {
    if links == [] then []
    else
      var last := links[|links| - 1];
      ArtifactsOf(key, links[..|links| - 1])
      + (if last.identity.Some? && GroupKeyOf(last.identity.value) == key
         then [Artifact(last.identity.value.kind, last.record)] else [])
  }

  /** Each release has one group, and it holds the release's artifacts in page order. */
  lemma {:induction false} GroupedContents(links: seq<Link>, key: GroupKey)
    ensures Grouped(links).Get(key, []) == ArtifactsOf(key, links)
    ensures key in Grouped(links).table <==> ArtifactsOf(key, links) != []
  {
    if links != [] {
      GroupedContents(links[..|links| - 1], key);
    }
  }

  lemma {:induction false} GroupsAt(keys: seq<GroupKey>, table: map<GroupKey, seq<Artifact>>)
    requires forall i :: 0 <= i < |keys| ==> keys[i] in table
    ensures |Groups(keys, table)| == |keys|
    ensures forall i :: 0 <= i < |keys| ==> Groups(keys, table)[i] == GroupOf(keys[i], table[keys[i]])
  {
    hide GroupOf;
    if keys != [] {
      var front, last := keys[..|keys| - 1], keys[|keys| - 1];
      forall i | 0 <= i < |front| ensures front[i] in table { assert front[i] == keys[i]; }
      GroupsAt(front, table);
      assert Groups(keys, table) == Groups(front, table) + [GroupOf(last, table[last])];
      forall i | 0 <= i < |keys| ensures Groups(keys, table)[i] == GroupOf(keys[i], table[keys[i]]) {
        if i < |front| { assert front[i] == keys[i]; }
      }
    }
  }

  // ---------- The summary ----------

  predicate ValidCatalog(catalog: Catalog) {
    forall i :: 0 <= i < |catalog.groups| ==> VersionText.ParseVersion(catalog.groups[i].version).Some?
  }

  function ToSummary(g: Group): SummaryGroup
    requires VersionText.ParseVersion(g.version).Some?
  {
    SummaryGroup(g.name, g.version, VersionText.ParseVersion(g.version).value, g.facts)
  }

  function ToSummaries(catalog: Catalog): seq<SummaryGroup>
    requires ValidCatalog(catalog)
  {
    seq(|catalog.groups|, i requires 0 <= i < |catalog.groups| => ToSummary(catalog.groups[i]))
  }

  predicate Before(a: SummaryGroup, b: SummaryGroup) {
    Versions.Leq(a.state.key, b.state.key)
  }

  function SummaryGroups(catalog: Catalog): seq<SummaryGroup>
    requires ValidCatalog(catalog)
  {
    Sorting.Sort(Before, ToSummaries(catalog))
  }

  lemma BeforeIsPreorder()
    ensures Sorting.TotalPreorder(Before)
  {
    Versions.KeyTotalOrder();
    forall a: SummaryGroup, b: SummaryGroup ensures Before(a, b) || Before(b, a) {
      assert Versions.CmpKey(b.state.key, a.state.key) == Versions.CmpKey(a.state.key, b.state.key).Flip();
    }
  }

  /** The summary holds each group once, by version; groups of equal versions stay in catalog order. */
  lemma {:induction false} SummarySpec(catalog: Catalog, g: SummaryGroup)
    requires ValidCatalog(catalog)
    ensures multiset(SummaryGroups(catalog)) == multiset(ToSummaries(catalog))
    ensures var groups := SummaryGroups(catalog);
      forall i, j :: 0 <= i < j < |groups| ==> Versions.Leq(groups[i].state.key, groups[j].state.key)
    ensures Sorting.TiedWith(Before, g, SummaryGroups(catalog)) == Sorting.TiedWith(Before, g, ToSummaries(catalog))
  {
    BeforeIsPreorder();
    Sorting.SortSpec(Before, ToSummaries(catalog));
    Sorting.SortStable(Before, ToSummaries(catalog), g);
  }

  lemma {:induction false} GroupedVersions(links: seq<Link>)
    requires ValidLinks(links)
    ensures forall key :: key in Grouped(links).table ==> VersionText.ParseVersion(key.1).Some?
  {
    hide Versions.ValidVersion, VersionText.ParseVersion, VersionText.Public;
    if links != [] {
      GroupedVersions(links[..|links| - 1]);
      var last := links[|links| - 1];
      if last.identity.Some? { VersionText.PublicRoundTrip(last.identity.value.version); }
    }
  }

  /** What links compile to can be summarized, and the summary's versions are the links' own. */
  lemma CompiledIsValid(links: seq<Link>)
    requires ValidLinks(links)
    ensures ValidCatalog(CatalogOf(links))
  {
    hide VersionText.ParseVersion;
    GroupedVersions(links);
    GroupsAt(Grouped(links).keys, Grouped(links).table);
  }

  predicate Asked(links: seq<Link>, name: string, version: Versions.Version, p: Question) {
    exists i :: 0 <= i < |links| && AskedOf(links[i], name, version, p)
  }

  predicate AskedOf(link: Link, name: string, version: Versions.Version, p: Question) {
    && link.identity.Some? && link.identity.value.name == name && link.identity.value.version == version
    && p(link.identity.value.kind, link.record.requiresPython, link.record.yanked)
  }

  lemma AskedLast(front: seq<Link>, last: Link, name: string, version: Versions.Version, p: Question)
    ensures Asked(front + [last], name, version, p) <==> Asked(front, name, version, p) || AskedOf(last, name, version, p)
  {
    AnyLast(link => AskedOf(link, name, version, p), front, last);
  }

  predicate Answered(groups: seq<SummaryGroup>, name: string, version: Versions.Version, p: Question) {
    exists i :: 0 <= i < |groups| && AnsweredBy(groups[i], name, version, p)
  }

  predicate AnsweredBy(g: SummaryGroup, name: string, version: Versions.Version, p: Question) {
    g.name == name && g.state == version && SomeFact(p, g.facts)
  }

  lemma {:induction false} ArtifactsAsked(links: seq<Link>, name: string, version: Versions.Version, p: Question)
    requires ValidLinks(links) && Versions.ValidVersion(version)
    ensures SomeArtifact(p, ArtifactsOf((name, VersionText.Public(version)), links)) <==> Asked(links, name, version, p)
  {
    hide Versions.ValidVersion, VersionText.Public;
    if links != [] {
      var front, last := links[..|links| - 1], links[|links| - 1];
      var key := (name, VersionText.Public(version));
      ArtifactsAsked(front, name, version, p);
      assert links == front + [last];
      AskedLast(front, last, name, version, p);
      if last.identity.Some? {
        SomeArtifactLast(p, ArtifactsOf(key, front), Artifact(last.identity.value.kind, last.record));
        SameText(last.identity.value.version, version);
      }
      var mine := last.identity.Some? && GroupKeyOf(last.identity.value) == key;
      assert ArtifactsOf(key, links)
          == ArtifactsOf(key, front) + if mine then [Artifact(last.identity.value.kind, last.record)] else [];
      assert !mine ==> ArtifactsOf(key, links) == ArtifactsOf(key, front);
    }
  }

  lemma SameText(v: Versions.Version, w: Versions.Version)
    requires Versions.ValidVersion(v) && Versions.ValidVersion(w)
    ensures VersionText.Public(v) == VersionText.Public(w) <==> v == w
  {
    if VersionText.Public(v) == VersionText.Public(w) { VersionText.PublicInjective(v, w); }
  }

  /**
    Whatever one asks about the artifacts of a release by kind, required Python and yanking, the
    sorted summary answers as the links on the page would.
  */
  lemma SummaryAnswers(links: seq<Link>, name: string, version: Versions.Version, p: Question)
    requires ValidLinks(links) && Versions.ValidVersion(version)
    requires ValidCatalog(CatalogOf(links))
    ensures Answered(SummaryGroups(CatalogOf(links)), name, version, p) <==> Asked(links, name, version, p)
  {
    hide Versions.ValidVersion, VersionText.Public, VersionText.ParseVersion, Grouped, Groups, SummaryGroups, ReleaseFacts, FactSatisfies;
    var catalog, grouped, key := CatalogOf(links), Grouped(links), (name, VersionText.Public(version));
    var summary, unsorted := SummaryGroups(catalog), ToSummaries(catalog);
    GroupsAt(grouped.keys, grouped.table);
    GroupedContents(links, key);
    FactsExact(ArtifactsOf(key, links), p);
    ArtifactsAsked(links, name, version, p);
    VersionText.PublicRoundTrip(version);
    if Asked(links, name, version, p) {
      var i :| 0 <= i < |grouped.keys| && grouped.keys[i] == key;
      assert AnsweredBy(unsorted[i], name, version, p);
      InSummary(catalog, unsorted[i]);
    }
    if Answered(summary, name, version, p) {
      var j :| 0 <= j < |summary| && AnsweredBy(summary[j], name, version, p);
      InSummary(catalog, summary[j]);
      var i :| 0 <= i < |unsorted| && unsorted[i] == summary[j];
      SummaryKey(links, i, version);
    }
  }

  lemma InSummary(catalog: Catalog, g: SummaryGroup)
    requires ValidCatalog(catalog)
    ensures g in SummaryGroups(catalog) <==> g in ToSummaries(catalog)
  {
    SummarySpec(catalog, g);
    assert g in multiset(SummaryGroups(catalog)) <==> g in multiset(ToSummaries(catalog));
  }

  lemma {:induction false} KeysArePublic(links: seq<Link>, key: GroupKey)
    requires ValidLinks(links) && key in Grouped(links).table
    ensures var v := VersionText.ParseVersion(key.1); v.Some? && VersionText.Public(v.value) == key.1
  {
    hide Versions.ValidVersion, VersionText.Public, VersionText.ParseVersion;
    var front, last := links[..|links| - 1], links[|links| - 1];
    if last.identity.Some? && GroupKeyOf(last.identity.value) == key {
      VersionText.PublicRoundTrip(last.identity.value.version);
    } else {
      KeysArePublic(front, key);
    }
  }

  lemma {:induction false} SummaryKey(links: seq<Link>, i: nat, version: Versions.Version)
    requires ValidLinks(links) && ValidCatalog(CatalogOf(links))
    requires i < |CatalogOf(links).groups| && ToSummaries(CatalogOf(links))[i].state == version
    ensures i < |Grouped(links).keys| && Grouped(links).keys[i] == (CatalogOf(links).groups[i].name, VersionText.Public(version))
  {
    hide Versions.ValidVersion, VersionText.Public, VersionText.ParseVersion, Grouped, Groups;
    GroupsAt(Grouped(links).keys, Grouped(links).table);
    KeysArePublic(links, Grouped(links).keys[i]);
  }
}
