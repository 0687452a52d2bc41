/**
  The cached catalogs, summaries and choices of project pages.

  Several processes share the files; each file is replaced atomically, and an operation that reads
  and writes several files may be overtaken between any two of them, or cut short. `Step` is one file
  access of one process. A file that fails its reader's checks counts as absent, except that the
  generation of a catalog is taken from whatever bytes are there.
*/
module CatalogCache {
  import opened Wrappers
  import opened OrderedDicts
  import opened Catalogs

  const PENDING_LIMIT: nat := 64

  type ValidatedCatalog = c: Catalog | ValidCatalog(c) witness Catalog([], [])
  type ParsedLinks = l: seq<Link> | ValidLinks(l) witness []

  /** What a choice is made for: target, and whether wheels and source archives are allowed. */
  type Profile = (string, bool, bool)

  datatype Choice = Choice(record: Record, kind: int, tagRank: Option<int>)
  type Choices = map<string, Option<Choice>>

  datatype Summary = Summary(generation: string, groups: seq<SummaryGroup>, hasUnparsed: bool, choices: map<Profile, Choices>)

  /** The bytes of a catalog file: a catalog, or something no reader accepts. */
  datatype Payload = Readable(catalog: ValidatedCatalog) | Garbled(raw: string)

  /** The digest of a catalog file's bytes. */
  type Generation = Payload -> string

  type Published = seq<(string, ValidatedCatalog)>

  datatype Files = Files(
    catalogs: map<string, Payload>,
    summaries: map<string, Summary>,
    choices: map<(string, Profile), (string, Choices)>)

  datatype Save = Save(url: string, generation: string, profile: Profile, choices: Choices)

  /** What `embed_summary_choices` was called with. */
  datatype Embed = Embed(generation: string, profile: Profile, choices: Choices)

  /** The rest of an operation; `embed` is present when a summary is loaded to put choices into it. */
  datatype Task =
    | Idle
    | ReadSummary(url: string, embed: Option<Embed>)
    | FindCatalog(url: string, embed: Option<Embed>)
    | Stamp(url: string, catalog: ValidatedCatalog, embed: Option<Embed>)
    | WriteSummary(url: string, summary: Summary, embed: Option<Embed>)

  type Pending = d: Dict<string, ValidatedCatalog> | d.Valid() witness Dict([], map[])

  datatype Process = Process(pending: Pending, task: Task)

  /** `saved` and `published` are the histories of saved choices and of catalogs written. */
  datatype State = State(files: Files, processes: seq<Process>, saved: seq<Save>, published: Published)

  datatype Action =
    | SaveLinks(p: nat, url: string, links: ParsedLinks)
    | LoadCatalog(p: nat, url: string)
    | LoadSummary(p: nat, url: string)
    | LoadChoices(p: nat, url: string, generation: string, profile: Profile)
    | SaveChoices(p: nat, url: string, generation: string, profile: Profile, choices: Choices)
    | Continue(p: nat)
    | Restart(p: nat)
    | LoseCatalog(url: string)
    | GarbleCatalog(url: string, raw: string)
    | LoseSummary(url: string)
    | LoseChoices(url: string, profile: Profile)

  // ---------- The handoff between summary and catalog loads ----------

  function Trim(d: Pending): Pending
    decreases |d.keys|
  {
    if |d.keys| > PENDING_LIMIT then Trim(d.DropFirst()) else d
  }

  function Remember(d: Pending, url: string, catalog: ValidatedCatalog): Pending {
    Trim(d.Put(url, catalog))
  }

  function Taken(d: Pending, url: string): Pending {
    PopValid(d, url);
    Pop(d, url)
  }

  /** The newest catalog is kept, at most the oldest other one goes, and the limit holds again. */
  lemma RememberSpec(d: Pending, url: string, catalog: ValidatedCatalog)
    requires |d.keys| <= PENDING_LIMIT
    ensures var after := Remember(d, url, catalog);
      && |after.keys| <= PENDING_LIMIT
      && url in after.table && after.table[url] == catalog
      && (forall u :: u in after.table && u != url ==> u in d.table && after.table[u] == d.table[u])
      && (forall u :: u in d.table && u !in after.table ==> |d.keys| == PENDING_LIMIT && u == d.keys[0])
  {
    var put := d.Put(url, catalog);
    TrimOnce(put);
    if |put.keys| > PENDING_LIMIT {
      assert put.keys == d.keys + [url];
      assert url in put.keys[1..] by { assert put.keys[1..][|d.keys| - 1] == url; }
    }
  }

  lemma {:induction false} TrimOnce(d: Pending)
    requires |d.keys| <= PENDING_LIMIT + 1
    ensures Trim(d) == if |d.keys| > PENDING_LIMIT then d.DropFirst() else d
  {
  }

  class Handoff {
    var catalogs: Pending

    constructor ()
      ensures catalogs == Dict([], map[])
    {
      catalogs := Dict([], map[]);
    }

    /** `pending.pop(url, None)`: a catalog is handed out once, and no other is touched. */
    method Take(url: string) returns (catalog: Option<ValidatedCatalog>)
      modifies this
      ensures catalog == if url in old(catalogs).table then Some(old(catalogs).table[url]) else None
      ensures catalogs == Taken(old(catalogs), url) && url !in catalogs.table
      ensures forall u :: u != url ==>
        (u in catalogs.table <==> u in old(catalogs).table)
        && (u in catalogs.table ==> catalogs.table[u] == old(catalogs).table[u])
    {
      catalog := if url in catalogs.table then Some(catalogs.table[url]) else None;
      catalogs := Taken(catalogs, url);
    }

    /** `_remember_pending_catalog`. */
    method Put(url: string, catalog: ValidatedCatalog)
      modifies this
      ensures catalogs == Remember(old(catalogs), url, catalog)
    {
      catalogs := catalogs.Put(url, catalog);
      while |catalogs.keys| > PENDING_LIMIT
        invariant Trim(catalogs) == Remember(old(catalogs), url, catalog)
        decreases |catalogs.keys|
      {
        catalogs := catalogs.DropFirst();
      }
    }
  }

  // ---------- Steps ----------

  /** `summary_from_catalog`. */
  function SummaryFrom(catalog: ValidatedCatalog, generation: string): Summary {
    Summary(generation, SummaryGroups(catalog), catalog.unparsed != [], map[])
  }

  /** A summary has been loaded: the operation ends, or the choices are put into it. */
  function Deliver(url: string, s: Summary, embed: Option<Embed>): Task {
    match embed
    case None => Idle
    case Some(e) =>
      if s.generation != e.generation || (e.profile in s.choices && s.choices[e.profile] == e.choices) then Idle
      else WriteSummary(url, s.(choices := s.choices[e.profile := e.choices]), None)
  }

  function Found(pr: Process, url: string, catalog: ValidatedCatalog, task: Task): Process {
    Process(Remember(Taken(pr.pending, url), url, catalog), task)
  }

  /** The next file access of a process. */
  function Advance(generation: Generation, pr: Process, files: Files): (Process, Files) {
    match pr.task
    case Idle => (pr, files)
    case ReadSummary(url, embed) =>
      (pr.(task := if url in files.summaries then Deliver(url, files.summaries[url], embed) else FindCatalog(url, embed)), files)
    case FindCatalog(url, embed) =>
      if url in pr.pending.table then
        var catalog := pr.pending.table[url];
        (Found(pr, url, catalog, Stamp(url, catalog, embed)), files)
      else if url in files.catalogs && files.catalogs[url].Readable? then
        var payload := files.catalogs[url];
        (Found(pr, url, payload.catalog, WriteSummary(url, SummaryFrom(payload.catalog, generation(payload)), embed)), files)
      else (pr.(task := Idle), files)
    case Stamp(url, catalog, embed) =>
      (pr.(task :=
        if url in files.catalogs then WriteSummary(url, SummaryFrom(catalog, generation(files.catalogs[url])), embed) else Idle), files)
    case WriteSummary(url, s, embed) =>
      (pr.(task := Deliver(url, s, embed)), files.(summaries := files.summaries[url := s]))
  }

  /** What `load_choices` returns. */
  function ReadChoices(files: Files, url: string, generation: string, profile: Profile): Choices {
    if (url, profile) in files.choices && files.choices[(url, profile)].0 == generation
    then files.choices[(url, profile)].1 else map[]
  }

  /** The processes that can start an operation. */
  predicate CanStart(st: State, p: nat) {
    p < |st.processes| && st.processes[p].task == Idle
  }

  function WithTask(st: State, p: nat, task: Task): State
    requires p < |st.processes|
  {
    st.(processes := st.processes[p := st.processes[p].(task := task)])
  }

  function Step(generation: Generation, st: State, a: Action): State {
    match a
    case SaveLinks(p, url, links) =>
      if !CanStart(st, p) then st
      else
        CompiledIsValid(links);
        var catalog := CatalogOf(links);
        var next := st.(
          files := st.files.(catalogs := st.files.catalogs[url := Readable(catalog)]),
          published := st.published + [(url, catalog)]);
        WithTask(next, p, WriteSummary(url, SummaryFrom(catalog, generation(Readable(catalog))), None))
    case LoadCatalog(p, url) =>
      if !CanStart(st, p) then st
      else st.(processes := st.processes[p := st.processes[p].(pending := Taken(st.processes[p].pending, url))])
    case LoadSummary(p, url) =>
      if !CanStart(st, p) then st else WithTask(st, p, ReadSummary(url, None))
    case LoadChoices(p, url, g, profile) =>
      if !CanStart(st, p) || (url, profile) !in st.files.choices || st.files.choices[(url, profile)].0 != g then st
      else WithTask(st, p, ReadSummary(url, Some(Embed(g, profile, st.files.choices[(url, profile)].1))))
    case SaveChoices(p, url, g, profile, choices) =>
      if !CanStart(st, p) then st
      else
        var next := st.(
          files := st.files.(choices := st.files.choices[(url, profile) := (g, choices)]),
          saved := st.saved + [Save(url, g, profile, choices)]);
        WithTask(next, p, ReadSummary(url, Some(Embed(g, profile, choices))))
    case Continue(p) =>
      if p >= |st.processes| then st
      else
        var (pr, files) := Advance(generation, st.processes[p], st.files);
        st.(processes := st.processes[p := pr], files := files)
    case Restart(p) =>
      if p >= |st.processes| then st else st.(processes := st.processes[p := Process(Dict([], map[]), Idle)])
    case LoseCatalog(url) => st.(files := st.files.(catalogs := st.files.catalogs - {url}))
    case GarbleCatalog(url, raw) => st.(files := st.files.(catalogs := st.files.catalogs[url := Garbled(raw)]))
    case LoseSummary(url) => st.(files := st.files.(summaries := st.files.summaries - {url}))
    case LoseChoices(url, profile) => st.(files := st.files.(choices := st.files.choices - {(url, profile)}))
  }

  function Run(generation: Generation, st: State, actions: seq<Action>): State {
    if actions == [] then st
    else Step(generation, Run(generation, st, actions[..|actions| - 1]), actions[|actions| - 1])
  }

  /** An empty cache directory and `n` new processes. */
  function Fresh(n: nat): State {
    State(Files(map[], map[], map[]), seq(n, _ => Process(Dict([], map[]), Idle)), [], [])
  }

  // ---------- Choices belong to their generation ----------

  function LastSave(saved: seq<Save>, url: string, profile: Profile): Option<(string, Choices)> {
    if saved == [] then None
    else
      var s := saved[|saved| - 1];
      if s.url == url && s.profile == profile then Some((s.generation, s.choices))
      else LastSave(saved[..|saved| - 1], url, profile)
  }

  predicate EmbeddedSaved(saved: seq<Save>, url: string, s: Summary) {
    forall profile :: profile in s.choices ==> Save(url, s.generation, profile, s.choices[profile]) in saved
  }

  predicate EmbedSaved(saved: seq<Save>, url: string, embed: Option<Embed>) {
    embed.Some? ==> Save(url, embed.value.generation, embed.value.profile, embed.value.choices) in saved
  }

  predicate TaskLegit(saved: seq<Save>, t: Task) {
    t.Idle? || (EmbedSaved(saved, t.url, t.embed) && (t.WriteSummary? ==> EmbeddedSaved(saved, t.url, t.summary)))
  }

  predicate ChoicesLegit(saved: seq<Save>, files: Files) {
    forall k :: k in files.choices ==> LastSave(saved, k.0, k.1) == Some(files.choices[k])
  }

  predicate SummariesLegit(saved: seq<Save>, files: Files) {
    forall url :: url in files.summaries ==> EmbeddedSaved(saved, url, files.summaries[url])
  }

  predicate TasksLegit(saved: seq<Save>, processes: seq<Process>) {
    forall p :: 0 <= p < |processes| ==> TaskLegit(saved, processes[p].task)
  }

  predicate Legit(st: State) {
    ChoicesLegit(st.saved, st.files) && SummariesLegit(st.saved, st.files) && TasksLegit(st.saved, st.processes)
  }

  lemma {:induction false} LastSaveIsSaved(saved: seq<Save>, url: string, profile: Profile)
    requires LastSave(saved, url, profile).Some?
    ensures var (g, choices) := LastSave(saved, url, profile).value; Save(url, g, profile, choices) in saved
  {
    var s := saved[|saved| - 1];
    if !(s.url == url && s.profile == profile) {
      LastSaveIsSaved(saved[..|saved| - 1], url, profile);
    }
  }

  lemma MoreSaved(st: State, save: Save)
    requires SummariesLegit(st.saved, st.files) && TasksLegit(st.saved, st.processes)
    ensures SummariesLegit(st.saved + [save], st.files) && TasksLegit(st.saved + [save], st.processes)
  {
    forall url | url in st.files.summaries ensures EmbeddedSaved(st.saved + [save], url, st.files.summaries[url]) {
    }
    forall p | 0 <= p < |st.processes| ensures TaskLegit(st.saved + [save], st.processes[p].task) {
      assert TaskLegit(st.saved, st.processes[p].task);
    }
  }

  lemma SaveOverwrites(saved: seq<Save>, files: Files, save: Save)
    requires ChoicesLegit(saved, files)
    ensures ChoicesLegit(saved + [save],
      files.(choices := files.choices[(save.url, save.profile) := (save.generation, save.choices)]))
  {
    assert (saved + [save])[..|saved|] == saved;
  }

  lemma DeliverLegit(saved: seq<Save>, url: string, s: Summary, embed: Option<Embed>)
    requires EmbeddedSaved(saved, url, s) && EmbedSaved(saved, url, embed)
    ensures TaskLegit(saved, Deliver(url, s, embed))
  {
  }

  lemma AdvanceLegit(generation: Generation, saved: seq<Save>, pr: Process, files: Files)
    requires TaskLegit(saved, pr.task) && SummariesLegit(saved, files)
    ensures var (next, after) := Advance(generation, pr, files);
      TaskLegit(saved, next.task) && SummariesLegit(saved, after) && after.choices == files.choices
  {
    hide Remember, Taken, SummaryGroups;
    match pr.task
    case ReadSummary(url, embed) =>
      if url in files.summaries { DeliverLegit(saved, url, files.summaries[url], embed); }
    case WriteSummary(url, s, embed) =>
      DeliverLegit(saved, url, s, embed);
    case _ =>
  }

  lemma StepLegit(generation: Generation, st: State, a: Action)
    requires Legit(st)
    ensures Legit(Step(generation, st, a))
  {
    hide EmbeddedSaved, TaskLegit, LastSave, Advance, SummaryGroups, CatalogOf, Taken;
    var next := Step(generation, st, a);
    match a
    case SaveLinks(p, url, links) =>
      CompiledIsValid(links);
      NothingEmbedded(st.saved, url, CatalogOf(links), generation(Readable(CatalogOf(links))));
    case LoadSummary(p, url) =>
      NothingToEmbed(st.saved, url);
    case LoadChoices(p, url, g, profile) =>
      if next != st { ToEmbed(st.saved, url, g, profile, st.files.choices[(url, profile)].1); }
    case SaveChoices(p, url, g, profile, choices) =>
      if CanStart(st, p) {
        var save := Save(url, g, profile, choices);
        MoreSaved(st, save);
        SaveOverwrites(st.saved, st.files, save);
        SavedLast(st.saved, save);
        ToEmbed(next.saved, url, g, profile, choices);
      }
    case Continue(p) =>
      if p < |st.processes| { AdvanceLegit(generation, st.saved, st.processes[p], st.files); }
    case Restart(p) =>
      IdleLegit(st.saved);
    case _ =>
  }

  lemma {:induction false} SavedLast(saved: seq<Save>, save: Save)
    ensures LastSave(saved + [save], save.url, save.profile) == Some((save.generation, save.choices))
  {
  }

  lemma IdleLegit(saved: seq<Save>)
    ensures TaskLegit(saved, Idle)
  {
  }

  lemma NothingToEmbed(saved: seq<Save>, url: string)
    ensures TaskLegit(saved, ReadSummary(url, None))
  {
  }

  lemma {:induction false} ToEmbed(saved: seq<Save>, url: string, g: string, profile: Profile, choices: Choices)
    requires LastSave(saved, url, profile) == Some((g, choices))
    ensures TaskLegit(saved, ReadSummary(url, Some(Embed(g, profile, choices))))
  {
    LastSaveIsSaved(saved, url, profile);
  }

  lemma NothingEmbedded(saved: seq<Save>, url: string, catalog: ValidatedCatalog, generation: string)
    ensures TaskLegit(saved, WriteSummary(url, SummaryFrom(catalog, generation), None))
  {
  }

  lemma {:induction false} RunLegit(generation: Generation, n: nat, actions: seq<Action>)
    ensures Legit(Run(generation, Fresh(n), actions))
  {
    hide Step, Legit;
    if actions == [] {
      FreshLegit(n);
    } else {
      RunLegit(generation, n, actions[..|actions| - 1]);
      StepLegit(generation, Run(generation, Fresh(n), actions[..|actions| - 1]), actions[|actions| - 1]);
    }
  }

  lemma FreshLegit(n: nat)
    ensures Legit(Fresh(n))
  {
  }

  /**
    In every run, whatever is overtaken, cut short or lost: the choices read are those saved last,
    and only for the generation they were saved under, unless their file was lost; and a summary
    holds only choices saved under its own generation.
  */
  lemma {:induction false} ChoicesMatchGeneration(
      generation: Generation, n: nat, actions: seq<Action>, url: string, g: string, profile: Profile)
    ensures var st := Run(generation, Fresh(n), actions);
      && ReadChoices(st.files, url, g, profile) ==
          (match LastSave(st.saved, url, profile)
           case Some(last) => if (url, profile) in st.files.choices && last.0 == g then last.1 else map[]
           case None => map[])
      && (url in st.files.summaries && profile in st.files.summaries[url].choices ==>
            Save(url, st.files.summaries[url].generation, profile, st.files.summaries[url].choices[profile]) in st.saved)
  {
    hide Run, LastSave;
    RunLegit(generation, n, actions);
    var st := Run(generation, Fresh(n), actions);
    assert url in st.files.summaries ==> EmbeddedSaved(st.saved, url, st.files.summaries[url]);
  }

  // ---------- Summaries describe their catalogs ----------

  /** The summary is the one of this catalog, under the generation of this catalog's file. */
  predicate Describes(generation: Generation, s: Summary, catalog: ValidatedCatalog) {
    && s.generation == generation(Readable(catalog))
    && s.groups == SummaryGroups(catalog) && s.hasUnparsed == (catalog.unparsed != [])
  }

  ghost predicate Described(generation: Generation, published: Published, url: string, s: Summary) {
    exists c: ValidatedCatalog :: (url, c) in published && Describes(generation, s, c)
  }

  predicate CatalogsPublished(st: State) {
    forall url :: url in st.files.catalogs && st.files.catalogs[url].Readable? ==>
      (url, st.files.catalogs[url].catalog) in st.published
  }

  ghost predicate SummariesDescribed(generation: Generation, st: State) {
    && (forall url :: url in st.files.summaries ==> Described(generation, st.published, url, st.files.summaries[url]))
    && (forall p :: 0 <= p < |st.processes| ==> TaskDescribed(generation, st.published, st.processes[p].task))
  }

  ghost predicate TaskDescribed(generation: Generation, published: Published, t: Task) {
    t.WriteSummary? ==> Described(generation, published, t.url, t.summary)
  }

  ghost predicate Good(generation: Generation, st: State) {
    CatalogsPublished(st) && SummariesDescribed(generation, st)
  }

  /** A catalog handed over in memory is stamped only when the file still holds it (or is gone). */
  predicate HandoffCurrent(st: State, a: Action) {
    (a.Continue? && a.p < |st.processes| && st.processes[a.p].task.Stamp?) ==>
      var t := st.processes[a.p].task;
      t.url in st.files.catalogs ==> st.files.catalogs[t.url] == Readable(t.catalog)
  }

  lemma EmbeddingKeepsDescription(generation: Generation, published: Published, url: string, s: Summary, embed: Option<Embed>)
    requires Described(generation, published, url, s)
    ensures TaskDescribed(generation, published, Deliver(url, s, embed))
  {
    hide SummaryGroups;
    var c: ValidatedCatalog :| (url, c) in published && Describes(generation, s, c);
    if embed.Some? {
      assert Describes(generation, s.(choices := s.choices[embed.value.profile := embed.value.choices]), c);
    }
  }

  lemma CompiledIsDescribed(generation: Generation, published: Published, url: string, c: ValidatedCatalog)
    requires (url, c) in published
    ensures Described(generation, published, url, SummaryFrom(c, generation(Readable(c))))
  {
    hide SummaryGroups;
    assert Describes(generation, SummaryFrom(c, generation(Readable(c))), c);
  }

  lemma MorePublished(generation: Generation, st: State, entry: (string, ValidatedCatalog))
    requires Good(generation, st)
    ensures Good(generation, st.(published := st.published + [entry]))
  {
    hide Describes;
    forall url, s | Described(generation, st.published, url, s)
      ensures Described(generation, st.published + [entry], url, s)
    {
    }
    forall p | 0 <= p < |st.processes| ensures TaskDescribed(generation, st.published + [entry], st.processes[p].task) {
      assert TaskDescribed(generation, st.published, st.processes[p].task);
    }
  }

  lemma AdvanceDescribed(generation: Generation, st: State, p: nat)
    requires p < |st.processes| && Good(generation, st) && HandoffCurrent(st, Continue(p))
    ensures Good(generation, Step(generation, st, Continue(p)))
  {
    hide Described, SummaryFrom, Remember, Taken, Deliver;
    var t := st.processes[p].task;
    assert TaskDescribed(generation, st.published, t);
    match t
    case Idle => assert st.processes[p := st.processes[p]] == st.processes;
    case ReadSummary(url, embed) =>
      if url in st.files.summaries { EmbeddingKeepsDescription(generation, st.published, url, st.files.summaries[url], embed); }
    case FindCatalog(url, embed) =>
      if url !in st.processes[p].pending.table && url in st.files.catalogs && st.files.catalogs[url].Readable? {
        CompiledIsDescribed(generation, st.published, url, st.files.catalogs[url].catalog);
      }
    case Stamp(url, catalog, embed) =>
      if url in st.files.catalogs { CompiledIsDescribed(generation, st.published, url, catalog); }
    case WriteSummary(url, s, embed) =>
      EmbeddingKeepsDescription(generation, st.published, url, s, embed);
  }

  lemma StepDescribed(generation: Generation, st: State, a: Action)
    requires Good(generation, st) && HandoffCurrent(st, a)
    ensures Good(generation, Step(generation, st, a))
  {
    hide Described, SummaryFrom, CatalogOf, Taken, Advance;
    match a
    case SaveLinks(p, url, links) =>
      if CanStart(st, p) {
        CompiledIsValid(links);
        MorePublished(generation, st, (url, CatalogOf(links)));
        CompiledIsDescribed(generation, st.published + [(url, CatalogOf(links))], url, CatalogOf(links));
      }
    case Continue(p) =>
      if p < |st.processes| { AdvanceDescribed(generation, st, p); }
    case _ =>
  }

  predicate AlwaysCurrent(generation: Generation, st: State, actions: seq<Action>) {
    actions == [] ||
      var front := actions[..|actions| - 1];
      AlwaysCurrent(generation, st, front) && HandoffCurrent(Run(generation, st, front), actions[|actions| - 1])
  }

  /** As long as no outdated handoff is stamped, every summary describes a catalog that was saved for its page. */
  lemma {:induction false} RunDescribed(generation: Generation, n: nat, actions: seq<Action>)
    requires AlwaysCurrent(generation, Fresh(n), actions)
    ensures Good(generation, Run(generation, Fresh(n), actions))
  {
    hide Step, Good;
    if actions == [] {
      FreshGood(generation, n);
    } else {
      RunDescribed(generation, n, actions[..|actions| - 1]);
      StepDescribed(generation, Run(generation, Fresh(n), actions[..|actions| - 1]), actions[|actions| - 1]);
    }
  }

  lemma FreshGood(generation: Generation, n: nat)
    ensures Good(generation, Fresh(n))
  {
  }

  /** No other catalog published for the page has the digest of this file. */
  ghost predicate OwnDigest(generation: Generation, published: Published, url: string, payload: Payload) {
    forall c: ValidatedCatalog | (url, c) in published && generation(Readable(c)) == generation(payload) ::
      Readable(c) == payload
  }

  predicate SameSummary(a: ValidatedCatalog, b: ValidatedCatalog) {
    SummaryGroups(a) == SummaryGroups(b) && (a.unparsed == [] <==> b.unparsed == [])
  }

  /** A summary under the digest of a file describes a published catalog exactly when it is the one of the file's catalog. */
  lemma StampedIsDescribed(
      generation: Generation, published: Published, url: string, catalog: ValidatedCatalog,
      payload: Payload)
    requires OwnDigest(generation, published, url, payload)
    ensures Described(generation, published, url, SummaryFrom(catalog, generation(payload))) <==>
      payload.Readable? && (url, payload.catalog) in published && SameSummary(payload.catalog, catalog)
  {
    hide SummaryGroups;
    var s := SummaryFrom(catalog, generation(payload));
    if payload.Readable? {
      assert Describes(generation, s, payload.catalog) <==> SameSummary(payload.catalog, catalog);
    }
    if Described(generation, published, url, s) {
      var c: ValidatedCatalog :| (url, c) in published && Describes(generation, s, c);
      assert Readable(c) == payload;
    }
  }

  lemma StepPublished(generation: Generation, st: State, a: Action)
    requires CatalogsPublished(st)
    ensures CatalogsPublished(Step(generation, st, a))
  {
    hide SummaryFrom, CatalogOf, Taken, Found, Deliver;
    match a
    case SaveLinks(p, url, links) => CompiledIsValid(links);
    case _ =>
  }

  lemma {:induction false} RunPublished(generation: Generation, n: nat, actions: seq<Action>)
    ensures CatalogsPublished(Run(generation, Fresh(n), actions))
  {
    hide Step;
    if actions != [] {
      RunPublished(generation, n, actions[..|actions| - 1]);
      StepPublished(generation, Run(generation, Fresh(n), actions[..|actions| - 1]), actions[|actions| - 1]);
    }
  }

  /**
    In every reachable state in which a process is about to stamp a handed-over catalog with the digest
    of the page's catalog file, and no other catalog saved for the page has that digest: the summary
    it makes describes a catalog saved for the page exactly when the file holds a catalog with the
    same summary as the one handed over.
  */
  lemma {:induction false} StampExact(generation: Generation, n: nat, actions: seq<Action>, p: nat)
    requires var st := Run(generation, Fresh(n), actions);
      && p < |st.processes| && st.processes[p].task.Stamp?
      && var t := st.processes[p].task;
         t.url in st.files.catalogs && OwnDigest(generation, st.published, t.url, st.files.catalogs[t.url])
    ensures var st := Run(generation, Fresh(n), actions); var t := st.processes[p].task;
      var payload := st.files.catalogs[t.url]; var next := Step(generation, st, Continue(p));
      && p < |next.processes| && next.processes[p].task.WriteSummary?
      && (TaskDescribed(generation, next.published, next.processes[p].task) <==>
            payload.Readable? && SameSummary(payload.catalog, t.catalog))
  {
    hide Run, OwnDigest, Described, SameSummary, SummaryFrom;
    RunPublished(generation, n, actions);
    var st := Run(generation, Fresh(n), actions);
    var t := st.processes[p].task;
    StampedIsDescribed(generation, st.published, t.url, t.catalog, st.files.catalogs[t.url]);
  }

  // ---------- What `load_catalog` returns ----------

  /** The catalog the page's file holds. */
  function Stored(st: State, url: string): Option<ValidatedCatalog> {
    if url in st.files.catalogs && st.files.catalogs[url].Readable? then Some(st.files.catalogs[url].catalog) else None
  }

  /** The handed-over catalog, or else the one in the file. */
  function Loaded(st: State, p: nat, url: string): Option<ValidatedCatalog>
    requires p < |st.processes|
  {
    var pending := st.processes[p].pending;
    if url in pending.table then Some(pending.table[url]) else Stored(st, url)
  }

  /** While the process holds a handoff for the page, its catalog file is lost or gets another catalog. */
  predicate OutdatesHandoff(st: State, a: Action, p: nat, url: string)
    requires p < |st.processes|
  {
    && url in st.processes[p].pending.table
    && match a
       case SaveLinks(q, u, links) => u == url && CanStart(st, q) && Stored(st, url) != Some(CatalogOf(links))
       case LoseCatalog(u) => u == url
       case GarbleCatalog(u, _) => u == url
       case _ => false
  }

  predicate NeverOutdated(generation: Generation, st: State, actions: seq<Action>, p: nat, url: string) {
    actions == [] ||
      var front := actions[..|actions| - 1];
      && NeverOutdated(generation, st, front, p, url)
      && (p < |Run(generation, st, front).processes| ==>
            !OutdatesHandoff(Run(generation, st, front), actions[|actions| - 1], p, url))
  }

  lemma {:induction false} TrimKeeps(d: Pending, url: string)
    ensures url in Trim(d).table ==> url in d.table && Trim(d).table[url] == d.table[url]
    decreases |d.keys|
  {
    if |d.keys| > PENDING_LIMIT { TrimKeeps(d.DropFirst(), url); }
  }

  lemma FoundKeeps(pr: Process, found: string, catalog: ValidatedCatalog, task: Task, url: string)
    ensures var after := Found(pr, found, catalog, task).pending;
      url in after.table ==>
        if url == found then after.table[url] == catalog
        else url in pr.pending.table && after.table[url] == pr.pending.table[url]
  {
    hide Trim;
    TrimKeeps(Taken(pr.pending, found).Put(found, catalog), url);
  }

  lemma TakenKeeps(d: Pending, taken: string, url: string)
    ensures url in Taken(d, taken).table ==> url in d.table && Taken(d, taken).table[url] == d.table[url]
  {
  }

  lemma AdvanceLoads(generation: Generation, st: State, q: nat, p: nat, url: string)
    requires p < |st.processes| && q < |st.processes| && Loaded(st, p, url) == Stored(st, url)
    ensures Loaded(Step(generation, st, Continue(q)), p, url) == Stored(Step(generation, st, Continue(q)), url)
  {
    hide Found, Deliver, SummaryFrom;
    var pr := st.processes[q];
    match pr.task
    case FindCatalog(u, embed) =>
      if u in pr.pending.table {
        FoundKeeps(pr, u, pr.pending.table[u], Stamp(u, pr.pending.table[u], embed), url);
      } else if u in st.files.catalogs && st.files.catalogs[u].Readable? {
        var payload := st.files.catalogs[u];
        FoundKeeps(pr, u, payload.catalog, WriteSummary(u, SummaryFrom(payload.catalog, generation(payload)), embed), url);
      }
    case _ =>
  }

  lemma SaveLoads(generation: Generation, st: State, a: Action, p: nat, url: string)
    requires a.SaveLinks? && p < |st.processes| && Loaded(st, p, url) == Stored(st, url)
    ensures var next := Step(generation, st, a);
      && p < |next.processes|
      && (Loaded(next, p, url) == Stored(next, url) <==> !OutdatesHandoff(st, a, p, url))
  {
    hide SummaryFrom, CatalogOf;
    CompiledIsValid(a.links);
  }

  /**
    From a state in which `load_catalog` would return what the file holds, any action of any process
    keeps it so, except exactly one that loses the file or puts another catalog into it while the
    process holds a handoff for the page.
  */
  lemma LoadsExactly(generation: Generation, st: State, a: Action, p: nat, url: string)
    requires p < |st.processes| && Loaded(st, p, url) == Stored(st, url)
    ensures var next := Step(generation, st, a);
      && p < |next.processes|
      && (Loaded(next, p, url) == Stored(next, url) <==> !OutdatesHandoff(st, a, p, url))
  {
    hide Advance, SummaryFrom, CatalogOf, Taken, Deliver;
    match a
    case SaveLinks(q, u, links) => SaveLoads(generation, st, a, p, url);
    case LoadCatalog(q, u) =>
      if CanStart(st, q) { TakenKeeps(st.processes[q].pending, u, url); }
    case Continue(q) =>
      if q < |st.processes| { AdvanceLoads(generation, st, q, p, url); }
    case _ =>
  }

  /**
    In every run, `load_catalog` returns what the page's catalog file holds, as long as no action
    outdated a handoff of the process for the page.
  */
  lemma {:induction false} LoadsStored(generation: Generation, n: nat, actions: seq<Action>, p: nat, url: string)
    requires p < n && NeverOutdated(generation, Fresh(n), actions, p, url)
    ensures var st := Run(generation, Fresh(n), actions); p < |st.processes| && Loaded(st, p, url) == Stored(st, url)
  {
    hide Step, Loaded, Stored, OutdatesHandoff;
    if actions == [] {
      FreshLoads(n, p, url);
    } else {
      LoadsStored(generation, n, actions[..|actions| - 1], p, url);
      LoadsExactly(generation, Run(generation, Fresh(n), actions[..|actions| - 1]), actions[|actions| - 1], p, url);
    }
  }

  lemma FreshLoads(n: nat, p: nat, url: string)
    requires p < n
    ensures p < |Fresh(n).processes| && Loaded(Fresh(n), p, url) == Stored(Fresh(n), url)
  {
  }

  // ---------- An outdated handoff ----------

  function One(
      pending: Pending, task: Task, catalog: ValidatedCatalog, summaries: map<string, Summary>,
      url: string, published: Published): State {
    State(Files(map[url := Readable(catalog)], summaries, map[]), [Process(pending, task)], [], published)
  }

  /** Loading a missing summary from the file leaves the catalog handed over; `save_links` does not withdraw it. */
  lemma LoadsFromFile(generation: Generation, url: string, a: ValidatedCatalog, published: Published) returns (pending: Pending)
    ensures url in pending.table && pending.table[url] == a
    ensures Finish(generation, One(Dict([], map[]), ReadSummary(url, None), a, map[], url, published))
         == One(pending, Idle, a, map[url := SummaryFrom(a, generation(Readable(a)))], url, published)
  {
    hide Remember, Taken, SummaryFrom;
    pending := Remember(Taken(Dict([], map[]), url), url, a);
    TakenShrinks(Dict([], map[]), url);
    RememberSpec(Taken(Dict([], map[]), url), url, a);
  }

  lemma LoadsFromHandoff(
      generation: Generation, url: string, pending: Pending, a: ValidatedCatalog, b: ValidatedCatalog,
      published: Published)
    requires url in pending.table && pending.table[url] == a
    ensures var after := Finish(generation, Finish(generation, One(pending, ReadSummary(url, None), b, map[], url, published)));
      && after.files.catalogs == map[url := Readable(b)] && after.published == published
      && after.files.summaries == map[url := SummaryFrom(a, generation(Readable(b)))]
  {
    hide Remember, Taken, SummaryFrom;
  }

  lemma TakenShrinks(d: Pending, url: string)
    ensures |Taken(d, url).keys| <= |d.keys|
  {
    PopValid(d, url);
  }

  /** Three more accesses of the only process. */
  function Finish(generation: Generation, st: State): State {
    Step(generation, Step(generation, Step(generation, st, Continue(0)), Continue(0)), Continue(0))
  }

  lemma {:induction false} RunThen(generation: Generation, st: State, xs: seq<Action>, ys: seq<Action>)
    ensures Run(generation, st, xs + ys) == Run(generation, Run(generation, st, xs), ys)
  {
    if ys == [] {
      assert xs + ys == xs;
    } else {
      assert (xs + ys)[..|xs + ys| - 1] == xs + ys[..|ys| - 1];
      RunThen(generation, st, xs, ys[..|ys| - 1]);
    }
  }

  lemma {:induction false} RunThree(generation: Generation, st: State, x: Action, y: Action, z: Action)
    ensures Run(generation, st, [x, y, z]) == Step(generation, Step(generation, Step(generation, st, x), y), z)
  {
    hide Step;
    assert [x, y, z] == [x, y] + [z] && [x, y] == [x] + [y] && [x] == [] + [x];
    RunThen(generation, st, [x, y], [z]);
    RunThen(generation, st, [x], [y]);
    RunOne(generation, st, x);
    RunOne(generation, Run(generation, st, [x]), y);
    RunOne(generation, Run(generation, st, [x, y]), z);
  }

  lemma {:induction false} RunOne(generation: Generation, st: State, x: Action)
    ensures Run(generation, st, [x]) == Step(generation, st, x)
  {
    assert [x][..0] == [];
  }

  /** Saving links, losing the summary again, and starting to load it. */
  function Resave(generation: Generation, st: State, url: string, links: ParsedLinks): State {
    var saved := Step(generation, Step(generation, Step(generation, st, SaveLinks(0, url, links)), Continue(0)), LoseSummary(url));
    Step(generation, saved, LoadSummary(0, url))
  }

  lemma ResaveSpec(generation: Generation, st: State, url: string, links: ParsedLinks)
    requires |st.processes| == 1 && st.processes[0].task == Idle && st.files.choices == map[] && st.saved == []
    requires st.files.catalogs.Keys <= {url} && st.files.summaries.Keys <= {url}
    ensures ValidCatalog(CatalogOf(links))
    ensures Resave(generation, st, url, links) == One(
      st.processes[0].pending, ReadSummary(url, None), CatalogOf(links), map[], url, st.published + [(url, CatalogOf(links))])
  {
    hide SummaryFrom, CatalogOf;
    CompiledIsValid(links);
    var c := CatalogOf(links);
    var s1 := Step(generation, st, SaveLinks(0, url, links));
    assert s1.files.catalogs == map[url := Readable(c)];
    var s2 := Step(generation, s1, Continue(0));
    assert s2.files.catalogs == s1.files.catalogs && s2.files.summaries.Keys == {url} && s2.processes[0].task == Idle;
    var s3 := Step(generation, s2, LoseSummary(url));
    assert s3.files.summaries == map[];
    assert s3.processes == [Process(st.processes[0].pending, Idle)];
  }

  lemma {:induction false} RunResave(generation: Generation, st: State, url: string, links: ParsedLinks)
    ensures Run(generation, st, ResaveActions(url, links)) == Resave(generation, st, url, links)
  {
    hide Step;
    RunThree(generation, st, SaveLinks(0, url, links), Continue(0), LoseSummary(url));
    var front := [SaveLinks(0, url, links), Continue(0), LoseSummary(url)];
    RunThen(generation, st, front, [LoadSummary(0, url)]);
    RunOne(generation, Run(generation, st, front), LoadSummary(0, url));
  }

  function ResaveActions(url: string, links: ParsedLinks): seq<Action> {
    [SaveLinks(0, url, links), Continue(0), LoseSummary(url)] + [LoadSummary(0, url)]
  }

  const THREE := [Continue(0), Continue(0), Continue(0)]

  lemma {:induction false} RunFinish(generation: Generation, st: State)
    ensures Run(generation, st, THREE) == Finish(generation, st)
  {
    hide Step;
    RunThree(generation, st, Continue(0), Continue(0), Continue(0));
  }

  /**
    For any two states of a page: save the first, lose the summary, load it, save the second, lose
    the summary, load it. One process then writes the first page's groups under the second's generation.
  */
  lemma OutdatedHandoff(
      generation: Generation, url: string, first: ParsedLinks,
      second: ParsedLinks) returns (actions: seq<Action>)
    ensures ValidCatalog(CatalogOf(first)) && ValidCatalog(CatalogOf(second))
    ensures var st := Run(generation, Fresh(1), actions);
      && url in st.files.summaries && url in st.files.catalogs
      && st.files.catalogs[url] == Readable(CatalogOf(second))
      && st.files.summaries[url] == SummaryFrom(CatalogOf(first), generation(Readable(CatalogOf(second))))
      && st.published == [(url, CatalogOf(first)), (url, CatalogOf(second))]
  {
    hide Step, CatalogOf, SummaryFrom, Run, Finish, Resave;
    var s0 := Fresh(1);
    CompiledIsValid(first);
    CompiledIsValid(second);
    ResaveSpec(generation, s0, url, first);
    RunResave(generation, s0, url, first);
    var published := s0.published + [(url, CatalogOf(first))];
    var s1 := Resave(generation, s0, url, first);
    var pending := LoadsFromFile(generation, url, CatalogOf(first), published);
    var s2 := Finish(generation, s1);
    RunFinish(generation, s1);
    ResaveSpec(generation, s2, url, second);
    RunResave(generation, s2, url, second);
    var s3 := Resave(generation, s2, url, second);
    LoadsFromHandoff(generation, url, pending, CatalogOf(first), CatalogOf(second), published + [(url, CatalogOf(second))]);
    RunFinish(generation, s3);
    RunFinish(generation, Finish(generation, s3));
    actions := ResaveActions(url, first) + THREE;
    RunThen(generation, s0, ResaveActions(url, first), THREE);
    RunThen(generation, s0, actions, ResaveActions(url, second));
    actions := actions + ResaveActions(url, second);
    RunThen(generation, s0, actions, THREE);
    actions := actions + THREE;
    RunThen(generation, s0, actions, THREE);
    actions := actions + THREE;
  }

  /** If the two states have different digests and different summaries, it describes neither. */
  lemma SummaryMisdescribes(
      generation: Generation, url: string, first: ParsedLinks,
      second: ParsedLinks) returns (actions: seq<Action>)
    requires ValidCatalog(CatalogOf(first)) && ValidCatalog(CatalogOf(second))
    requires generation(Readable(CatalogOf(first))) != generation(Readable(CatalogOf(second)))
    requires !SameSummary(CatalogOf(second), CatalogOf(first))
    ensures !SummariesDescribed(generation, Run(generation, Fresh(1), actions))
  {
    hide Run, CatalogOf, SummaryFrom, SameSummary, Described;
    actions := OutdatedHandoff(generation, url, first, second);
    var st := Run(generation, Fresh(1), actions);
    var payload := st.files.catalogs[url];
    assert OwnDigest(generation, st.published, url, payload);
    StampedIsDescribed(generation, st.published, url, CatalogOf(first), payload);
  }

  /** Two such states: an empty page, and one with a single link that is no archive. */
  lemma EmptyThenUnparsed(record: Record)
    ensures var second := [Link(record, None)];
      ValidLinks(second) && ValidCatalog(CatalogOf([])) && ValidCatalog(CatalogOf(second))
      && !SameSummary(CatalogOf(second), CatalogOf([]))
  {
    hide SummaryGroups;
    var second := [Link(record, None)];
    CompiledIsValid([]);
    CompiledIsValid(second);
    assert second[..0] == [];
    assert CatalogOf([]).unparsed == [] && CatalogOf(second).unparsed == [record];
  }

  /** After `save_links` the same process can still load the catalog it had before. */
  lemma OutdatedLoad(generation: Generation, url: string, first: ParsedLinks, second: ParsedLinks) returns (actions: seq<Action>)
    ensures ValidCatalog(CatalogOf(first)) && ValidCatalog(CatalogOf(second))
    ensures var st := Run(generation, Fresh(1), actions);
      && |st.processes| == 1 && CanStart(st, 0)
      && Stored(st, url) == Some(CatalogOf(second)) && Loaded(st, 0, url) == Some(CatalogOf(first))
  {
    hide CatalogOf, SummaryFrom, Run, Finish, Resave, Step;
    CompiledIsValid(first);
    CompiledIsValid(second);
    var s0 := Fresh(1);
    ResaveSpec(generation, s0, url, first);
    RunResave(generation, s0, url, first);
    var published := s0.published + [(url, CatalogOf(first))];
    var pending := LoadsFromFile(generation, url, CatalogOf(first), published);
    var s1 := Resave(generation, s0, url, first);
    var s2 := Finish(generation, s1);
    RunFinish(generation, s1);
    RunThen(generation, s0, ResaveActions(url, first), THREE);
    actions := ResaveActions(url, first) + THREE;
    SaveKeepsHandoff(generation, s2, url, second);
    RunTwo(generation, s2, SaveLinks(0, url, second), Continue(0));
    RunThen(generation, s0, actions, [SaveLinks(0, url, second), Continue(0)]);
    actions := actions + [SaveLinks(0, url, second), Continue(0)];
  }

  lemma {:induction false} RunTwo(generation: Generation, st: State, x: Action, y: Action)
    ensures Run(generation, st, [x, y]) == Step(generation, Step(generation, st, x), y)
  {
    hide Step;
    assert [x, y] == [x] + [y];
    RunThen(generation, st, [x], [y]);
    RunOne(generation, st, x);
    RunOne(generation, Run(generation, st, [x]), y);
  }

  lemma SaveKeepsHandoff(generation: Generation, st: State, url: string, links: ParsedLinks)
    requires |st.processes| == 1 && CanStart(st, 0)
    ensures ValidCatalog(CatalogOf(links))
    ensures var after := Step(generation, Step(generation, st, SaveLinks(0, url, links)), Continue(0));
      && |after.processes| == 1 && CanStart(after, 0) && after.processes[0].pending == st.processes[0].pending
      && Stored(after, url) == Some(CatalogOf(links))
  {
    hide SummaryFrom, CatalogOf;
    CompiledIsValid(links);
  }
}
