/** What the operations on cached catalogs do when no other process overtakes them and no file is lost. */
module CatalogOperations {
  import opened Wrappers
  import opened OrderedDicts
  import opened Catalogs
  import opened CatalogCache

  /** The first action, then `n` file accesses of the process. */
  function Undisturbed(generation: Generation, st: State, a: Action, p: nat, n: nat): State {
    if n == 0 then Step(generation, st, a) else Step(generation, Undisturbed(generation, st, a, p, n - 1), Continue(p))
  }

  /** The process is idle again, and no other process and no history has changed. */
  predicate OnlyFiles(st: State, after: State, p: nat) {
    && CanStart(st, p) && CanStart(after, p) && |after.processes| == |st.processes|
    && forall q :: 0 <= q < |st.processes| && q != p ==> after.processes[q] == st.processes[q]
  }

  predicate SameHandoff(st: State, after: State, p: nat)
    requires OnlyFiles(st, after, p)
  {
    after.processes[p].pending == st.processes[p].pending
  }

  /** Every such call is one of the runs. */
  lemma {:induction false} UndisturbedIsRun(generation: Generation, st: State, a: Action, p: nat, n: nat) returns (actions: seq<Action>)
    ensures Run(generation, st, actions) == Undisturbed(generation, st, a, p, n)
  {
    hide Step;
    if n == 0 {
      actions := [a];
      assert [a][..0] == [];
      assert Run(generation, st, []) == st;
    } else {
      var front := UndisturbedIsRun(generation, st, a, p, n - 1);
      actions := front + [Continue(p)];
      assert actions[..|actions| - 1] == front;
    }
  }

  /** `save_links` writes the catalog of the links and its summary, without choices, under the catalog's digest. */
  lemma {:induction false} SaveLinksAlone(generation: Generation, st: State, p: nat, url: string, links: ParsedLinks)
    requires CanStart(st, p)
    ensures ValidCatalog(CatalogOf(links))
    ensures var after := Undisturbed(generation, st, SaveLinks(p, url, links), p, 1); var catalog := CatalogOf(links);
      && OnlyFiles(st, after, p) && SameHandoff(st, after, p)
      && after.files.catalogs == st.files.catalogs[url := Readable(catalog)]
      && after.files.summaries == st.files.summaries[url := SummaryFrom(catalog, generation(Readable(catalog)))]
      && after.files.summaries[url].choices == map[] && after.files.choices == st.files.choices
      && after.published == st.published + [(url, catalog)]
  {
    hide CatalogOf, SummaryGroups;
    CompiledIsValid(links);
    var started := Undisturbed(generation, st, SaveLinks(p, url, links), p, 0);
    assert Undisturbed(generation, st, SaveLinks(p, url, links), p, 1) == Step(generation, started, Continue(p));
  }

  /** `load_summary` leaves everything as it is where there is a summary. */
  lemma {:induction false} SummaryIsRead(generation: Generation, st: State, p: nat, url: string)
    requires CanStart(st, p) && url in st.files.summaries
    ensures Undisturbed(generation, st, LoadSummary(p, url), p, 1) == st
  {
    var started := Undisturbed(generation, st, LoadSummary(p, url), p, 0);
    assert Undisturbed(generation, st, LoadSummary(p, url), p, 1) == Step(generation, started, Continue(p));
    assert started.processes[p].(task := Idle) == st.processes[p];
    assert started.processes[p := st.processes[p]] == st.processes;
  }

  /** Otherwise it summarizes the catalog file, if that can be read, and hands the catalog over. */
  lemma {:induction false} SummaryIsCompiled(generation: Generation, st: State, p: nat, url: string)
    requires CanStart(st, p) && url !in st.files.summaries && url !in st.processes[p].pending.table
    requires url in st.files.catalogs && st.files.catalogs[url].Readable?
    ensures var after := Undisturbed(generation, st, LoadSummary(p, url), p, 3); var payload := st.files.catalogs[url];
      && OnlyFiles(st, after, p)
      && after.files == st.files.(summaries := st.files.summaries[url := SummaryFrom(payload.catalog, generation(payload))])
      && url in after.processes[p].pending.table && after.processes[p].pending.table[url] == payload.catalog
  {
    hide SummaryGroups, Remember, Taken;
    var s1 := Reading(generation, st, p, url);
    var s2, s3 := Step(generation, s1, Continue(p)), Step(generation, Step(generation, s1, Continue(p)), Continue(p));
    var a := LoadSummary(p, url);
    assert Undisturbed(generation, st, a, p, 2) == s2 && Undisturbed(generation, st, a, p, 3) == s3;
    HandedOver(st.processes[p].pending, url, st.files.catalogs[url].catalog);
  }

  /** A catalog handed over before is summarized instead, under the digest of the file. */
  lemma {:induction false} SummaryIsStamped(generation: Generation, st: State, p: nat, url: string)
    requires CanStart(st, p) && url !in st.files.summaries && url in st.processes[p].pending.table
    requires url in st.files.catalogs
    ensures var after := Undisturbed(generation, st, LoadSummary(p, url), p, 4); var catalog := st.processes[p].pending.table[url];
      && OnlyFiles(st, after, p)
      && after.files ==
           st.files.(summaries := st.files.summaries[url := SummaryFrom(catalog, generation(st.files.catalogs[url]))])
      && url in after.processes[p].pending.table && after.processes[p].pending.table[url] == catalog
  {
    hide SummaryGroups, Remember, Taken;
    var s1 := Reading(generation, st, p, url);
    var a := LoadSummary(p, url);
    var s2 := Step(generation, s1, Continue(p));
    var s3 := Step(generation, s2, Continue(p));
    assert Undisturbed(generation, st, a, p, 2) == s2 && Undisturbed(generation, st, a, p, 3) == s3;
    assert Undisturbed(generation, st, a, p, 4) == Step(generation, s3, Continue(p));
    HandedOver(st.processes[p].pending, url, st.processes[p].pending.table[url]);
  }

  /** With neither a readable catalog file nor a handed-over catalog nothing is written. */
  lemma {:induction false} NothingToSummarize(generation: Generation, st: State, p: nat, url: string)
    requires CanStart(st, p) && url !in st.files.summaries && url !in st.processes[p].pending.table
    requires url in st.files.catalogs ==> st.files.catalogs[url].Garbled?
    ensures Undisturbed(generation, st, LoadSummary(p, url), p, 2) == st
  {
    var s1 := Reading(generation, st, p, url);
    assert Undisturbed(generation, st, LoadSummary(p, url), p, 2) == Step(generation, s1, Continue(p));
    assert s1.processes[p].(task := Idle) == st.processes[p];
    assert s1.processes[p := st.processes[p]] == st.processes;
  }

  lemma Reading(generation: Generation, st: State, p: nat, url: string) returns (s1: State)
    requires CanStart(st, p) && url !in st.files.summaries
    ensures s1 == Undisturbed(generation, st, LoadSummary(p, url), p, 1)
    ensures s1 == st.(processes := st.processes[p := Process(st.processes[p].pending, FindCatalog(url, None))])
  {
    var s0 := Undisturbed(generation, st, LoadSummary(p, url), p, 0);
    s1 := Step(generation, s0, Continue(p));
    assert s0.processes[p := s1.processes[p]] == st.processes[p := s1.processes[p]];
  }

  lemma HandedOver(d: Pending, url: string, catalog: ValidatedCatalog)
    ensures var after := Remember(Taken(d, url), url, catalog); url in after.table && after.table[url] == catalog
  {
    NewestStays(Taken(d, url).Put(url, catalog), url);
    NewestIsLast(Taken(d, url), url, catalog);
  }

  lemma NewestIsLast(d: Pending, url: string, catalog: ValidatedCatalog)
    requires url !in d.table
    ensures var after := d.Put(url, catalog); after.keys == d.keys + [url] && after.table[url] == catalog
  {
  }

  lemma {:induction false} NewestStays(d: Pending, url: string)
    requires d.keys != [] && d.keys[|d.keys| - 1] == url
    ensures url in Trim(d).table && Trim(d).table[url] == d.table[url]
    decreases |d.keys|
  {
    if |d.keys| > PENDING_LIMIT { NewestStays(d.DropFirst(), url); }
  }

  /** `save_choices` writes the choice file, and into the summary of that generation its choices for the profile. */
  lemma {:induction false} SaveChoicesAlone(
      generation: Generation, st: State, p: nat, url: string, g: string, profile: Profile, choices: Choices)
    requires CanStart(st, p) && url in st.files.summaries
    ensures var after := Undisturbed(generation, st, SaveChoices(p, url, g, profile, choices), p, 2);
      var s := st.files.summaries[url];
      && OnlyFiles(st, after, p) && SameHandoff(st, after, p)
      && after.files.catalogs == st.files.catalogs
      && after.files.choices == st.files.choices[(url, profile) := (g, choices)]
      && after.saved == st.saved + [Save(url, g, profile, choices)]
      && after.files.summaries ==
           if s.generation == g then st.files.summaries[url := s.(choices := s.choices[profile := choices])]
           else st.files.summaries
  {
    var a, s := SaveChoices(p, url, g, profile, choices), st.files.summaries[url];
    var s0 := Undisturbed(generation, st, a, p, 0);
    var s1 := Step(generation, s0, Continue(p));
    assert Undisturbed(generation, st, a, p, 1) == s1 && Undisturbed(generation, st, a, p, 2) == Step(generation, s1, Continue(p));
    if profile in s.choices && s.choices[profile] == choices {
      assert s.choices[profile := choices] == s.choices;
      assert st.files.summaries[url := s] == st.files.summaries;
    }
  }

  /** `load_choices` returns what is filed under the generation, and puts it into the summary of that generation. */
  lemma {:induction false} LoadChoicesAlone(generation: Generation, st: State, p: nat, url: string, g: string, profile: Profile)
    requires CanStart(st, p) && url in st.files.summaries
    ensures var after := Undisturbed(generation, st, LoadChoices(p, url, g, profile), p, 2);
      var s, filed := st.files.summaries[url], (url, profile) in st.files.choices && st.files.choices[(url, profile)].0 == g;
      && OnlyFiles(st, after, p) && SameHandoff(st, after, p)
      && after.files.catalogs == st.files.catalogs && after.files.choices == st.files.choices && after.saved == st.saved
      && ReadChoices(st.files, url, g, profile) == (if filed then st.files.choices[(url, profile)].1 else map[])
      && after.files.summaries ==
           if filed && s.generation == g
           then st.files.summaries[url := s.(choices := s.choices[profile := st.files.choices[(url, profile)].1])]
           else st.files.summaries
  {
    var a, s := LoadChoices(p, url, g, profile), st.files.summaries[url];
    var s0 := Undisturbed(generation, st, a, p, 0);
    var s1 := Step(generation, s0, Continue(p));
    assert Undisturbed(generation, st, a, p, 1) == s1 && Undisturbed(generation, st, a, p, 2) == Step(generation, s1, Continue(p));
    if (url, profile) in st.files.choices && profile in s.choices && s.choices[profile] == st.files.choices[(url, profile)].1 {
      assert s.choices[profile := s.choices[profile]] == s.choices;
      assert st.files.summaries[url := s] == st.files.summaries;
    }
  }
}
