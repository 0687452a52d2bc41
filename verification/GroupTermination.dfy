/**
  When the loop of `resolve_group` ends.

  The program looks for a written name among the keys of the open groups, so an include that is not
  spelled as a key is never noticed. `HaltsExactly` says on which tables and starts the loop ends:
  follow, from the requested group, the first include of each group that cannot be expanded; the loop
  runs forever exactly when this trail comes back to a group through such unnoticed includes only.
*/
module GroupTermination {
  import opened Wrappers
  import opened DependencyGroups
  import Names
  import Text

  // ---------- Termination ----------

  /** An include whose written name is not itself a key of the table. */
  predicate Inexact(t: Table, name: string) {
    name !in t.groups
  }

  /** The inexact includes form no cycle: each leads to a group of lower rank. */
  ghost predicate InexactRanked(t: Table, rank: string -> nat) {
    forall key, written | Includes(t, key, written) && Inexact(t, written) && Actual(t, written).Some? ::
      rank(Actual(t, written).value) < rank(key)
  }

  lemma {:induction false} SubsetSize(a: set<string>, b: set<string>)
    requires a <= b
    ensures |a| <= |b|
  {
    if a != {} {
      var x :| x in a;
      SubsetSize(a - {x}, b - {x});
    }
  }

  ghost function Unopened(t: Table, stack: seq<string>): set<string> {
    set k | k in t.groups && k !in stack
  }

  /** Opening one more group leaves no more unopened, and fewer if it was not open yet. */
  lemma OpenOneMore(t: Table, stack: seq<string>, key: string)
    ensures |Unopened(t, stack + [key])| <= |Unopened(t, stack)|
    ensures key in t.groups && key !in stack ==> |Unopened(t, stack + [key])| < |Unopened(t, stack)|
  {
    var fewer := Unopened(t, stack + [key]);
    SubsetSize(fewer, Unopened(t, stack));
    if key in t.groups && key !in stack {
      assert fewer <= Unopened(t, stack) - {key};
      SubsetSize(fewer, Unopened(t, stack) - {key});
    }
  }

  lemma {:induction false} RankedHalts(t: Table, rank: string -> nat, name: string, stack: seq<string>) returns (fuel: nat)
    requires ValidTable(t) && InexactRanked(t, rank) && EnterGroup(t, name, stack).Enter?
    ensures Expand(t, fuel, name, stack).Some?
    decreases var e := EnterGroup(t, name, stack); |Unopened(t, stack + [e.key])|,
      rank(EnterGroup(t, name, stack).key), |EnterGroup(t, name, stack).items| + 1
  {
    hide LastInvalid, LastCanonical, Unopened, InexactRanked;
    var e := EnterGroup(t, name, stack);
    ActualIsKey(t, name);
    var f := RankedItemsHalt(t, rank, e.key, e.items, stack + [e.key]);
    fuel := f + 1;
  }

  lemma {:induction false} RankedItemsHalt(t: Table, rank: string -> nat, key: string, items: seq<Item>, stack: seq<string>)
    returns (fuel: nat)
    requires ValidTable(t) && InexactRanked(t, rank)
    requires forall i :: 0 <= i < |items| && items[i].Include? ==> Includes(t, key, items[i].name)
    ensures ExpandItems(t, fuel, items, stack).Some?
    decreases |Unopened(t, stack)|, rank(key), |items|
  {
    hide Expand, Unopened, Actual, LastInvalid;
    fuel := 1;
    if items != [] {
      var rest := RankedItemsHalt(t, rank, key, items[1..], stack);
      var first := FrameOf(items[0], stack);
      var f: nat := 1;
      if first.Visit? {
        if EnterGroup(t, first.name, stack).Enter? {
          assert Includes(t, key, first.name);
          RankGoesDown(t, rank, key, first.name, stack);
          f := RankedHalts(t, rank, first.name, stack);
        } else {
          RefusedExpands(t, first.name, stack);
        }
        ExpandMonotone(t, f, rest, first.name, stack);
      }
      fuel := f + rest;
      ItemsMonotone(t, rest, f, items[1..], stack);
      assert rest + f == fuel;
    }
  }

  lemma {:induction false} RefusedExpands(t: Table, name: string, stack: seq<string>)
    requires EnterGroup(t, name, stack).Refuse?
    ensures Expand(t, 1, name, stack).Some?
  {
  }

  /** Entering an included group opens one more group, or leads to one of lower rank. */
  lemma RankGoesDown(t: Table, rank: string -> nat, key: string, name: string, stack: seq<string>)
    requires ValidTable(t) && InexactRanked(t, rank) && Includes(t, key, name) && EnterGroup(t, name, stack).Enter?
    ensures var e := EnterGroup(t, name, stack); var fewer := |Unopened(t, stack + [e.key])|;
      fewer < |Unopened(t, stack)| || (fewer == |Unopened(t, stack)| && rank(e.key) < rank(key))
  {
    hide LastInvalid, Unopened, Includes;
    OpenOneMore(t, stack, EnterGroup(t, name, stack).key);
  }

  /** Without a cycle of inexact includes the loop ends, from every start. */
  lemma RankedTerminates(t: Table, rank: string -> nat, name: string, stack: seq<string>)
    requires ValidTable(t) && InexactRanked(t, rank)
    ensures Halts(t, name, stack)
  {
    var fuel := 1;
    if EnterGroup(t, name, stack).Enter? {
      fuel := RankedHalts(t, rank, name, stack);
    }
    var outcome := Expand(t, fuel, name, stack).value;
    assert Expand(t, fuel, name, stack) == Some(outcome);
    MachineIsRecursion(t, name, stack, outcome);
    assert Resolves(t, name, stack, outcome);
  }

  predicate ExactlySpelled(t: Table) {
    forall key :: key in t.groups && t.groups[key].Items? ==>
      forall i :: 0 <= i < |t.groups[key].items| && t.groups[key].items[i].Include? ==>
        t.groups[key].items[i].name in t.groups
  }

  /** When includes are spelled as table keys, the loop ends from every start. */
  lemma ExactTerminates(t: Table, name: string, stack: seq<string>)
    requires ValidTable(t) && ExactlySpelled(t)
    ensures Halts(t, name, stack)
  {
    var rank: string -> nat := (key: string) => 0;
    forall key, written | Includes(t, key, written) ensures !Inexact(t, written) {
      ActualSome(t, key);
      ActualIsKey(t, key);
    }
    RankedTerminates(t, rank, name, stack);
  }

  lemma ActualSome(t: Table, name: string)
    requires Lookup(t, name).Items?
    ensures Actual(t, name).Some?
  {
  }

  // ---------- The trail ----------

  /** The first include of the list that is not clean; what stands before it can be expanded. */
  ghost function FirstUnclean(t: Table, items: seq<Item>): Option<string> {
    if items == [] then None
    else if items[0].Include? && !CleanFrom(t, items[0].name) then Some(items[0].name)
    else FirstUnclean(t, items[1..])
  }

  ghost function Leads(t: Table, name: string): Option<string> {
    if WellFormed(t, name) then FirstUnclean(t, Lookup(t, name).items) else None
  }

  /** The written name that is reached after `n` such includes, if there are that many. */
  ghost function Trail(t: Table, name: string, n: nat): Option<string> {
    if n == 0 then Some(name)
    else
      match Trail(t, name, n - 1)
      case None => None
      case Some(here) => Leads(t, here)
  }

  /** From place `i` to place `j` the trail returns to one group, through inexact includes only. */
  ghost predicate Closes(t: Table, name: string, i: nat, j: nat) {
    && i < j && Trail(t, name, i).Some? && Trail(t, name, j).Some?
    && Actual(t, Trail(t, name, i).value) == Actual(t, Trail(t, name, j).value)
    && forall k :: i < k <= j ==> Trail(t, name, k).Some? && Inexact(t, Trail(t, name, k).value)
  }

  ghost predicate DivergesFrom(t: Table, name: string) {
    exists i: nat, j: nat :: j <= |t.groups| && Closes(t, name, i, j)
  }

  lemma {:induction false} TrailStarts(t: Table, name: string, n: nat, k: nat)
    requires k <= n && Trail(t, name, n).Some?
    ensures Trail(t, name, k).Some?
    ensures k < n ==> Leads(t, Trail(t, name, k).value).Some?
  {
    hide Leads;
    if k < n { TrailStarts(t, name, n - 1, k); }
  }

  /** What follows depends on the group only, so the trail is periodic once a group recurs. */
  lemma {:induction false} Periodic(t: Table, name: string, i: nat, j: nat, n: nat)
    requires Trail(t, name, i).Some? && Trail(t, name, j).Some?
    requires Actual(t, Trail(t, name, i).value) == Actual(t, Trail(t, name, j).value)
    ensures Trail(t, name, i + 1 + n) == Trail(t, name, j + 1 + n)
  {
    hide FirstUnclean, Actual, LastInvalid;
    if n == 0 {
      SameGroup(t, Trail(t, name, i).value, Trail(t, name, j).value);
    } else {
      Periodic(t, name, i, j, n - 1);
    }
  }

  lemma SameGroup(t: Table, a: string, b: string)
    requires Actual(t, a) == Actual(t, b)
    ensures Leads(t, a) == Leads(t, b)
  {
    hide Actual, FirstUnclean;
  }

  /** What recurs once recurs as late as one likes. */
  lemma {:induction false} Recurs(t: Table, name: string, i: nat, j: nat, bound: nat) returns (n: nat)
    requires i < j && Trail(t, name, i).Some? && Trail(t, name, j).Some?
    requires Actual(t, Trail(t, name, i).value) == Actual(t, Trail(t, name, j).value)
    ensures bound < n && j <= n && Trail(t, name, n) == Trail(t, name, j)
  {
    hide Trail, Actual;
    if bound < j {
      n := j;
    } else {
      n := Recurs(t, name, i, j, bound - 1);
      if n == bound {
        Periodic(t, name, i, j, n - i - 1);
        n := n + (j - i);
      }
    }
  }

  /** Past the entry of a silent cycle every name is inexact. */
  lemma {:induction false} InexactBeyond(t: Table, name: string, i: nat, j: nat, n: nat)
    requires Closes(t, name, i, j) && i < n
    ensures Trail(t, name, n).Some? && Inexact(t, Trail(t, name, n).value)
    decreases n
  {
    hide Trail, Inexact, Actual;
    if n > j {
      Periodic(t, name, i, j, n - j - 1);
      InexactBeyond(t, name, i, j, n - (j - i));
    }
  }

  // ---------- Clean groups expand, whatever hangs below ----------

  lemma CleanIsFlattening(t: Table, name: string)
    requires ValidTable(t)
    ensures CleanFrom(t, name) <==> Flattens(t, name)
  {
    hide CleanPath;
    if Flattens(t, name) {
      forall path | IsPath(t, path) && path[0] == name ensures CleanPath(t, path) {
        FlattenIsClean(t, name, path);
      }
    }
    if CleanFrom(t, name) {
      CleanFlattens(t, [name]);
    }
  }

  /** Open groups none of which can be flattened. */
  ghost predicate AllHang(t: Table, stack: seq<string>) {
    forall i :: 0 <= i < |stack| ==> stack[i] in t.groups && !Flattens(t, stack[i])
  }

  lemma CleanExpands(t: Table, name: string, stack: seq<string>) returns (fuel: nat)
    requires ValidTable(t) && CleanFrom(t, name) && AllHang(t, stack)
    ensures Expand(t, fuel, name, stack).Some? && Expand(t, fuel, name, stack).value.Done?
  {
    hide CleanFrom;
    CleanIsFlattening(t, name);
    fuel :| Flatten(t, fuel, name).Some?;
    FlattenExpands(t, fuel, name, stack);
  }

  lemma {:induction false} ExpandsAlike(t: Table, name: string, stack: seq<string>, f: nat, g: nat)
    requires Expand(t, f, name, stack).Some? && Expand(t, g, name, stack).Some?
    ensures Expand(t, f, name, stack) == Expand(t, g, name, stack)
  {
    hide Expand;
    ExpandMonotone(t, f, g, name, stack);
    ExpandMonotone(t, g, f, name, stack);
    assert f + g == g + f;
  }

  lemma LeadsHangs(t: Table, name: string)
    requires ValidTable(t) && Leads(t, name).Some?
    ensures !Flattens(t, name) && Actual(t, name).Some?
    ensures Actual(t, name).value in t.groups && !Flattens(t, Actual(t, name).value)
  {
    hide CleanFrom, Flattens, LastInvalid, Actual;
    var items := Lookup(t, name).items;
    var i := UncleanAt(t, items);
    CleanIsFlattening(t, items[i].name);
    if Flattens(t, name) { IncludeIsLower(t, name, i); }
    HasKey(t, name);
  }

  lemma HasKey(t: Table, name: string)
    requires ValidTable(t) && Lookup(t, name).Items?
    ensures Actual(t, name).Some? && Actual(t, name).value in t.groups
    ensures Flattens(t, Actual(t, name).value) <==> Flattens(t, name)
  {
    ActualIsKey(t, name);
    var key := Actual(t, name).value;
    assert forall f: nat :: Flatten(t, f, key) == Flatten(t, f, name);
  }

  lemma {:induction false} UncleanAt(t: Table, items: seq<Item>) returns (i: nat)
    requires FirstUnclean(t, items).Some?
    ensures i < |items| && items[i].Include? && items[i].name == FirstUnclean(t, items).value
    ensures !CleanFrom(t, items[i].name)
  {
    hide CleanFrom;
    if items[0].Include? && !CleanFrom(t, items[0].name) {
      i := 0;
    } else {
      i := UncleanAt(t, items[1..]);
      i := i + 1;
    }
  }

  // ---------- A loop that does not end follows the trail ----------

  ghost predicate NeverExpands(t: Table, name: string, stack: seq<string>) {
    forall fuel: nat :: Expand(t, fuel, name, stack).None?
  }

  ghost predicate ItemsNeverExpand(t: Table, items: seq<Item>, stack: seq<string>) {
    forall fuel: nat :: ExpandItems(t, fuel, items, stack).None?
  }

  lemma HaltsByExpansion(t: Table, name: string, stack: seq<string>)
    ensures Halts(t, name, stack) <==> !NeverExpands(t, name, stack)
  {
    if Halts(t, name, stack) { HaltsExpands(t, name, stack); }
    if !NeverExpands(t, name, stack) { ExpandsHalts(t, name, stack); }
  }

  lemma HaltsExpands(t: Table, name: string, stack: seq<string>)
    requires Halts(t, name, stack)
    ensures !NeverExpands(t, name, stack)
  {
    hide Expand, Run;
    var n: nat :| Run(t, n, [Visit(name, stack)], []).Some?;
    assert [] + [Visit(name, stack)] == [Visit(name, stack)];
    RunExpands(t, n, [], name, stack, []);
  }

  lemma ExpandsHalts(t: Table, name: string, stack: seq<string>)
    requires !NeverExpands(t, name, stack)
    ensures Halts(t, name, stack)
  {
    hide Expand, Run;
    var fuel: nat :| Expand(t, fuel, name, stack).Some?;
    var outcome := Expand(t, fuel, name, stack).value;
    assert Expand(t, fuel, name, stack) == Some(outcome);
    MachineIsRecursion(t, name, stack, outcome);
    assert Resolves(t, name, stack, outcome);
  }

  /** Where a list never expands, its first unclean include is to blame. */
  lemma {:induction false} ItemsHang(t: Table, items: seq<Item>, stack: seq<string>)
    requires ValidTable(t) && AllHang(t, stack) && LastInvalid(items).None?
    requires ItemsNeverExpand(t, items, stack)
    ensures FirstUnclean(t, items).Some? && NeverExpands(t, FirstUnclean(t, items).value, stack)
  {
    hide Expand, CleanFrom, AllHang, ValidTable;
    assert ExpandItems(t, 0, items, stack).None?;
    NoneInvalid(items);
    NoneInvalid(items[1..]);
    if items[0].Include? && !CleanFrom(t, items[0].name) {
      UncleanHangs(t, items, stack);
    } else {
      RestHangs(t, items, stack);
      ItemsHang(t, items[1..], stack);
    }
  }

  lemma UncleanHangs(t: Table, items: seq<Item>, stack: seq<string>)
    requires ValidTable(t) && items != [] && items[0].Include? && !CleanFrom(t, items[0].name)
    requires ItemsNeverExpand(t, items, stack)
    ensures NeverExpands(t, items[0].name, stack)
  {
    hide Expand, CleanFrom, ValidTable;
    var name := items[0].name;
    CleanIsFlattening(t, name);
    forall fuel: nat ensures Expand(t, fuel, name, stack).None? {
      assert ExpandItems(t, fuel, items, stack).None?;
      if Expand(t, fuel, name, stack).Some? && Expand(t, fuel, name, stack).value.Done? {
        ExpandFlattens(t, fuel, name, stack);
      }
    }
  }

  lemma RestHangs(t: Table, items: seq<Item>, stack: seq<string>)
    requires ValidTable(t) && AllHang(t, stack) && items != [] && !Invalid(items[0])
    requires items[0].Include? ==> CleanFrom(t, items[0].name)
    requires ItemsNeverExpand(t, items, stack)
    ensures ItemsNeverExpand(t, items[1..], stack)
  {
    hide Expand, CleanFrom, AllHang, ValidTable;
    forall fuel: nat ensures ExpandItems(t, fuel, items[1..], stack).None? {
      assert ExpandItems(t, fuel, items, stack).None?;
      if items[0].Include? && ExpandItems(t, fuel, items[1..], stack).Some? {
        var f := CleanExpands(t, items[0].name, stack);
        ExpandMonotone(t, f, fuel, items[0].name, stack);
        ItemsMonotone(t, fuel, f, items[1..], stack);
        assert f + fuel == fuel + f;
        assert ExpandItems(t, f + fuel, items, stack).Some?;
      }
    }
  }

  lemma HangStep(t: Table, name: string, stack: seq<string>)
    requires ValidTable(t) && AllHang(t, stack) && NeverExpands(t, name, stack)
    ensures name !in stack && Leads(t, name).Some? && Actual(t, name).Some?
    ensures AllHang(t, stack + [Actual(t, name).value])
    ensures NeverExpands(t, Leads(t, name).value, stack + [Actual(t, name).value])
  {
    hide Actual, LastInvalid, Flattens, CleanFrom, ValidTable;
    assert Expand(t, 1, name, stack).None?;
    var key, items := Actual(t, name).value, Lookup(t, name).items;
    HasKey(t, name);
    if Flattens(t, name) {
      CleanIsFlattening(t, name);
      var fuel := CleanExpands(t, name, stack);
    }
    assert AllHang(t, stack + [key]);
    forall fuel: nat ensures ExpandItems(t, fuel, items, stack + [key]).None? {
      assert Expand(t, fuel + 1, name, stack).None?;
    }
    ItemsHang(t, items, stack + [key]);
  }

  /** The keys of the first `n` groups of the trail. */
  ghost function Opened(t: Table, name: string, n: nat): (keys: seq<string>)
    ensures |keys| == n
  {
    if n == 0 then [] else Opened(t, name, n - 1) + [KeyAt(t, name, n - 1)]
  }

  /** The written name stands in where it designates no group. */
  ghost function KeyAt(t: Table, name: string, n: nat): string {
    var here := if Trail(t, name, n).Some? then Trail(t, name, n).value else name;
    if Actual(t, here).Some? then Actual(t, here).value else here
  }

  lemma {:induction false} OpenedAt(t: Table, name: string, n: nat, k: nat)
    requires k < n && Trail(t, name, n).Some?
    ensures Trail(t, name, k + 1).Some? && Opened(t, name, n)[k] == KeyAt(t, name, k)
  {
    hide Actual, Leads;
    TrailStarts(t, name, n, n - 1);
    if k < n - 1 { OpenedAt(t, name, n - 1, k); }
  }

  lemma {:induction false} HangsAlong(t: Table, name: string, n: nat)
    requires ValidTable(t) && NeverExpands(t, name, [])
    ensures Trail(t, name, n).Some? && AllHang(t, Opened(t, name, n))
    ensures NeverExpands(t, Trail(t, name, n).value, Opened(t, name, n))
  {
    hide Leads, NeverExpands, AllHang, Actual, ValidTable;
    if n == 0 {
      assert AllHang(t, []) by { NothingHangs(t); }
    } else {
      HangsAlong(t, name, n - 1);
      HangStep(t, Trail(t, name, n - 1).value, Opened(t, name, n - 1));
    }
  }

  lemma NothingHangs(t: Table)
    ensures AllHang(t, [])
  {
  }

  lemma {:induction false} NeverOpen(t: Table, name: string, n: nat)
    requires ValidTable(t) && NeverExpands(t, name, [])
    ensures Trail(t, name, n).Some? && Trail(t, name, n).value !in Opened(t, name, n)
  {
    hide Leads, NeverExpands, AllHang, Actual, ValidTable;
    HangsAlong(t, name, n);
    HangStep(t, Trail(t, name, n).value, Opened(t, name, n));
  }

  lemma NeverHaltsDiverges(t: Table, name: string)
    requires ValidTable(t) && NeverExpands(t, name, [])
    ensures DivergesFrom(t, name)
  {
    hide NeverExpands, ValidTable, Leads, LastInvalid;
    var n := |t.groups| + 1;
    HangsAlong(t, name, n);
    var keys := Opened(t, name, n);
    var i, j := Pigeonhole(keys, t.groups.Keys);
    OpenedAt(t, name, n, i);
    OpenedAt(t, name, n, j);
    TrailKey(t, name, i);
    TrailKey(t, name, j);
    forall k | i < k <= j ensures Trail(t, name, k).Some? && Inexact(t, Trail(t, name, k).value) {
      TrailStarts(t, name, n, k);
      SilentMeansInexact(t, name, i, j, k);
    }
    assert Closes(t, name, i, j);
  }

  lemma TrailKey(t: Table, name: string, k: nat)
    requires ValidTable(t) && Trail(t, name, k + 1).Some?
    ensures Trail(t, name, k).Some? && Actual(t, Trail(t, name, k).value) == Some(KeyAt(t, name, k))
    ensures KeyAt(t, name, k) in t.groups && !Flattens(t, KeyAt(t, name, k))
  {
    hide Actual, ValidTable, Leads, Flattens;
    TrailStarts(t, name, k + 1, k);
    LeadsHangs(t, Trail(t, name, k).value);
  }

  lemma {:induction false} SilentMeansInexact(t: Table, name: string, i: nat, j: nat, k: nat)
    requires ValidTable(t) && NeverExpands(t, name, [])
    requires Trail(t, name, i).Some? && Trail(t, name, j).Some? && Trail(t, name, k).Some? && i < k <= j
    requires Actual(t, Trail(t, name, i).value) == Actual(t, Trail(t, name, j).value)
    ensures Inexact(t, Trail(t, name, k).value)
  {
    hide NeverExpands, ValidTable, Leads, Trail, Opened, LastCanonical;
    var later := k + (j - i);
    Periodic(t, name, i, j, k - i - 1);
    NeverOpen(t, name, later);
    OpenedAt(t, name, later, k);
  }

  // ---------- A trail that closes silently never ends ----------

  /** No name on such a trail is the key of a group opened before it. */
  lemma {:induction false} Unnoticed(t: Table, name: string, i: nat, j: nat, k: nat, l: nat)
    requires Closes(t, name, i, j) && k < l && Trail(t, name, l).Some? && Trail(t, name, k).Some?
    ensures Actual(t, Trail(t, name, k).value) == Some(Trail(t, name, l).value) ==> Trail(t, name, l).value !in t.groups
  {
    hide Trail, Closes;
    var there := Trail(t, name, l).value;
    if Actual(t, Trail(t, name, k).value) == Some(there) && there in t.groups {
      assert Actual(t, there) == Some(there);
      var n := Recurs(t, name, k, l, i);
      InexactBeyond(t, name, i, j, n);
    }
  }

  lemma {:induction false} TrailGoesOn(t: Table, name: string, i: nat, j: nat, n: nat)
    requires Closes(t, name, i, j)
    ensures Trail(t, name, n).Some?
  {
    hide Trail;
    if n > i {
      InexactBeyond(t, name, i, j, n);
    } else {
      TrailStarts(t, name, j, n);
    }
  }

  lemma {:induction false} UncleanBlocks(t: Table, items: seq<Item>, stack: seq<string>, fuel: nat)
    requires ValidTable(t) && AllHang(t, stack) && FirstUnclean(t, items).Some? && LastInvalid(items).None?
    requires Expand(t, fuel, FirstUnclean(t, items).value, stack).None?
    ensures ExpandItems(t, fuel, items, stack).None?
  {
    hide Expand, CleanFrom, AllHang, ValidTable;
    NoneInvalid(items);
    NoneInvalid(items[1..]);
    if !(items[0].Include? && !CleanFrom(t, items[0].name)) {
      UncleanBlocks(t, items[1..], stack, fuel);
      if items[0].Include? && Expand(t, fuel, items[0].name, stack).Some? {
        var f := CleanExpands(t, items[0].name, stack);
        ExpandsAlike(t, items[0].name, stack, f, fuel);
      }
    }
  }

  lemma {:induction false} TrailNeverExpands(t: Table, name: string, i: nat, j: nat, n: nat, fuel: nat)
    requires ValidTable(t) && Closes(t, name, i, j)
    ensures Trail(t, name, n).Some? && Expand(t, fuel, Trail(t, name, n).value, Opened(t, name, n)).None?
    decreases fuel
  {
    hide Trail, Closes, ValidTable, AllHang, Actual, LastInvalid, ExpandItems;
    TrailGoesOn(t, name, i, j, n);
    TrailGoesOn(t, name, i, j, n + 1);
    if fuel > 0 {
      TrailNeverExpands(t, name, i, j, n + 1, fuel - 1);
      NotOpened(t, name, i, j, n);
      TrailKey(t, name, n);
      OpenedHang(t, name, n + 1);
      TrailLeads(t, name, n);
      var here, stack := Trail(t, name, n).value, Opened(t, name, n);
      UncleanBlocks(t, Lookup(t, here).items, Opened(t, name, n + 1), fuel - 1);
      assert Opened(t, name, n + 1) == stack + [KeyAt(t, name, n)];
    }
  }

  lemma TrailLeads(t: Table, name: string, n: nat)
    requires Trail(t, name, n + 1).Some?
    ensures Trail(t, name, n).Some? && Leads(t, Trail(t, name, n).value) == Trail(t, name, n + 1)
  {
  }

  lemma {:induction false} NotOpened(t: Table, name: string, i: nat, j: nat, n: nat)
    requires ValidTable(t) && Closes(t, name, i, j) && Trail(t, name, n).Some?
    ensures Trail(t, name, n).value !in Opened(t, name, n)
  {
    hide Trail, Closes, ValidTable, Actual;
    forall k | 0 <= k < n ensures Opened(t, name, n)[k] != Trail(t, name, n).value {
      OpenedAt(t, name, n, k);
      TrailKey(t, name, k);
      Unnoticed(t, name, i, j, k, n);
    }
  }

  lemma {:induction false} OpenedHang(t: Table, name: string, n: nat)
    requires ValidTable(t) && Trail(t, name, n).Some?
    ensures AllHang(t, Opened(t, name, n))
  {
    hide Trail, ValidTable, Flattens;
    forall k | 0 <= k < n ensures Opened(t, name, n)[k] in t.groups && !Flattens(t, Opened(t, name, n)[k]) {
      OpenedAt(t, name, n, k);
      TrailKey(t, name, k);
    }
  }

  // ---------- Exactly ----------

  /** On every table, the loop ends exactly when the trail from the requested group does not close silently. */
  lemma HaltsExactly(t: Table, name: string)
    requires ValidTable(t)
    ensures Halts(t, name, []) <==> !DivergesFrom(t, name)
  {
    hide Expand, ValidTable, Closes, Halts;
    HaltsByExpansion(t, name, []);
    if NeverExpands(t, name, []) { NeverHaltsDiverges(t, name); }
    if DivergesFrom(t, name) {
      var i: nat, j: nat :| j <= |t.groups| && Closes(t, name, i, j);
      forall fuel: nat ensures Expand(t, fuel, name, []).None? {
        TrailNeverExpands(t, name, i, j, 0, fuel);
      }
    }
  }

  /** `docs` reaches itself under another capitalization, behind a requirement; `a` does not reach it. */
  const SPHINX := Table(
    ["docs", "a"],
    map["docs" := Items([Requirement("sphinx"), Include("Docs")]), "a" := Items([])])

  lemma SelfIncludeNeverHalts()
    ensures ValidTable(SPHINX) && !Halts(SPHINX, "docs", []) && Halts(SPHINX, "a", [])
  {
    SphinxNames();
    SelfIncludeLeads();
    SameGroup(SPHINX, "docs", "Docs");
    assert Trail(SPHINX, "docs", 0) == Some("docs") && Trail(SPHINX, "docs", 1) == Some("Docs");
    assert Closes(SPHINX, "docs", 0, 1);
    HaltsExactly(SPHINX, "docs");
    assert Leads(SPHINX, "a") == None;
    if DivergesFrom(SPHINX, "a") {
      var i: nat, j: nat :| j <= |SPHINX.groups| && Closes(SPHINX, "a", i, j);
      TrailStarts(SPHINX, "a", j, 0);
    }
    HaltsExactly(SPHINX, "a");
  }

  lemma SphinxNames()
    ensures Actual(SPHINX, "docs") == Actual(SPHINX, "Docs") == Some("docs")
    ensures Inexact(SPHINX, "Docs") && |SPHINX.groups| == 2 && ValidTable(SPHINX)
  {
    hide Names.Canonicalize;
    CanonicalDocs();
    assert "Docs"[0] == 'D' && "docs"[0] == 'd';
    assert SPHINX.names[..1] == ["docs"] && ["docs"][..0] == [];
    assert LastCanonical(["docs"], "docs") == Some("docs");
    assert SPHINX.groups.Keys == {"docs", "a"};
  }

  lemma SelfIncludeLeads()
    ensures Leads(SPHINX, "Docs") == Some("Docs")
  {
    SphinxNames();
    var items := [Requirement("sphinx"), Include("Docs")];
    assert Lookup(SPHINX, "Docs") == Items(items);
    NoneInvalid(items);
    assert items[1] == Include("Docs");
    assert Includes(SPHINX, "Docs", "Docs");
    assert IsPath(SPHINX, ["Docs", "Docs"]);
    assert !CleanPath(SPHINX, ["Docs", "Docs"]) by {
      assert ["Docs", "Docs"][0] == ["Docs", "Docs"][1];
    }
    assert !CleanFrom(SPHINX, "Docs");
    assert items[1..] == [Include("Docs")];
    assert FirstUnclean(SPHINX, [Include("Docs")]) == Some("Docs");
  }

  lemma CanonicalDocs()
    ensures Names.Canonicalize("Docs") == "docs" && Names.Canonicalize("docs") == "docs" && Names.Canonicalize("a") != "docs"
  {
    hide Names.Canonicalize;
    CanonicalIs("Docs", "docs");
    CanonicalIs("docs", "docs");
    CanonicalIs("a", "a");
  }

  /** A name with no separators is only lowered. */
  lemma CanonicalIs(name: string, lowered: string)
    requires Text.Lower(name) == lowered
    requires forall i :: 0 <= i < |name| ==> name[i] !in "-_."
    ensures Names.Canonicalize(name) == lowered
  {
    hide Names.Canonicalize;
    Names.FastPathAgrees(name);
    Names.CollapseFixed(name);
  }
}
