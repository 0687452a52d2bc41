/**
  What requirement texts ask for, from the text down to the versions of the chosen wheels.

  A text is a name, perhaps extras in brackets, perhaps an operator and a version, perhaps a marker
  after a semicolon. The results on plans are stated on these pieces and on the specifier clause they
  spell, so they do not rest on how the text is taken apart.
*/
module RequirementTexts {
  import opened Orders
  import opened Wrappers
  import opened Specifiers
  import opened FastVersions
  import opened Wheelhouse
  import opened WheelhousePlans
  import Text
  import Versions
  import VersionText

  // ---------- Pieces ----------

  predicate Free(s: string, marks: set<char>) {
    forall i :: 0 <= i < |s| ==> s[i] !in marks
  }

  const OPERATOR_MARKS := {'<', '>', '=', ';'}

  predicate IsName(s: string) {
    Free(s, OPERATOR_MARKS + {'['})
  }

  predicate IsExtras(s: string) {
    Free(s, OPERATOR_MARKS) && (s != "" ==> s[0] == '[')
  }

  predicate IsVersionText(s: string) {
    Free(s, OPERATOR_MARKS)
  }

  predicate IsMarker(s: string) {
    s != "" ==> s[0] == ';'
  }

  /** The operators the minimal resolver reads, by their texts. */
  predicate Spells(op: Operator, text: string) {
    (op, text) in {(Eq, "=="), (Ge, ">="), (Le, "<="), (Gt, ">"), (Lt, "<")}
  }

  // ---------- Cutting ----------

  lemma {:induction false} FoundAt(s: string, mark: string)
    requires mark != "" && Text.Find(s, mark).Some?
    ensures var at := Text.Find(s, mark).value;
      at + |mark| <= |s| && s[at] == mark[0] && (|mark| == 2 ==> s[at + 1] == mark[1])
  {
    var at := Text.Find(s, mark).value;
    var found := s[at..][..|mark|];
    assert found[0] == s[at] && (|mark| == 2 ==> found[1] == s[at + 1]);
  }

  /** A mark no character of the front begins with is found right after it. */
  lemma {:induction false} CutAt(front: string, mark: string, rest: string)
    requires mark != "" && mark[0] !in front
    ensures Text.Find(front + mark + rest, mark) == Some(|front|)
    ensures Before(front + mark + rest, mark) == front && After(front + mark + rest, mark) == rest
  {
    hide Text.Find;
    var s := front + mark + rest;
    assert s[|front|..][..|mark|] == mark;
    Text.FindFirst(s, mark, |front|);
    FoundAt(s, mark);
    assert forall i :: 0 <= i < |front| ==> s[i] == front[i];
  }

  lemma {:induction false} NotFound(s: string, mark: string)
    requires mark != "" && mark[0] !in s
    ensures Text.Find(s, mark).None? && Before(s, mark) == s
  {
    hide Text.Find;
    if Text.Find(s, mark).Some? {
      FoundAt(s, mark);
    }
  }

  /** A two-character mark that is nowhere in the text. */
  lemma {:induction false} PairNotFound(s: string, mark: string)
    requires |mark| == 2
    requires forall i :: 0 <= i < |s| - 1 ==> s[i] != mark[0] || s[i + 1] != mark[1]
    ensures Text.Find(s, mark).None?
  {
    hide Text.Find;
    if Text.Find(s, mark).Some? {
      FoundAt(s, mark);
    }
  }

  lemma MarkerCut(core: string, marker: string)
    requires ';' !in core && IsMarker(marker)
    ensures Before(core + marker, ";") == core
  {
    if marker == "" {
      assert core + marker == core;
      NotFound(core, ";");
    } else {
      CutAt(core, ";", marker[1..]);
      assert core + marker == core + ";" + marker[1..];
    }
  }

  lemma ExtrasCut(name: string, extras: string)
    requires '[' !in name && IsExtras(extras)
    ensures Before(name + extras, "[") == name
  {
    if extras == "" {
      assert name + extras == name;
      NotFound(name, "[");
    } else {
      CutAt(name, "[", extras[1..]);
      assert name + extras == name + "[" + extras[1..];
    }
  }

  lemma FreeAround(left: string, text: string, right: string)
    requires Free(left, OPERATOR_MARKS) && Free(right, OPERATOR_MARKS)
    ensures var s := left + text + right;
      && (forall i :: 0 <= i < |s| && s[i] in {'<', '>', '='} ==> |left| <= i < |left| + |text|)
      && (forall i :: 0 <= i < |text| ==> s[|left| + i] == text[i])
  {
    var s := left + text + right;
    assert forall i :: 0 <= i < |left| ==> s[i] == left[i];
    assert forall i :: |left| + |text| <= i < |s| ==> s[i] == right[i - |left| - |text|];
  }

  lemma PairIsText(left: string, text: string, right: string, pair: string, i: nat)
    requires Free(left, OPERATOR_MARKS) && Free(right, OPERATOR_MARKS) && |text| <= 2
    requires |pair| == 2 && pair[0] in {'<', '>', '='} && pair[1] == '='
    requires var s := left + text + right; i + 1 < |s| && s[i] == pair[0] && s[i + 1] == pair[1]
    ensures text == pair
  {
    hide Free;
    FreeAround(left, text, right);
    var s := left + text + right;
    assert s[|left| + 0] == text[0] && s[|left| + 1] == text[1];
    assert text == [text[0], text[1]] && pair == [pair[0], pair[1]];
  }

  /** In a text with one operator no other pair of operator characters is found. */
  lemma {:induction false} OtherPair(left: string, text: string, right: string, pair: string)
    requires Free(left, OPERATOR_MARKS) && Free(right, OPERATOR_MARKS)
    requires |text| <= 2 && |pair| == 2 && pair[0] in {'<', '>', '='} && pair[1] == '=' && text != pair
    ensures Text.Find(left + text + right, pair).None?
  {
    hide Text.Find, Free;
    var s := left + text + right;
    forall i | 0 <= i < |s| - 1 ensures s[i] != pair[0] || s[i + 1] != pair[1] {
      if s[i] == pair[0] && s[i + 1] == pair[1] { PairIsText(left, text, right, pair, i); }
    }
    PairNotFound(s, pair);
  }

  /** In a text with one operator that operator is recognised. */
  lemma OperatorFound(left: string, op: Operator, text: string, right: string)
    requires Spells(op, text) && Free(left, OPERATOR_MARKS) && Free(right, OPERATOR_MARKS)
    ensures OperatorIn(left + text + right) == Some(op) && OperatorText(op) == text
  {
    hide Text.Find, Free;
    var s := left + text + right;
    FreeAround(left, text, right);
    NotInLeft(left, text);
    CutAt(left, text, right);
    if op != Eq { OtherPair(left, text, right, "=="); }
    if op != Ge { OtherPair(left, text, right, ">="); }
    if op != Le { OtherPair(left, text, right, "<="); }
    if op == Lt {
      assert s[|left| + 0] == '<';
      NotFound(s, ">");
    }
  }

  lemma NotInLeft(left: string, text: string)
    requires Free(left, OPERATOR_MARKS) && text != "" && text[0] in {'<', '>', '='}
    ensures text[0] !in left
  {
  }

  lemma NoOperator(s: string)
    requires Free(s, OPERATOR_MARKS)
    ensures OperatorIn(s) == None
  {
    NotFound(s, "==");
    NotFound(s, ">=");
    NotFound(s, "<=");
    NotFound(s, ">");
    NotFound(s, "<");
  }

  // ---------- White space ----------

  lemma FreePart(a: string, b: string, marks: set<char>)
    requires Free(a + b, marks)
    ensures Free(a, marks) && Free(b, marks)
  {
    assert forall i :: 0 <= i < |a| ==> a[i] == (a + b)[i];
    assert forall i :: 0 <= i < |b| ==> b[i] == (a + b)[|a| + i];
  }

  /** Extras begin with a bracket, so white space is stripped from the name alone. */
  lemma {:induction false} LStripName(name: string, extras: string)
    requires IsExtras(extras)
    ensures extras != "" ==> Text.LStrip(name + extras) == Text.LStrip(name) + extras
    ensures Text.LStrip(name + "") == Text.LStrip(name)
  {
    var before := Text.LStripParts(name);
    assert name + "" == name;
    if extras != "" {
      Text.LStripExact(before, Text.LStrip(name) + extras);
      assert name + extras == before + (Text.LStrip(name) + extras);
    }
  }

  lemma {:induction false} StripLeft(name: string)
    ensures Text.Strip(Text.LStrip(name)) == Text.Strip(name)
  {
    hide Text.Strip;
    var before := Text.LStripParts(name);
    Text.StripPadded(before, Text.LStrip(name), "");
    assert before + Text.LStrip(name) + "" == name;
  }

  lemma {:induction false} StripRight(version: string)
    ensures Text.Strip(Text.RStrip(version)) == Text.Strip(version)
  {
    hide Text.Strip;
    var after := Text.RStripParts(version);
    Text.StripPadded("", Text.RStrip(version), after);
    assert "" + Text.RStrip(version) + after == version;
  }

  lemma Enclosed(left: string, text: string, right: string)
    requires text != "" && text[0] !in Text.SPACES && text[|text| - 1] !in Text.SPACES
    requires left != "" ==> left[0] !in Text.SPACES
    requires right != "" ==> right[|right| - 1] !in Text.SPACES
    ensures Text.Trimmed(left + text + right)
  {
    var s := left + text + right;
    assert s[0] == if left != "" then left[0] else text[0];
    assert s[|s| - 1] == if right != "" then right[|right| - 1] else text[|text| - 1];
  }

  /** A mark in the middle is not white space, so the ends are stripped apart. */
  lemma {:induction false} StripMiddle(left: string, text: string, right: string)
    requires text != "" && text[0] !in Text.SPACES && text[|text| - 1] !in Text.SPACES
    ensures Text.Strip(left + text + right) == Text.LStrip(left) + text + Text.RStrip(right)
  {
    hide Text.Strip, Text.LStrip, Text.RStrip, Text.Trimmed;
    var before := Text.LStripParts(left);
    var after := Text.RStripParts(right);
    var core := Text.LStrip(left) + text + Text.RStrip(right);
    Enclosed(Text.LStrip(left), text, Text.RStrip(right));
    Text.StripExact(before, core, after);
    assert left + text + right == before + core + after;
  }

  lemma StripTwice(s: string)
    ensures Text.Strip(Text.Strip(s)) == Text.Strip(s)
  {
    hide Text.Strip;
    var before, after := Text.StripParts(s);
    Text.StripPadded(before, Text.Strip(s), after);
  }

  // ---------- Reading ----------

  function Asked(name: string, op: Operator, version: string): Option<Requirement> {
    match VersionKey(Text.Strip(version))
    case None => None
    case Some(key) => Some(Requirement(NormalizeName(Text.Strip(name)), Some(Constraint(op, key))))
  }

  /**
    Name, operator and version are read as written, whatever extras, marker and white space surround
    them; a version that is not a dotted decimal makes the fast path decline.
  */
  lemma ConstraintText(name: string, extras: string, op: Operator, text: string, version: string, marker: string)
    requires IsName(name) && IsExtras(extras) && Spells(op, text) && IsVersionText(version) && IsMarker(marker)
    ensures ParseRequirement(name + extras + text + version + marker) == Asked(name, op, version)
  {
    hide Text.Find, Text.Strip, Text.LStrip, Text.RStrip, Before, After, OperatorIn, OperatorText, VersionKey, NormalizeName;
    var left, core := name + extras, name + extras + text + version;
    MarkerCut(core, marker) by { FreeCore(left, text, version); }
    StripMiddle(left, text, version);
    CoreText(name, extras, op, text, version);
  }

  /** The text without its marker and the white space around it. */
  lemma {:induction false} CoreText(name: string, extras: string, op: Operator, text: string, version: string)
    requires IsName(name) && IsExtras(extras) && Spells(op, text) && IsVersionText(version)
    ensures var value := Text.LStrip(name + extras) + text + Text.RStrip(version);
      && value != "" && OperatorIn(value) == Some(op) && OperatorText(op) == text
      && Text.Strip(After(value, text)) == Text.Strip(version)
      && ProjectName(Before(value, text)) == NormalizeName(Text.Strip(name))
  {
    hide Text.Find, Text.Strip, Text.LStrip, Text.RStrip, Before, After, OperatorIn, OperatorText, NormalizeName;
    var x, y := Text.LStrip(name + extras), Text.RStrip(version);
    EndsFree(name, extras, version);
    NotInLeft(x, text);
    OperatorFound(x, op, text, y);
    CutAt(x, text, y);
    StripRight(version);
    ProjectOf(name, extras);
  }

  lemma {:induction false} EndsFree(name: string, extras: string, version: string)
    requires IsName(name) && IsExtras(extras) && IsVersionText(version)
    ensures Free(Text.LStrip(name + extras), OPERATOR_MARKS) && Free(Text.RStrip(version), OPERATOR_MARKS)
  {
    hide Text.LStrip, Text.RStrip;
    var before := Text.LStripParts(name + extras);
    var after := Text.RStripParts(version);
    FreePair(name, extras);
    FreePart(before, Text.LStrip(name + extras), OPERATOR_MARKS);
    FreePart(Text.RStrip(version), after, OPERATOR_MARKS);
  }

  lemma {:induction false} ProjectOf(name: string, extras: string)
    requires IsName(name) && IsExtras(extras)
    ensures ProjectName(Text.LStrip(name + extras)) == NormalizeName(Text.Strip(name))
  {
    hide Text.Find, Text.Strip, Text.LStrip, Before, NormalizeName;
    LStripName(name, extras);
    NameLeft(name);
    ExtrasCut(Text.LStrip(name), extras);
    StripLeft(name);
    assert extras == "" ==> name + extras == name && Text.LStrip(name) + extras == Text.LStrip(name);
  }

  lemma {:induction false} NameLeft(name: string)
    requires IsName(name)
    ensures '[' !in Text.LStrip(name)
  {
    var before := Text.LStripParts(name);
    FreePart(before, Text.LStrip(name), {'['});
  }

  lemma FreePair(name: string, extras: string)
    requires IsName(name) && IsExtras(extras)
    ensures Free(name + extras, OPERATOR_MARKS)
  {
  }

  lemma FreeCore(left: string, text: string, version: string)
    requires ';' !in left && ';' !in text && ';' !in version
    ensures ';' !in left + text + version
  {
  }

  /** A text without an operator asks for the name alone; a blank one declines. */
  lemma BareText(name: string, extras: string, marker: string)
    requires IsName(name) && IsExtras(extras) && IsMarker(marker)
    ensures ParseRequirement(name + extras + marker) ==
      if Text.Strip(name + extras) == "" then None else Some(Requirement(NormalizeName(Text.Strip(name)), None))
  {
    hide Text.Find, Text.Strip, Text.LStrip, Text.RStrip, Before, OperatorIn, NormalizeName;
    var core := name + extras;
    FreePair(name, extras);
    MarkerCut(core, marker);
    var before, after := Text.StripParts(core);
    FreePart(before, Text.Strip(core) + after, OPERATOR_MARKS) by { assert before + (Text.Strip(core) + after) == core; }
    FreePart(Text.Strip(core), after, OPERATOR_MARKS);
    NoOperator(Text.Strip(core));
    if extras == "" {
      BareName(name);
    } else {
      BareExtras(name, extras);
    }
  }

  lemma BareName(name: string)
    requires IsName(name)
    ensures ProjectName(Text.Strip(name + "")) == NormalizeName(Text.Strip(name))
  {
    hide Text.Find, Text.Strip, Before, NormalizeName;
    assert name + "" == name;
    var before, after := Text.StripParts(name);
    FreePart(before, Text.Strip(name) + after, {'['}) by { assert before + (Text.Strip(name) + after) == name; }
    FreePart(Text.Strip(name), after, {'['});
    NotFound(Text.Strip(name), "[");
    StripTwice(name);
  }

  lemma BareExtras(name: string, extras: string)
    requires IsName(name) && IsExtras(extras) && extras != ""
    ensures ProjectName(Text.Strip(name + extras)) == NormalizeName(Text.Strip(name))
  {
    hide Text.Find, Text.Strip, Text.LStrip, Text.RStrip, Before, NormalizeName;
    assert name + extras == name + "[" + extras[1..];
    StripMiddle(name, "[", extras[1..]);
    NameLeft(name);
    CutAt(Text.LStrip(name), "[", Text.RStrip(extras[1..]));
    StripLeft(name);
  }

  // ---------- Names ----------

  predicate SameLetter(c: char, d: char) {
    (c in {'-', '_', '.'} && d in {'-', '_', '.'}) || Text.LowerChar(c) == Text.LowerChar(d)
  }

  /** Two names are one project exactly if they differ in letter case and kind of separator only. */
  lemma SameProject(a: string, b: string)
    ensures NormalizeName(a) == NormalizeName(b) <==>
      |a| == |b| && forall i :: 0 <= i < |a| ==> SameLetter(a[i], b[i])
    ensures NormalizeName(NormalizeName(a)) == NormalizeName(a)
  {
    if NormalizeName(a) == NormalizeName(b) {
      forall i | 0 <= i < |a| ensures SameLetter(a[i], b[i]) {
        assert NormalizeName(a)[i] == NormalizeName(b)[i];
      }
    }
  }

  // ---------- Plans ----------

  /** The wheel's version is admitted by the clause of this operator and version. */
  predicate Admits(op: Operator, version: string, w: Wheel) {
    && MakeSpecifier(op, version).Some? && ValidSpecifier(MakeSpecifier(op, version).value)
    && VersionText.ParseVersion(w.version).Some?
    && Contains(MakeSpecifier(op, version).value, VersionText.ParseVersion(w.version).value)
  }

  lemma SatisfiedAdmits(name: string, op: Operator, version: string, w: Wheel)
    requires FastOperator(op) && VersionKey(version).Some? && VersionKey(w.version).Some?
    ensures Satisfied(Requirement(name, Some(Constraint(op, VersionKey(version).value))), w) <==> Admits(op, version, w)
  {
    hide VersionKey, KeySatisfies, MakeSpecifier, Contains, VersionText.ParseVersion;
    FastAgrees(op, w.version, version);
  }

  /** A plan meets a requirement exactly if its wheel of that name has a version the clause admits. */
  lemma TextIsMet(
      plan: State, name: string, extras: string, op: Operator, text: string, version: string, marker: string)
    requires IsName(name) && IsExtras(extras) && Spells(op, text) && IsVersionText(version) && IsMarker(marker)
    ensures var project := NormalizeName(Text.Strip(name));
      ConstraintMet(plan, name + extras + text + version + marker) <==>
        && VersionKey(Text.Strip(version)).Some?
        && project in plan.chosen && VersionKey(plan.chosen[project].version).Some?
        && Admits(op, Text.Strip(version), plan.chosen[project])
  {
    hide ParseRequirement, VersionKey, KeySatisfies, Admits, NormalizeName, Text.Strip;
    ConstraintText(name, extras, op, text, version, marker);
    var project := NormalizeName(Text.Strip(name));
    if VersionKey(Text.Strip(version)).Some? && project in plan.chosen && VersionKey(plan.chosen[project].version).Some? {
      SatisfiedAdmits(project, op, Text.Strip(version), plan.chosen[project]);
    }
  }

  lemma BareTextIsMet(plan: State, name: string, extras: string, marker: string)
    requires IsName(name) && IsExtras(extras) && IsMarker(marker)
    ensures ConstraintMet(plan, name + extras + marker) <==>
      Text.Strip(name + extras) != "" && NormalizeName(Text.Strip(name)) in plan.chosen
  {
    hide ParseRequirement, NormalizeName, Text.Strip;
    BareText(name, extras, marker);
  }

  /** The wheel a successful plan has for a root is one the root's clause admits. */
  lemma RootIsAdmitted(
      house: House, roots: seq<string>, name: string, extras: string, op: Operator, text: string, version: string,
      marker: string)
    requires IsName(name) && IsExtras(extras) && Spells(op, text) && IsVersionText(version) && IsMarker(marker)
    requires name + extras + text + version + marker in roots && Resolve(house, roots).Some?
    ensures var chosen, project := Resolve(house, roots).value.chosen, NormalizeName(Text.Strip(name));
      project in chosen && Admits(op, Text.Strip(version), chosen[project])
  {
    hide Resolve, Admits, NormalizeName, Text.Strip, VersionKey, ConstraintMet;
    PlanMeetsRoots(house, roots);
    TextIsMet(Resolve(house, roots).value, name, extras, op, text, version, marker);
  }

  lemma NotLowerIsOrder(a: Wheel, b: Wheel)
    requires VersionKey(a.version).Some? && VersionKey(b.version).Some?
    ensures VersionText.ParseVersion(a.version).Some? && VersionText.ParseVersion(b.version).Some?
    ensures NotLower(a, b) <==>
      Versions.Leq(VersionText.ParseVersion(b.version).value.key, VersionText.ParseVersion(a.version).value.key)
  {
    hide VersionKey, VersionText.ParseVersion;
    DecimalParses(a.version);
    DecimalParses(b.version);
    IntsTotalOrder();
    assert CmpInts(SortKey(b), SortKey(a)) == CmpInts(SortKey(a), SortKey(b)).Flip();
  }

  /**
    Of the files of the project, the plan has one whose version the clause that first reached the
    project admits, and no admitted one is newer.
  */
  lemma ChosenIsNewest(
      files: seq<Wheel>, house: House, roots: seq<string>, project: string,
      name: string, extras: string, op: Operator, text: string, version: string, marker: string)
    requires IsHouse(house, files) && forall w :: w in files ==> VersionKey(w.version).Some?
    requires Resolve(house, roots).Some? && project in Resolve(house, roots).value.chosen
    requires IsName(name) && IsExtras(extras) && Spells(op, text) && IsVersionText(version) && IsMarker(marker)
    requires project in Resolve(house, roots).value.reason
    requires Resolve(house, roots).value.reason[project] == name + extras + text + version + marker
    ensures var best := Resolve(house, roots).value.chosen[project];
      && project == NormalizeName(Text.Strip(name))
      && best in files && NormalizeName(best.name) == project && Admits(op, Text.Strip(version), best)
      && VersionText.ParseVersion(best.version).Some?
      && forall w :: w in files && NormalizeName(w.name) == project && Admits(op, Text.Strip(version), w) ==>
           Versions.Leq(VersionText.ParseVersion(w.version).value.key, VersionText.ParseVersion(best.version).value.key)
  {
    hide Resolve, Admits, NormalizeName, Text.Strip, VersionKey, ParseRequirement, Satisfied, NotLower, IsHouse, Versions.Leq;
    hide VersionText.ParseVersion;
    var clause := Text.Strip(version);
    PlanIsHighest(files, house, roots, project);
    ConstraintText(name, extras, op, text, version, marker);
    var best := Resolve(house, roots).value.chosen[project];
    SatisfiedAdmits(project, op, clause, best);
    NotLowerIsOrder(best, best);
    forall w | w in files && NormalizeName(w.name) == project && Admits(op, clause, w)
      ensures VersionText.ParseVersion(w.version).Some?
      ensures Versions.Leq(VersionText.ParseVersion(w.version).value.key, VersionText.ParseVersion(best.version).value.key)
    {
      SatisfiedAdmits(project, op, clause, w);
      NotLowerIsOrder(best, w);
    }
  }

  /** A project first reached by its name alone is there in its newest file. */
  lemma BareIsNewest(
      files: seq<Wheel>, house: House, roots: seq<string>, project: string, name: string, extras: string, marker: string)
    requires IsHouse(house, files) && forall w :: w in files ==> VersionKey(w.version).Some?
    requires Resolve(house, roots).Some? && project in Resolve(house, roots).value.chosen
    requires IsName(name) && IsExtras(extras) && IsMarker(marker)
    requires project in Resolve(house, roots).value.reason
    requires Resolve(house, roots).value.reason[project] == name + extras + marker
    ensures var best := Resolve(house, roots).value.chosen[project];
      && project == NormalizeName(Text.Strip(name))
      && best in files && NormalizeName(best.name) == project && VersionText.ParseVersion(best.version).Some?
      && forall w :: w in files && NormalizeName(w.name) == project ==>
           && VersionText.ParseVersion(w.version).Some?
           && Versions.Leq(VersionText.ParseVersion(w.version).value.key, VersionText.ParseVersion(best.version).value.key)
  {
    hide Resolve, NormalizeName, Text.Strip, VersionKey, ParseRequirement, NotLower, IsHouse, Versions.Leq;
    hide VersionText.ParseVersion;
    PlanIsHighest(files, house, roots, project);
    BareText(name, extras, marker);
    var best := Resolve(house, roots).value.chosen[project];
    NotLowerIsOrder(best, best);
    forall w | w in files && NormalizeName(w.name) == project
      ensures VersionText.ParseVersion(w.version).Some?
      ensures Versions.Leq(VersionText.ParseVersion(w.version).value.key, VersionText.ParseVersion(best.version).value.key)
    {
      NotLowerIsOrder(best, w);
    }
  }

  // ---------- Success ----------

  /** The newest file of the project meets the requirement and can be installed. */
  ghost predicate NewestMeets(house: House, raw: string) {
    && ParseRequirement(raw).Some?
    && var r := ParseRequirement(raw).value;
       r.name in house && house[r.name] != [] && Satisfied(r, house[r.name][0]) && Usable(house[r.name][0])
  }

  /** The newest files need nothing the newest files do not meet. */
  ghost predicate Current(house: House) {
    forall name, raw | name in house && house[name] != [] && raw in Deps(house[name][0]) :: NewestMeets(house, raw)
  }

  ghost predicate OnlyNewest(house: House, st: State) {
    forall name | name in st.chosen :: name in house && house[name] != [] && st.chosen[name] == house[name][0]
  }

  lemma {:induction false} CurrentAdd(house: House, raw: string, st: State)
    requires Current(house) && NewestMeets(house, raw) && OnlyNewest(house, st)
    ensures Add(house, raw, st).Some? && OnlyNewest(house, Add(house, raw, st).value)
    decreases |house.Keys - st.visiting|, 0
  {
    hide ParseRequirement, Satisfied, AddAll;
    var r := ParseRequirement(raw).value;
    if r.name !in st.chosen && r.name !in st.visiting {
      var w := house[r.name][0];
      assert FirstSatisfying(r, house[r.name]) == Some(w);
      Visit(house, r.name, st);
      CurrentAddAll(house, w.metadata.value.dependencies, st.(visiting := st.visiting + {r.name}));
    }
  }

  lemma {:induction false} CurrentAddAll(house: House, raws: seq<string>, st: State)
    requires Current(house) && OnlyNewest(house, st) && forall raw :: raw in raws ==> NewestMeets(house, raw)
    ensures AddAll(house, raws, st).Some? && OnlyNewest(house, AddAll(house, raws, st).value)
    decreases |house.Keys - st.visiting|, |raws|
  {
    hide Current, OnlyNewest, NewestMeets, Add;
    if raws != [] {
      CurrentAdd(house, raws[0], st);
      CurrentAddAll(house, raws[1..], Add(house, raws[0], st).value);
    }
  }

  /** Where the newest files fit together the resolver succeeds, and chooses them. */
  lemma CurrentResolves(house: House, roots: seq<string>)
    requires Current(house) && forall raw :: raw in roots ==> NewestMeets(house, raw)
    ensures Resolve(house, roots).Some? && OnlyNewest(house, Resolve(house, roots).value)
  {
    hide AddAll, Current, NewestMeets;
    CurrentAddAll(house, roots, INITIAL);
  }
}
