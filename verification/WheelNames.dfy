/**
  The checks on member names, which the installer makes on text and `RecordInstall` on components.

  A name is split at its slashes. Each check on the components is shown to be the check on the text.
*/
module WheelNames {
  import opened Wrappers
  import opened RecordInstall
  import Orders
  import Text

  function Components(name: string): Path {
    Text.Split({'/'}, name)
  }

  function Joined(path: Path): string
    requires path != []
  {
    Text.Join('/', path)
  }

  predicate NoSlash(s: string) {
    '/' !in s
  }

  // ---------- The checks as the installer makes them ----------

  predicate Has(s: string, part: string) {
    Text.Find(s, part).Some?
  }

  /** `is_safe_member`. */
  predicate SafeText(name: string) {
    && name != "" && '\\' !in name
    && name !in {"..", ".data"} && !("/" <= name) && !("../" <= name) && !(".data/" <= name)
    && !Has(name, "/../") && !EndsWith(name, "/..")
  }

  /** `name.split("/", 1)[0]`. */
  function TopLevel(name: string): string {
    var at := Text.Find(name, "/");
    if at.Some? then name[..at.value] else name
  }

  predicate InstallableText(name: string) {
    SafeText(name) && !EndsWith(TopLevel(name), ".data") && !EndsWith(name, "/entry_points.txt")
  }

  // ---------- Splitting and joining at slashes ----------

  lemma SplitFirst(c: char, s: string)
    ensures Components([c] + s) ==
      if c == '/' then [""] + Components(s) else [[c] + Components(s)[0]] + Components(s)[1..]
  {
    assert ([c] + s)[1..] == s;
  }

  lemma {:induction false} SplitAt(a: string, b: string)
    ensures Components(a + "/" + b) == Components(a) + Components(b)
  {
    hide Components;
    if a == "" {
      assert a + "/" + b == ['/'] + b;
      SplitFirst('/', b);
      SplitNone("");
    } else {
      var c, rest := a[0], a[1..];
      assert a + "/" + b == [c] + (rest + "/" + b) && a == [c] + rest;
      SplitAt(rest, b);
      SplitFirst(c, rest + "/" + b);
      SplitFirst(c, rest);
      SplitSome(rest);
      Prepended(c, Components(rest), Components(b));
    }
  }

  lemma Prepended(c: char, path: Path, more: Path)
    requires path != []
    ensures [[c] + (path + more)[0]] + (path + more)[1..] == [[c] + path[0]] + path[1..] + more
    ensures [""] + (path + more) == [""] + path + more
  {
    assert (path + more)[1..] == path[1..] + more;
  }

  lemma SplitSome(s: string)
    ensures Components(s) != []
  {
  }

  lemma {:induction false} SplitNone(s: string)
    requires NoSlash(s)
    ensures Components(s) == [s]
  {
    Text.SplitPrefix({'/'}, s, "");
    assert s + "" == s;
  }

  lemma SplitJoined(name: string)
    ensures Joined(Components(name)) == name
    ensures forall i :: 0 <= i < |Components(name)| ==> NoSlash(Components(name)[i])
  {
    Text.JoinSplit('/', name);
  }

  lemma {:induction false} JoinAt(a: Path, b: Path)
    requires a != [] && b != []
    ensures Joined(a + b) == Joined(a) + "/" + Joined(b)
  {
    if |a| == 1 {
      assert (a + b)[1..] == b;
    } else {
      assert (a + b)[1..] == a[1..] + b;
      JoinAt(a[1..], b);
      assert a[0] + ['/'] + (Joined(a[1..]) + "/" + Joined(b)) == (a[0] + ['/'] + Joined(a[1..])) + "/" + Joined(b);
    }
  }

  /** The text around the component at `i`. */
  lemma Around(name: string, i: nat) returns (before: string, after: string)
    requires i < |Components(name)|
    ensures var x := Components(name)[i];
      && name == before + x + after
      && (i == 0 <==> before == "") && (i > 0 ==> EndsWith(before, "/"))
      && (i == |Components(name)| - 1 <==> after == "") && (after != "" ==> after[0] == '/')
  {
    hide Components, Joined;
    var path := Components(name);
    SplitJoined(name);
    after := AfterPart(path, i);
    before := BeforePart(path, i);
    assert before + (path[i] + after) == before + path[i] + after;
  }

  lemma AfterPart(path: Path, i: nat) returns (after: string)
    requires i < |path|
    ensures Joined(path[i..]) == path[i] + after
    ensures (i == |path| - 1 <==> after == "") && (after != "" ==> after[0] == '/')
  {
    after := "";
    if i + 1 < |path| {
      after := "/" + Joined(path[i + 1..]);
      JoinAt([path[i]], path[i + 1..]);
      assert path[i..] == [path[i]] + path[i + 1..];
    }
  }

  lemma BeforePart(path: Path, i: nat) returns (before: string)
    requires i < |path|
    ensures Joined(path) == before + Joined(path[i..])
    ensures (i == 0 <==> before == "") && (i > 0 ==> EndsWith(before, "/"))
  {
    hide Joined;
    before := "";
    if i > 0 {
      before := Joined(path[..i]) + "/";
      assert path == path[..i] + path[i..];
      JoinAt(path[..i], path[i..]);
      assert before[|before| - 1..] == "/";
    } else {
      assert path[0..] == path;
    }
  }

  // ---------- Components in the text ----------

  lemma FirstIs(name: string, x: string)
    requires NoSlash(x)
    ensures Components(name)[0] == x <==> name == x || x + "/" <= name
  {
    var before, after := Around(name, 0);
    if name == x { SplitNone(x); }
    if x + "/" <= name {
      SplitAt(x, name[|x| + 1..]);
      assert name == x + "/" + name[|x| + 1..];
      SplitNone(x);
    }
    if Components(name)[0] == x && after != "" { assert x + "/" == name[..|x| + 1]; }
  }

  lemma LastIs(name: string, x: string)
    requires NoSlash(x)
    ensures |Components(name)| > 1 && Components(name)[|Components(name)| - 1] == x <==> EndsWith(name, "/" + x)
  {
    var n := |Components(name)|;
    if EndsWith(name, "/" + x) {
      var front := name[..|name| - |x| - 1];
      assert name == front + "/" + x;
      SplitAt(front, x);
      SplitNone(x);
    }
    if n > 1 && Components(name)[n - 1] == x {
      var before, after := Around(name, n - 1);
      assert name[|name| - |x| - 1..] == "/" + x;
    }
  }

  lemma SomewhereIs(name: string, x: string)
    requires NoSlash(x)
    ensures x in Components(name) <==> name == x || x + "/" <= name || EndsWith(name, "/" + x) || Has(name, "/" + x + "/")
  {
    hide Has, Components, EndsWith, NoSlash;
    SplitSome(name);
    FirstIs(name, x);
    LastIs(name, x);
    if Has(name, "/" + x + "/") { MiddleIsComponent(name, x); }
    if x in Components(name) {
      var i :| 0 <= i < |Components(name)| && Components(name)[i] == x;
      if 0 < i < |Components(name)| - 1 { ComponentIsMiddle(name, i); }
    }
  }

  lemma MiddleIsComponent(name: string, x: string)
    requires NoSlash(x) && Has(name, "/" + x + "/")
    ensures x in Components(name)
  {
    hide Components, NoSlash;
    var mark := "/" + x + "/";
    var front, back := Split3(name, mark);
    Regroup(front, x, back);
    SplitAt(front, x + "/" + back);
    SplitAt(x, back);
    SplitNone(x);
    var before, path := Components(front), Components(name);
    assert path == before + ([x] + Components(back));
    assert path[|before|] == x;
  }

  lemma Split3(name: string, mark: string) returns (front: string, back: string)
    requires Has(name, mark)
    ensures name == front + mark + back
  {
    var at := Text.Find(name, mark).value;
    front, back := name[..at], name[at + |mark|..];
    assert name == front + name[at..][..|mark|] + back;
  }

  lemma Regroup(front: string, x: string, back: string)
    ensures front + ("/" + x + "/") + back == front + "/" + (x + "/" + back)
  {
  }

  lemma ComponentIsMiddle(name: string, i: nat)
    requires 0 < i < |Components(name)| - 1
    ensures Has(name, "/" + Components(name)[i] + "/")
  {
    var mark := "/" + Components(name)[i] + "/";
    var before, after := Around(name, i);
    var at := |before| - 1;
    assert before[at..] == "/";
    assert name[at..][..|mark|] == mark;
    Text.FindFirst(name, mark, at);
  }

  lemma {:induction false} CharacterIn(name: string, c: char)
    requires c != '/'
    ensures c in name <==> exists i :: 0 <= i < |Components(name)| && c in Components(name)[i]
  {
    if name != "" {
      var rest := Components(name[1..]);
      CharacterIn(name[1..], c);
      assert name == [name[0]] + name[1..];
      if name[0] == '/' {
        assert Components(name) == [""] + rest;
        assert forall i :: 0 <= i < |rest| ==> Components(name)[i + 1] == rest[i];
      } else {
        var path := Components(name);
        assert path[0] == [name[0]] + rest[0];
        assert forall i :: 1 <= i < |rest| ==> path[i] == rest[i];
      }
    }
  }

  lemma TopLevelIs(name: string)
    ensures TopLevel(name) == Components(name)[0]
  {
    var at := Text.Find(name, "/");
    if at.Some? {
      var top, rest := name[..at.value], name[at.value + 1..];
      assert name == top + "/" + rest by { assert name[at.value..][..1] == "/"; }
      if '/' in top {
        var k :| 0 <= k < |top| && top[k] == '/';
        assert name[k..][..1] == "/";
        Text.FindFirst(name, "/", k);
      }
      SplitAt(top, rest);
      SplitNone(top);
    } else {
      if '/' in name {
        var k :| 0 <= k < |name| && name[k] == '/';
        assert name[k..][..1] == "/";
        Text.FindFirst(name, "/", k);
      }
      SplitNone(name);
    }
  }

  // ---------- The checks agree ----------

  lemma SafeAgrees(name: string)
    ensures IsSafe(Components(name)) <==> SafeText(name)
  {
    hide Has, EndsWith;
    var path := Components(name);
    SplitJoined(name);
    if name == "" { SplitNone(""); }
    SomewhereIs(name, "..");
    FirstIs(name, ".data");
    FirstIs(name, "");
    SlashFirst(name);
    CharacterIn(name, '\\');
    forall i | 0 <= i < |path| ensures HasBackslash(path[i]) <==> '\\' in path[i] { }
    assert (".." + "/" == "../") && ("/" + ".." == "/..") && ("/" + ".." + "/" == "/../") && (".data" + "/" == ".data/");
  }

  lemma SlashFirst(name: string)
    ensures |Components(name)| > 1 && Components(name)[0] == "" <==> "/" <= name
  {
    FirstIs(name, "");
    SplitJoined(name);
    assert "" + "/" == "/";
    if "/" <= name {
      SplitAt("", name[1..]);
      assert name == "" + "/" + name[1..];
    }
  }

  lemma InstallableAgrees(name: string)
    ensures Installable(Components(name)) <==> InstallableText(name)
  {
    hide IsSafe, SafeText, EndsWith;
    SafeAgrees(name);
    TopLevelIs(name);
    LastIs(name, "entry_points.txt");
    assert "/" + "entry_points.txt" == "/entry_points.txt";
  }

  /** Entries whose name ends in a slash are skipped. */
  lemma DirectoryAgrees(name: string)
    ensures IsDirectory(Components(name)) <==> EndsWith(name, "/")
  {
    LastIs(name, "");
    assert "/" + "" == "/";
  }

  /** Opening a name that ends in a dot component fails. */
  lemma DotAgrees(name: string)
    ensures OpensDirectory(Components(name)) <==> name == "." || EndsWith(name, "/.")
  {
    hide EndsWith;
    LastIs(name, ".");
    SplitJoined(name);
    assert "/" + "." == "/.";
    if name == "." { SplitNone("."); }
  }

  /** Rows are sorted by the text of their names. */
  lemma OrderAgrees(a: string, b: string)
    ensures NameOrder(Components(a), Components(b)) <==> Orders.CmpString(a, b) != Orders.Greater
  {
    hide Orders.CmpString;
    SplitJoined(a);
    SplitJoined(b);
  }

  lemma WheelFileAgrees(name: string)
    ensures IsWheelFile(Components(name)) <==> EndsWith(name, ".dist-info/WHEEL")
  {
    hide EndsWith, Components, NoSlash;
    assert NoSlash("WHEEL") && NoSlash(".dist-info") by { Slashless(); }
    SplitSome(name);
    LastIs(name, "WHEEL");
    assert ".dist-info" + "/WHEEL" == ".dist-info/WHEEL" && "/" + "WHEEL" == "/WHEEL";
    EndsApart(name, ".dist-info", "/WHEEL");
    if EndsWith(name, "/WHEEL") {
      EndsWithParts(name, "/WHEEL");
      var front := name[..|name| - 6];
      assert name == front + "/" + "WHEEL";
      SplitAt(front, "WHEEL");
      SplitNone("WHEEL");
      SplitSome(front);
      var path := Components(front);
      assert Components(name)[|Components(name)| - 2] == path[|path| - 1];
      LastEnds(front, ".dist-info");
    }
  }

  lemma Slashless()
    ensures NoSlash("WHEEL") && NoSlash(".dist-info")
  {
  }

  lemma EndsWithParts(s: string, suffix: string)
    requires EndsWith(s, suffix)
    ensures |suffix| <= |s| && s == s[..|s| - |suffix|] + suffix
  {
  }

  lemma EndsApart(s: string, a: string, b: string)
    ensures EndsWith(s, a + b) <==> |b| <= |s| && EndsWith(s, b) && EndsWith(s[..|s| - |b|], a)
  {
    if EndsWith(s, a + b) {
      assert s[|s| - |b|..] == (a + b)[|a|..];
      assert s[..|s| - |b|][|s| - |b| - |a|..] == (a + b)[..|a|];
    }
    if EndsWith(s, b) && EndsWith(s[..|s| - |b|], a) {
      var front := s[..|s| - |b|];
      assert s == front[..|front| - |a|] + (a + b);
    }
  }

  lemma ReachesSlash(before: string, last: string, suffix: string)
    requires EndsWith(before, "/") && EndsWith(before + last, suffix) && |last| < |suffix|
    ensures suffix[|suffix| - |last| - 1] == '/'
  {
    var name := before + last;
    assert before[|before| - 1..] == "/";
    assert name[|name| - |suffix|..][|suffix| - |last| - 1] == name[|before| - 1] == before[|before| - 1];
  }

  /** A text and its last component end alike, as far as there is no slash. */
  lemma LastEnds(name: string, suffix: string)
    requires NoSlash(suffix)
    ensures EndsWith(Components(name)[|Components(name)| - 1], suffix) <==> EndsWith(name, suffix)
  {
    hide Components;
    SplitSome(name);
    var n := |Components(name)|;
    var before, after := Around(name, n - 1);
    var last := Components(name)[n - 1];
    assert name == before + last;
    if |suffix| <= |last| {
      assert name[|name| - |suffix|..] == last[|last| - |suffix|..];
    } else if EndsWith(name, suffix) && before != "" {
      ReachesSlash(before, last, suffix);
    }
  }

  /** The bytes `bytes.strip` removes. */
  const BLANKS: set<bv8> := {0x20, 0x09, 0x0a, 0x0b, 0x0c, 0x0d}

  predicate AllBlank(contents: Bytes) {
    forall i :: 0 <= i < |contents| ==> contents[i] in BLANKS
  }

  /** A member brings the wheel's own RECORD if it has that name and a byte that is not white space. */
  lemma OwnRecord(distInfo: Path, members: seq<Member>)
    ensures ShipsRecord(distInfo, members) <==>
      exists m :: m in members && m.name == distInfo + ["RECORD"] && !AllBlank(m.contents)
  {
    hide Blank, AllBlank;
    forall m | m in members ensures Blank(m.contents) <==> AllBlank(m.contents) {
      BlankAgrees(m.contents);
    }
  }

  lemma BlankAgrees(contents: Bytes)
    ensures Blank(contents) <==> AllBlank(contents)
  {
    forall i | 0 <= i < |contents|
      ensures 0x09 <= contents[i] <= 0x0d <==> contents[i] in {0x09, 0x0a, 0x0b, 0x0c, 0x0d}
    {
    }
  }
}
