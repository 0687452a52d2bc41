/**
  Installing an already resolved plan of pure wheels into an empty target: the checks of the
  preparation phase, the writes, and the RECORD that is generated for a wheel that ships none.

  A member name is its list of components; `Normal` is the file it designates. The disk maps files to
  contents. SHA-256, the purelib test on WHEEL contents and the CSV text of rows are parameters.
*/
module RecordInstall {
  import opened Wrappers
  import opened Sorting
  import opened OrderedDicts
  import Sequences
  import Orders
  import Text

  type Path = seq<string>
  type Bytes = seq<bv8>
  type Disk = map<Path, Bytes>

  datatype Member = Member(name: Path, contents: Bytes)

  datatype Row = Row(name: Path, digest: string, size: string)

  datatype Env = Env(sha256: Bytes -> string, isPurelib: Bytes -> bool, render: seq<Row> -> Bytes)

  /** The entries of a wheel file, and whether its project was named by the user. */
  datatype Archive = Archive(entries: seq<Member>, requested: bool)

  datatype Prepared = Prepared(distInfo: Path, requested: bool, reuseRecord: bool, members: seq<Member>)

  const INSTALLER_TEXT: Bytes := [0x63, 0x70, 0x69, 0x70, 0x0a]

  // ---------- Preparation ----------

  predicate IsDirectory(name: Path) {
    |name| > 1 && name[|name| - 1] == ""
  }

  predicate HasBackslash(s: string) {
    exists i :: 0 <= i < |s| && s[i] == '\\'
  }

  /** `is_safe_member`, on components. */
  predicate IsSafe(name: Path) {
    && name != [] && name != [""]
    && (forall i :: 0 <= i < |name| ==> !HasBackslash(name[i]) && name[i] != "..")
    && name[0] != ".data" && !(|name| > 1 && name[0] == "")
  }

  predicate EndsWith(s: string, suffix: string) {
    |suffix| <= |s| && s[|s| - |suffix|..] == suffix
  }

  predicate Installable(name: Path) {
    && IsSafe(name)
    && !EndsWith(name[0], ".data")
    && !(|name| > 1 && name[|name| - 1] == "entry_points.txt")
  }

  predicate IsWheelFile(name: Path) {
    |name| >= 2 && name[|name| - 1] == "WHEEL" && EndsWith(name[|name| - 2], ".dist-info")
  }

  function Files(entries: seq<Member>): seq<Member> {
    if entries == [] then []
    else if IsDirectory(entries[0].name) then Files(entries[1..])
    else [entries[0]] + Files(entries[1..])
  }

  function WheelFiles(members: seq<Member>): seq<Member> {
    if members == [] then []
    else if IsWheelFile(members[0].name) then [members[0]] + WheelFiles(members[1..])
    else WheelFiles(members[1..])
  }

  function Parent(name: Path): Path {
    if name == [] then [] else name[..|name| - 1]
  }

  predicate Blank(contents: Bytes) {
    forall i :: 0 <= i < |contents| ==> contents[i] == 0x20 || 0x09 <= contents[i] <= 0x0d
  }

  predicate ShipsRecord(distInfo: Path, members: seq<Member>) {
    exists i :: 0 <= i < |members| && members[i].name == distInfo + ["RECORD"] && !Blank(members[i].contents)
  }

  /** The checks on one wheel that do not depend on the others. */
  predicate WheelAccepted(env: Env, archive: Archive) {
    var members := Files(archive.entries);
    && (forall i :: 0 <= i < |members| ==> Installable(members[i].name))
    && |WheelFiles(members)| == 1
    && env.isPurelib(WheelFiles(members)[0].contents)
  }

  function PrepareWheel(env: Env, archive: Archive): Prepared
    requires WheelAccepted(env, archive)
  {
    var members := Files(archive.entries);
    var distInfo := Parent(WheelFiles(members)[0].name);
    Prepared(distInfo, archive.requested, ShipsRecord(distInfo, members), members)
  }

  // ---------- Files and records ----------

  /** The file a name designates: empty and `.` components are skipped. */
  function Normal(name: Path): Path {
    if name == [] then []
    else if name[0] == "" || name[0] == "." then Normal(name[1..])
    else [name[0]] + Normal(name[1..])
  }

  function Installer(p: Prepared): Path { p.distInfo + ["INSTALLER"] }

  function Requested(p: Prepared): Path { p.distInfo + ["REQUESTED"] }

  function Record(p: Prepared): Path { p.distInfo + ["RECORD"] }

  predicate Generated(p: Prepared, file: Path) {
    || file == Installer(p)
    || (p.requested && file == Requested(p))
    || (!p.reuseRecord && file == Record(p))
  }

  /** The files of a wheel after installation: what it shipped and what was generated for it. */
  predicate Owns(p: Prepared, file: Path) {
    Generated(p, file) || Ships(p.members, file)
  }

  predicate Ships(members: seq<Member>, file: Path) {
    exists i :: 0 <= i < |members| && Normal(members[i].name) == file
  }

  /** What the wheel's own installation leaves in a file other than a generated RECORD. */
  function ContentsOf(p: Prepared, file: Path): Bytes {
    if p.requested && file == Requested(p) then []
    else if file == Installer(p) then INSTALLER_TEXT
    else LastWritten(p.members, file)
  }

  function LastWritten(members: seq<Member>, file: Path): Bytes {
    if members == [] then []
    else if Normal(members[|members| - 1].name) == file then members[|members| - 1].contents
    else LastWritten(members[..|members| - 1], file)
  }

  function RowFor(env: Env, name: Path, contents: Bytes): Row {
    Row(name, "sha256=" + env.sha256(contents), Text.NatText(|contents|))
  }

  function PathText(name: Path): string {
    if name == [] then "" else Text.Join('/', name)
  }

  predicate NameOrder(a: Path, b: Path) {
    Orders.CmpString(PathText(a), PathText(b)) != Orders.Greater
  }

  lemma NameOrderPreorder()
    ensures TotalPreorder(NameOrder)
  {
    Orders.StringTotalOrder();
    forall x, y ensures NameOrder(x, y) || NameOrder(y, x) {
      assert Orders.CmpString(PathText(y), PathText(x)) == Orders.CmpString(PathText(x), PathText(y)).Flip();
    }
    forall x, y, z | NameOrder(x, y) && NameOrder(y, z) ensures NameOrder(x, z) {
      assert Orders.CmpString(PathText(x), PathText(z)) != Orders.Greater;
    }
  }

  /** A decimal numeral, without leading zeros. */
  predicate IsSize(text: string, n: nat) {
    Text.IsNumeral(text) && Text.NatValue(text) == n && (text[0] == '0' ==> |text| == 1)
  }

  /** What a row says of contents; of the RECORD itself, whose path is given, it says nothing. */
  predicate Says(env: Env, record: Path, row: Row, contents: Bytes) {
    if row.name == record then row.digest == "" && row.size == ""
    else row.digest == "sha256=" + env.sha256(contents) && IsSize(row.size, |contents|)
  }

  /** The rows list every file of the wheel once, in name order, with the digest and size now on disk. */
  ghost predicate Lists(env: Env, p: Prepared, disk: Disk, rows: seq<Row>) {
    && (forall i, j :: 0 <= i < j < |rows| ==> rows[i].name != rows[j].name && NameOrder(rows[i].name, rows[j].name))
    && (forall file :: Owns(p, file) ==> exists i :: 0 <= i < |rows| && rows[i].name == file)
    && (forall i :: 0 <= i < |rows| ==>
         && Owns(p, rows[i].name) && rows[i].name in disk
         && Says(env, p.distInfo + ["RECORD"], rows[i], disk[rows[i].name]))
  }

  predicate NormalDistInfo(p: Prepared) {
    Normal(p.distInfo) == p.distInfo
  }

  lemma {:induction false} NormalAppend(name: Path, last: string)
    requires last != "" && last != "."
    ensures Normal(name + [last]) == Normal(name) + [last]
  {
    if name != [] {
      assert (name + [last])[1..] == name[1..] + [last];
      NormalAppend(name[1..], last);
    } else {
      assert [last][1..] == [];
    }
  }

  // ---------- Writing ----------

  predicate RowsNamed(t: Dict<Path, Row>) {
    t.Valid() && forall name :: name in t.table ==> t.table[name].name == name
  }

  /** The row table. */
  type Table = t: Dict<Path, Row> | RowsNamed(t) witness Dict([], map[])

  function PutRow(t: Table, row: Row): Table {
    t.Put(row.name, row)
  }

  function SortedRows(t: Table): seq<Row> {
    var names := Sort(NameOrder, t.keys);
    seq(|names|, i requires 0 <= i < |names| => t.Get(names[i], Row(names[i], "", "")))
  }

  /** `sorted(record_rows)`: each name once, in order. */
  lemma SortedRowsSpec(t: Table)
    ensures var rows := SortedRows(t);
      && (forall i, j :: 0 <= i < j < |rows| ==> rows[i].name != rows[j].name && NameOrder(rows[i].name, rows[j].name))
      && (forall name :: name in t.table ==> exists i :: 0 <= i < |rows| && rows[i].name == name)
      && (forall i :: 0 <= i < |rows| ==> rows[i].name in t.table && rows[i] == t.table[rows[i].name])
  {
    hide NameOrder, Sort;
    var names := Sort(NameOrder, t.keys);
    SortedNames(t.keys);
    var rows := SortedRows(t);
    forall i | 0 <= i < |rows| ensures rows[i].name == names[i] && names[i] in t.table {
      assert names[i] in names;
    }
    forall name | name in t.table ensures exists i :: 0 <= i < |rows| && rows[i].name == name {
      assert name in names;
      var i :| 0 <= i < |names| && names[i] == name;
      assert rows[i].name == name;
    }
  }

  lemma {:induction false} SortedNames(keys: seq<Path>)
    requires Sequences.Distinct(keys)
    ensures var names := Sort(NameOrder, keys);
      Sorted(NameOrder, names) && Sequences.Distinct(names) && forall name :: name in names <==> name in keys
  {
    hide NameOrder, Sort;
    NameOrderPreorder();
    SortSpec(NameOrder, keys);
    var names := Sort(NameOrder, keys);
    forall name ensures name in names <==> name in keys {
      assert name in names <==> name in multiset(names);
    }
    Unrepeated(keys, names);
  }

  lemma Unrepeated(a: seq<Path>, b: seq<Path>)
    requires multiset(a) == multiset(b)
    requires forall i, j :: 0 <= i < j < |a| ==> a[i] != a[j]
    ensures forall i, j :: 0 <= i < j < |b| ==> b[i] != b[j]
  {
    forall i, j | 0 <= i < j < |b| ensures b[i] != b[j] {
      CountAtMostOne(a, b[i]);
      assert b == b[..i] + [b[i]] + b[i + 1..j] + [b[j]] + b[j + 1..];
    }
  }

  lemma {:induction false} CountAtMostOne(a: seq<Path>, x: Path)
    requires forall i, j :: 0 <= i < j < |a| ==> a[i] != a[j]
    ensures multiset(a)[x] <= 1
  {
    if a != [] {
      CountAtMostOne(a[1..], x);
      assert a == [a[0]] + a[1..];
      assert a[0] !in a[1..];
    }
  }

  function WriteMembers(members: seq<Member>, disk: Disk): Disk {
    if members == [] then disk
    else
      var last := members[|members| - 1];
      WriteMembers(members[..|members| - 1], disk)[Normal(last.name) := last.contents]
  }

  function MemberRows(env: Env, p: Prepared, members: seq<Member>): Table {
    if members == [] then Dict([], map[])
    else
      var last := members[|members| - 1];
      var t := MemberRows(env, p, members[..|members| - 1]);
      if Normal(last.name) == Record(p) then t else PutRow(t, RowFor(env, Normal(last.name), last.contents))
  }

  function AllRows(env: Env, p: Prepared): Table {
    var t := PutRow(MemberRows(env, p, p.members), RowFor(env, Installer(p), INSTALLER_TEXT));
    var t' := if p.requested then PutRow(t, RowFor(env, Requested(p), [])) else t;
    PutRow(t', Row(Record(p), "", ""))
  }

  function WriteWheel(env: Env, p: Prepared, disk: Disk): Disk {
    var d := WriteMembers(p.members, disk)[Normal(Installer(p)) := INSTALLER_TEXT];
    var d' := if p.requested then d[Normal(Requested(p)) := []] else d;
    if p.reuseRecord then d' else d'[Normal(Record(p)) := env.render(SortedRows(AllRows(env, p)))]
  }

  function WriteAll(env: Env, plan: seq<Prepared>, disk: Disk): Disk {
    if plan == [] then disk else WriteWheel(env, plan[|plan| - 1], WriteAll(env, plan[..|plan| - 1], disk))
  }

  // ---------- Writes that fail ----------

  /** A file stands where a directory is needed, or the other way round. */
  predicate Blocked(disk: Disk, file: Path) {
    exists f :: f in disk && (f < file || file < f)
  }

  /** No file lies under another file. */
  ghost predicate Treelike(disk: Disk) {
    forall f, g :: f in disk && g in disk ==> !(f < g)
  }

  /** A name that ends in `.` is opened as the directory it designates, which raises. */
  predicate OpensDirectory(name: Path) {
    name != [] && name[|name| - 1] == "."
  }

  predicate NamesFiles(members: seq<Member>) {
    forall i :: 0 <= i < |members| ==> !OpensDirectory(members[i].name)
  }

  /** No write of the plan raises. */
  ghost predicate Writable(env: Env, plan: seq<Prepared>) {
    (forall i :: 0 <= i < |plan| ==> NamesFiles(plan[i].members)) && Treelike(WriteAll(env, plan, map[]))
  }

  lemma WriteOne(disk: Disk, file: Path, contents: Bytes)
    requires Treelike(disk)
    ensures Treelike(disk[file := contents]) <==> !Blocked(disk, file)
  {
    var after := disk[file := contents];
    if f :| f in disk && (f < file || file < f) {
      assert f in after && file in after;
    }
  }

  lemma TreelikeBefore(disk: Disk, more: Disk)
    requires disk.Keys <= more.Keys && Treelike(more)
    ensures Treelike(disk)
  {
    forall f, g | f in disk && g in disk ensures !(f < g) {
      assert f in more.Keys && g in more.Keys;
    }
  }

  lemma {:induction false} MembersGrow(members: seq<Member>, n: nat, disk: Disk)
    requires n <= |members|
    ensures disk.Keys <= WriteMembers(members[..n], disk).Keys <= WriteMembers(members, disk).Keys
  {
    hide Normal;
    if n < |members| {
      assert members[..|members| - 1][..n] == members[..n];
      MembersGrow(members[..|members| - 1], n, disk);
    } else {
      assert members[..n] == members;
      if n > 0 { MembersGrow(members[..n - 1], n - 1, disk); }
    }
  }

  lemma {:induction false} PlanGrows(env: Env, plan: seq<Prepared>, n: nat, disk: Disk)
    requires n <= |plan|
    ensures WriteAll(env, plan[..n], disk).Keys <= WriteAll(env, plan, disk).Keys
  {
    if n < |plan| {
      var front, last := plan[..|plan| - 1], plan[|plan| - 1];
      assert front[..n] == plan[..n];
      PlanGrows(env, front, n, disk);
      MembersGrow(last.members, 0, WriteAll(env, front, disk));
    } else {
      assert plan[..n] == plan;
    }
  }

  /** Opening a file for writing and filling it; `None` where that raises. */
  method WriteFile(disk: Disk, file: Path, contents: Bytes) returns (result: Option<Disk>)
    requires Treelike(disk)
    ensures result == if Blocked(disk, file) then None else Some(disk[file := contents])
    ensures result.Some? <==> Treelike(disk[file := contents])
  {
    WriteOne(disk, file, contents);
    if exists f :: f in disk && (f < file || file < f) {
      return None;
    }
    return Some(disk[file := contents]);
  }

  /** The members of a wheel, with their rows unless the wheel brings its own RECORD. */
  method InstallMembers(env: Env, p: Prepared, disk: Disk) returns (result: Option<Disk>, table: Table)
    requires Treelike(disk)
    ensures result.Some? <==> NamesFiles(p.members) && Treelike(WriteMembers(p.members, disk))
    ensures result.Some? ==> result.value == WriteMembers(p.members, disk)
    ensures result.Some? && !p.reuseRecord ==> table == MemberRows(env, p, p.members)
  {
    hide Treelike, Blocked, Normal, Record, RowFor, PutRow, WriteMembers, MemberRows, OpensDirectory;
    var files := disk;
    table := Dict([], map[]);
    NoMembers(env, p, disk);
    for i := 0 to |p.members|
      invariant files == WriteMembers(p.members[..i], disk) && Treelike(files)
      invariant forall k :: 0 <= k < i ==> !OpensDirectory(p.members[k].name)
      invariant !p.reuseRecord ==> table == MemberRows(env, p, p.members[..i])
    {
      var m := p.members[i];
      if OpensDirectory(m.name) {
        return None, table;
      }
      assert p.members[..i + 1] == p.members[..i] + [m];
      OneMoreMember(env, p, p.members[..i], m, disk);
      MembersGrow(p.members, i + 1, disk);
      var written := WriteFile(files, Normal(m.name), m.contents);
      if written.None? {
        Stops(files[Normal(m.name) := m.contents], WriteMembers(p.members, disk));
        return None, table;
      }
      files := written.value;
      if !p.reuseRecord {
        var relative := Normal(m.name);
        if relative != Record(p) {
          table := PutRow(table, RowFor(env, relative, m.contents));
        }
      }
    }
    assert p.members[..|p.members|] == p.members;
    result := Some(files);
  }

  lemma {:induction false} NoMembers(env: Env, p: Prepared, disk: Disk)
    ensures WriteMembers([], disk) == disk && MemberRows(env, p, []) == Dict([], map[])
  {
  }

  lemma {:induction false} OneMoreMember(env: Env, p: Prepared, front: seq<Member>, m: Member, disk: Disk)
    ensures WriteMembers(front + [m], disk) == WriteMembers(front, disk)[Normal(m.name) := m.contents]
    ensures MemberRows(env, p, front + [m]) ==
      if Normal(m.name) == Record(p) then MemberRows(env, p, front)
      else PutRow(MemberRows(env, p, front), RowFor(env, Normal(m.name), m.contents))
  {
    hide Normal, Record, RowFor, PutRow;
    assert (front + [m])[..|front|] == front;
  }

  /** The writes for one wheel, with the row table built along the way; `None` where one of them raises. */
  method InstallWheel(env: Env, p: Prepared, disk: Disk) returns (result: Option<Disk>)
    requires Treelike(disk)
    ensures result.Some? <==> NamesFiles(p.members) && Treelike(WriteWheel(env, p, disk))
    ensures result.Some? ==> result.value == WriteWheel(env, p, disk)
  {
    hide Treelike, Blocked, Normal, Installer, Requested, Record, RowFor, WriteMembers, MemberRows, PutRow, SortedRows, NamesFiles;
    ghost var final := WriteWheel(env, p, disk);
    var files, table := InstallMembers(env, p, disk);
    if files.None? {
      if NamesFiles(p.members) { Stops(WriteMembers(p.members, disk), final); }
      return None;
    }
    result := WriteFile(files.value, Normal(Installer(p)), INSTALLER_TEXT);
    if result.None? {
      Stops(files.value[Normal(Installer(p)) := INSTALLER_TEXT], final);
      return;
    }
    if !p.reuseRecord {
      table := PutRow(table, RowFor(env, Installer(p), INSTALLER_TEXT));
    }
    if p.requested {
      files := result;
      result := WriteFile(files.value, Normal(Requested(p)), []);
      if result.None? {
        Stops(files.value[Normal(Requested(p)) := []], final);
        return;
      }
      if !p.reuseRecord {
        table := PutRow(table, RowFor(env, Requested(p), []));
      }
    }
    if !p.reuseRecord {
      table := PutRow(table, Row(Record(p), "", ""));
      result := WriteFile(result.value, Normal(Record(p)), env.render(SortedRows(table)));
    }
  }

  lemma Stops(disk: Disk, final: Disk)
    requires disk.Keys <= final.Keys && !Treelike(disk)
    ensures !Treelike(final)
  {
    if Treelike(final) { TreelikeBefore(disk, final); }
  }

  /** The checks on one wheel against the destinations taken so far. */
  method PrepareOne(env: Env, archive: Archive, taken: set<Path>) returns (prepared: Option<Prepared>, used: set<Path>)
    ensures prepared.Some? <==> WheelAccepted(env, archive) && Unused(taken, Files(archive.entries))
    ensures prepared.Some? ==>
      prepared.value == PrepareWheel(env, archive) && used == taken + NameSet(prepared.value.members)
  {
    hide Installable, IsWheelFile, IsDirectory, WheelAccepted, Unused, NameSet, ShipsRecord;
    used := taken;
    var members: seq<Member> := [];
    StartUnused(taken);
    assert archive.entries[0..] == archive.entries;
    var i := 0;
    while i < |archive.entries|
      invariant 0 <= i <= |archive.entries|
      invariant Files(archive.entries) == members + Files(archive.entries[i..])
      invariant AllInstallable(members) && Unused(taken, members) && used == taken + NameSet(members)
    {
      var entry := archive.entries[i];
      FilesStep(archive.entries, i);
      if !IsDirectory(entry.name) {
        ghost var rest := Files(archive.entries[i + 1..]);
        assert Files(archive.entries) == (members + [entry]) + rest;
        UnusedAppend(taken, members, entry);
        if !Installable(entry.name) {
          RefusedMember(env, archive, members, entry, rest);
          return None, used;
        }
        if entry.name in used {
          UnusedPrefix(taken, members + [entry], rest);
          return None, used;
        }
        used := used + {entry.name};
        members := members + [entry];
      }
      i := i + 1;
    }
    assert members + [] == members;
    AcceptedMembers(env, archive);
    var wheels := WheelFiles(members);
    if |wheels| != 1 || !env.isPurelib(wheels[0].contents) {
      return None, used;
    }
    prepared := Some(Prepared(Parent(wheels[0].name), archive.requested, ShipsRecord(Parent(wheels[0].name), members), members));
  }

  predicate AllInstallable(members: seq<Member>) {
    forall i :: 0 <= i < |members| ==> Installable(members[i].name)
  }

  lemma StartUnused(taken: set<Path>)
    ensures Unused(taken, []) && NameSet([]) == {}
  {
  }

  lemma FilesStep(entries: seq<Member>, i: nat)
    requires i < |entries|
    ensures Files(entries[i..]) ==
      (if IsDirectory(entries[i].name) then [] else [entries[i]]) + Files(entries[i + 1..])
  {
    assert entries[i..][1..] == entries[i + 1..];
  }

  lemma RefusedMember(env: Env, archive: Archive, members: seq<Member>, entry: Member, rest: seq<Member>)
    requires Files(archive.entries) == (members + [entry]) + rest && !Installable(entry.name)
    ensures !WheelAccepted(env, archive)
  {
    assert Files(archive.entries)[|members|] == entry;
  }

  lemma AcceptedMembers(env: Env, archive: Archive)
    ensures var members := Files(archive.entries);
      WheelAccepted(env, archive) <==>
        AllInstallable(members) && |WheelFiles(members)| == 1 && env.isPurelib(WheelFiles(members)[0].contents)
  {
  }

  ghost function NameSet(members: seq<Member>): set<Path> {
    set i | 0 <= i < |members| :: members[i].name
  }

  /** The names are new and occur once each. */
  ghost predicate Unused(taken: set<Path>, members: seq<Member>) {
    && (forall i :: 0 <= i < |members| ==> members[i].name !in taken)
    && (forall i, j :: 0 <= i < j < |members| ==> members[i].name != members[j].name)
  }

  lemma UnusedAppend(taken: set<Path>, members: seq<Member>, m: Member)
    requires Unused(taken, members)
    ensures Unused(taken, members + [m]) <==> m.name !in taken + NameSet(members)
    ensures NameSet(members + [m]) == NameSet(members) + {m.name}
  {
    var more := members + [m];
    forall i | 0 <= i < |members| ensures more[i] == members[i] { }
    assert more[|members|] == m;
    if m.name in NameSet(members) {
      var i :| 0 <= i < |members| && members[i].name == m.name;
      assert more[i].name == more[|members|].name;
    }
  }

  lemma UnusedPrefix(taken: set<Path>, head: seq<Member>, tail: seq<Member>)
    ensures Unused(taken, head + tail) ==> Unused(taken, head)
  {
    assert forall i :: 0 <= i < |head| ==> (head + tail)[i] == head[i];
  }

  /** All archives together pass the checks. */
  ghost predicate Accepted(env: Env, archives: seq<Archive>) {
    && (forall i :: 0 <= i < |archives| ==> WheelAccepted(env, archives[i]))
    && Unused({}, AllFiles(archives))
  }

  function AllFiles(archives: seq<Archive>): seq<Member> {
    if archives == [] then [] else AllFiles(archives[..|archives| - 1]) + Files(archives[|archives| - 1].entries)
  }

  function PrepareAll(env: Env, archives: seq<Archive>): seq<Prepared>
    requires forall i :: 0 <= i < |archives| ==> WheelAccepted(env, archives[i])
  {
    seq(|archives|, i requires 0 <= i < |archives| => PrepareWheel(env, archives[i]))
  }

  lemma UnusedConcat(head: seq<Member>, tail: seq<Member>)
    requires Unused({}, head)
    ensures Unused({}, head + tail) <==> Unused(NameSet(head), tail)
    ensures NameSet(head + tail) == NameSet(head) + NameSet(tail)
  {
    var all := head + tail;
    forall i | 0 <= i < |head| ensures all[i] == head[i] { }
    forall i | 0 <= i < |tail| ensures all[|head| + i] == tail[i] { }
    if Unused({}, all) {
      forall i | 0 <= i < |tail| ensures tail[i].name !in NameSet(head) {
        assert all[|head| + i] == tail[i];
      }
      forall i, j | 0 <= i < j < |tail| ensures tail[i].name != tail[j].name {
        assert all[|head| + i].name != all[|head| + j].name;
      }
    }
    if Unused(NameSet(head), tail) {
      forall i, j | 0 <= i < j < |all| ensures all[i].name != all[j].name {
        if j >= |head| {
          assert all[j] == tail[j - |head|];
          if i >= |head| { assert all[i] == tail[i - |head|]; }
        }
      }
    }
    forall x | x in NameSet(tail) ensures x in NameSet(all) {
      var i :| 0 <= i < |tail| && tail[i].name == x;
      assert all[|head| + i].name == x;
    }
  }

  lemma {:induction false} AcceptedPrefix(env: Env, archives: seq<Archive>, n: nat)
    requires n <= |archives| && Unused({}, AllFiles(archives))
    ensures Unused({}, AllFiles(archives[..n]))
  {
    if n < |archives| {
      var front := archives[..|archives| - 1];
      UnusedPrefix({}, AllFiles(front), Files(archives[|archives| - 1].entries));
      assert front[..n] == archives[..n];
      AcceptedPrefix(env, front, n);
    } else {
      assert archives[..n] == archives;
    }
  }

  /** `install_resolved_pure_wheels`; `None` where it returns false, before or after a rollback. */
  method Install(env: Env, archives: seq<Archive>, target: Disk) returns (result: Option<Disk>)
    ensures result.Some? <==>
      target == map[] && Accepted(env, archives) && Writable(env, PrepareAll(env, archives))
    ensures result.Some? ==> result.value == WriteAll(env, PrepareAll(env, archives), map[])
  {
    hide WheelAccepted, Unused, NameSet, Files, PrepareWheel;
    if target != map[] {
      return None;
    }
    var plan: seq<Prepared> := [];
    var used: set<Path> := {};
    StartUnused({});
    for i := 0 to |archives|
      invariant forall k :: 0 <= k < i ==> WheelAccepted(env, archives[k])
      invariant plan == PrepareAll(env, archives[..i])
      invariant Unused({}, AllFiles(archives[..i])) && used == NameSet(AllFiles(archives[..i]))
    {
      assert archives[..i + 1][..i] == archives[..i];
      var one, more := PrepareOne(env, archives[i], used);
      UnusedConcat(AllFiles(archives[..i]), Files(archives[i].entries));
      if one.None? {
        if Accepted(env, archives) {
          AcceptedPrefix(env, archives, i + 1);
        }
        return None;
      }
      PreparedMembers(env, archives[i]);
      plan, used := plan + [one.value], more;
    }
    assert archives[..|archives|] == archives;
    var disk := InstallPlan(env, plan);
    return disk;
  }

  method InstallPlan(env: Env, plan: seq<Prepared>) returns (result: Option<Disk>)
    ensures result.Some? <==> Writable(env, plan)
    ensures result.Some? ==> result.value == WriteAll(env, plan, map[])
  {
    hide Treelike, WriteWheel, NamesFiles;
    var disk: Disk := map[];
    EmptyTreelike();
    for i := 0 to |plan|
      invariant disk == WriteAll(env, plan[..i], map[]) && Treelike(disk)
      invariant forall k :: 0 <= k < i ==> NamesFiles(plan[k].members)
    {
      assert plan[..i + 1][..i] == plan[..i];
      var next := InstallWheel(env, plan[i], disk);
      if next.None? {
        if NamesFiles(plan[i].members) {
          PlanGrows(env, plan, i + 1, map[]);
          Stops(WriteWheel(env, plan[i], disk), WriteAll(env, plan, map[]));
        }
        return None;
      }
      disk := next.value;
    }
    assert plan[..|plan|] == plan;
    return Some(disk);
  }

  lemma EmptyTreelike()
    ensures Treelike(map[])
  {
  }

  lemma PreparedMembers(env: Env, archive: Archive)
    requires WheelAccepted(env, archive)
    ensures PrepareWheel(env, archive).members == Files(archive.entries)
  {
  }
}
