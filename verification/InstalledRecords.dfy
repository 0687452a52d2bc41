/** What a generated RECORD says about the disk, for one wheel and for a whole plan. */
module InstalledRecords {
  import opened RecordInstall

  // ---------- The generated RECORD ----------

  lemma ShipsLast(members: seq<Member>, file: Path)
    requires members != []
    ensures Ships(members, file) <==>
      Ships(members[..|members| - 1], file) || Normal(members[|members| - 1].name) == file
  {
    var front := members[..|members| - 1];
    forall i | 0 <= i < |front| ensures front[i] == members[i] { }
    if Ships(members, file) {
      var i :| 0 <= i < |members| && Normal(members[i].name) == file;
      assert i < |front| ==> Normal(front[i].name) == file;
    }
    if Ships(front, file) {
      var i :| 0 <= i < |front| && Normal(front[i].name) == file;
      assert Normal(members[i].name) == file;
    }
  }

  lemma {:induction false} MembersOnDisk(members: seq<Member>, disk: Disk, file: Path)
    ensures file in WriteMembers(members, disk) <==> file in disk || Ships(members, file)
    ensures file in WriteMembers(members, disk) ==>
      WriteMembers(members, disk)[file] == if Ships(members, file) then LastWritten(members, file) else disk[file]
  {
    hide Ships, Normal;
    if members != [] {
      MembersOnDisk(members[..|members| - 1], disk, file);
      ShipsLast(members, file);
    } else {
      ShipsNothing(file);
    }
  }

  lemma ShipsNothing(file: Path)
    ensures !Ships([], file)
  {
  }

  lemma NormalGenerated(p: Prepared)
    requires NormalDistInfo(p)
    ensures Normal(Installer(p)) == Installer(p) && Normal(Requested(p)) == Requested(p) && Normal(Record(p)) == Record(p)
  {
    NormalAppend(p.distInfo, "INSTALLER");
    NormalAppend(p.distInfo, "REQUESTED");
    NormalAppend(p.distInfo, "RECORD");
  }

  lemma GeneratedDiffer(p: Prepared)
    ensures Installer(p) != Requested(p) && Installer(p) != Record(p) && Requested(p) != Record(p)
  {
    var n := |p.distInfo|;
    assert Installer(p)[n] == "INSTALLER" && Requested(p)[n] == "REQUESTED" && Record(p)[n] == "RECORD";
    assert |"INSTALLER"| == 9 && |"REQUESTED"| == 9 && |"RECORD"| == 6 && "INSTALLER"[0] == 'I';
  }

  /** What the wheel's own installation leaves in each of its files. */
  function Installed(env: Env, p: Prepared, file: Path): Bytes {
    if !p.reuseRecord && file == Record(p) then env.render(SortedRows(AllRows(env, p))) else ContentsOf(p, file)
  }

  /** Installing one wheel changes exactly its own files. */
  lemma WheelOnDisk(env: Env, p: Prepared, disk: Disk, file: Path)
    requires NormalDistInfo(p)
    ensures file in WriteWheel(env, p, disk) <==> file in disk || Owns(p, file)
    ensures file in WriteWheel(env, p, disk) ==>
      WriteWheel(env, p, disk)[file] == if Owns(p, file) then Installed(env, p, file) else disk[file]
  {
    hide AllRows, LastWritten, Normal, Ships;
    NormalGenerated(p);
    GeneratedDiffer(p);
    MembersOnDisk(p.members, disk, file);
  }

  /**
    What installing one wheel leaves on disk, file by file: the installer's name, an empty REQUESTED
    if the user asked for the project, the generated RECORD, and otherwise the last member of that file.
  */
  lemma WheelContents(env: Env, p: Prepared, disk: Disk)
    requires NormalDistInfo(p)
    ensures var d := WriteWheel(env, p, disk);
      && p.distInfo + ["INSTALLER"] in d && d[p.distInfo + ["INSTALLER"]] == [0x63, 0x70, 0x69, 0x70, 0x0a]
      && (p.requested ==> p.distInfo + ["REQUESTED"] in d && d[p.distInfo + ["REQUESTED"]] == [])
      && (!p.reuseRecord ==>
            p.distInfo + ["RECORD"] in d && d[p.distInfo + ["RECORD"]] == env.render(SortedRows(AllRows(env, p))))
      && forall k :: 0 <= k < |p.members| && IsLastOf(p.members, k) && !Generated(p, Normal(p.members[k].name)) ==>
           Normal(p.members[k].name) in d && d[Normal(p.members[k].name)] == p.members[k].contents
  {
    hide AllRows, LastWritten, Normal, Ships, IsLastOf, WriteWheel, SortedRows;
    GeneratedDiffer(p);
    WheelOnDisk(env, p, disk, Installer(p));
    WheelOnDisk(env, p, disk, Requested(p));
    WheelOnDisk(env, p, disk, Record(p));
    forall k | 0 <= k < |p.members| && IsLastOf(p.members, k) && !Generated(p, Normal(p.members[k].name))
      ensures var d := WriteWheel(env, p, disk);
        Normal(p.members[k].name) in d && d[Normal(p.members[k].name)] == p.members[k].contents
    {
      WheelOnDisk(env, p, disk, Normal(p.members[k].name));
      LastOfIsWritten(p.members, k);
    }
  }

  /** No later member designates the same file. */
  predicate IsLastOf(members: seq<Member>, k: nat)
    requires k < |members|
  {
    forall j :: k < j < |members| ==> Normal(members[j].name) != Normal(members[k].name)
  }

  lemma {:induction false} LastOfIsWritten(members: seq<Member>, k: nat)
    requires k < |members| && IsLastOf(members, k)
    ensures Ships(members, Normal(members[k].name))
    ensures LastWritten(members, Normal(members[k].name)) == members[k].contents
  {
    hide Normal;
    if k < |members| - 1 {
      var front := members[..|members| - 1];
      assert forall j :: 0 <= j < |front| ==> front[j] == members[j];
      LastOfIsWritten(front, k);
    }
  }

  /** Of a name only the components that are neither empty nor a dot count. */
  lemma {:induction false} NormalParts(a: Path, b: Path)
    ensures Normal(a + b) == Normal(a) + Normal(b)
    ensures forall c :: Normal([c]) == if c in {"", "."} then [] else [c]
  {
    if a == [] {
      assert a + b == b;
      forall c ensures Normal([c]) == if c in {"", "."} then [] else [c] { assert [c][1..] == []; }
    } else {
      assert (a + b)[1..] == a[1..] + b;
      NormalParts(a[1..], b);
    }
  }

  lemma {:induction false} MemberRowsSpec(env: Env, p: Prepared, members: seq<Member>)
    ensures forall name :: name in MemberRows(env, p, members).table <==> name != Record(p) && Ships(members, name)
    ensures forall name :: name in MemberRows(env, p, members).table ==>
      MemberRows(env, p, members).table[name] == RowFor(env, name, LastWritten(members, name))
  {
    hide Normal, RowFor, Ships;
    if members != [] {
      var front, last := members[..|members| - 1], members[|members| - 1];
      MemberRowsSpec(env, p, front);
      RowForName(env, Normal(last.name), last.contents);
      forall name ensures Ships(members, name) <==> Ships(front, name) || Normal(last.name) == name {
        ShipsLast(members, name);
      }
    } else {
      forall name ensures !Ships([], name) {
        ShipsNothing(name);
      }
    }
  }

  lemma RowForName(env: Env, name: Path, contents: Bytes)
    ensures RowFor(env, name, contents).name == name
  {
  }

  /** A row made for some contents says of other contents what is so if digest and size are the same. */
  lemma RowSays(env: Env, record: Path, name: Path, contents: Bytes, other: Bytes)
    requires name != record
    ensures Says(env, record, RowFor(env, name, contents), other) <==>
      env.sha256(contents) == env.sha256(other) && |contents| == |other|
  {
    Text.NatRoundTrip(|contents|);
    Text.NoLeadingZero(|contents|);
    var a, b := "sha256=" + env.sha256(contents), "sha256=" + env.sha256(other);
    assert a[7..] == env.sha256(contents) && b[7..] == env.sha256(other);
  }

  /** The row the wheel's own installation calls for. */
  function ExpectedRow(env: Env, p: Prepared, name: Path): Row {
    if name == Record(p) then Row(name, "", "") else RowFor(env, name, ContentsOf(p, name))
  }

  /** The table has one row for each file of the wheel, with digest and size of what its own installation wrote there. */
  lemma AllRowsSpec(env: Env, p: Prepared)
    requires !p.reuseRecord
    ensures forall name :: name in AllRows(env, p).table <==> Owns(p, name)
    ensures forall name :: name in AllRows(env, p).table ==>
      var row := AllRows(env, p).table[name];
      row.name == name && Says(env, p.distInfo + ["RECORD"], row, ContentsOf(p, name))
  {
    hide AllRows, Owns, ContentsOf, RowFor, Says;
    forall name
      ensures name in AllRows(env, p).table <==> Owns(p, name)
      ensures name in AllRows(env, p).table ==>
        AllRows(env, p).table[name].name == name
        && Says(env, p.distInfo + ["RECORD"], AllRows(env, p).table[name], ContentsOf(p, name))
    {
      AllRowsAt(env, p, name);
      ExpectedSays(env, p, name);
    }
  }

  lemma ExpectedSays(env: Env, p: Prepared, name: Path)
    ensures ExpectedRow(env, p, name).name == name
    ensures Says(env, p.distInfo + ["RECORD"], ExpectedRow(env, p, name), ContentsOf(p, name))
  {
    hide ContentsOf;
    if name != Record(p) { RowSays(env, Record(p), name, ContentsOf(p, name), ContentsOf(p, name)); }
  }

  lemma AllRowsAt(env: Env, p: Prepared, name: Path)
    requires !p.reuseRecord
    ensures name in AllRows(env, p).table <==> Owns(p, name)
    ensures name in AllRows(env, p).table ==> AllRows(env, p).table[name] == ExpectedRow(env, p, name)
  {
    hide Normal, RowFor, LastWritten, Ships, MemberRows, Installer, Requested, Record, RowsNamed, AllRows;
    MemberRowsAt(env, p, name);
    AllRowsTable(env, p);
    GeneratedDiffer(p);
  }

  lemma {:induction false} MemberRowsAt(env: Env, p: Prepared, name: Path)
    ensures var rows := MemberRows(env, p, p.members).table;
      && (name in rows <==> name != Record(p) && Ships(p.members, name))
      && (name in rows ==> rows[name] == RowFor(env, name, LastWritten(p.members, name)))
  {
    hide Normal, RowFor, LastWritten, Ships, MemberRows, Record;
    MemberRowsSpec(env, p, p.members);
  }

  lemma {:induction false} AllRowsTable(env: Env, p: Prepared)
    ensures var rows := MemberRows(env, p, p.members).table[Installer(p) := RowFor(env, Installer(p), INSTALLER_TEXT)];
      AllRows(env, p).table ==
        (if p.requested then rows[Requested(p) := RowFor(env, Requested(p), [])] else rows)[Record(p) := Row(Record(p), "", "")]
  {
    hide Normal, RowFor, MemberRows, Installer, Requested, Record;
    RowForName(env, Installer(p), INSTALLER_TEXT);
    RowForName(env, Requested(p), []);
  }

  /** The disk still holds, for every file the RECORD hashes, contents of the recorded digest and size. */
  ghost predicate Undisturbed(env: Env, p: Prepared, disk: Disk) {
    forall file | Owns(p, file) :: file in disk && (file != Record(p) ==> Alike(env, disk[file], ContentsOf(p, file)))
  }

  predicate Alike(env: Env, a: Bytes, b: Bytes) {
    env.sha256(a) == env.sha256(b) && |a| == |b|
  }

  /** The generated rows describe the disk exactly when the files of the wheel were left undisturbed. */
  lemma ListsIffUndisturbed(env: Env, p: Prepared, disk: Disk)
    requires !p.reuseRecord
    ensures Lists(env, p, disk, SortedRows(AllRows(env, p))) <==> Undisturbed(env, p, disk)
  {
    hide AllRows, ContentsOf, NameOrder, SortedRows, Record, Owns, Says, Alike;
    var t := AllRows(env, p);
    var rows := SortedRows(t);
    AllRowsOwned(env, p);
    SortedRowsSpec(t);
    if Lists(env, p, disk, rows) {
      forall file | Owns(p, file) ensures file in disk && (file != Record(p) ==> Alike(env, disk[file], ContentsOf(p, file))) {
        var i :| 0 <= i < |rows| && rows[i].name == file;
        assert rows[i] == t.table[file];
        RowOnDisk(env, p, file, disk);
      }
    }
    if Undisturbed(env, p, disk) {
      forall i | 0 <= i < |rows|
        ensures Owns(p, rows[i].name) && rows[i].name in disk
        ensures Says(env, p.distInfo + ["RECORD"], rows[i], disk[rows[i].name])
      {
        assert rows[i].name in t.table;
        RowOnDisk(env, p, rows[i].name, disk);
      }
    }
  }

  lemma AllRowsOwned(env: Env, p: Prepared)
    requires !p.reuseRecord
    ensures forall name :: name in AllRows(env, p).table <==> Owns(p, name)
  {
    hide AllRows, Owns, Says;
    AllRowsSpec(env, p);
  }

  /** The row of a file says what is on disk exactly if that has the recorded digest and size. */
  lemma RowOnDisk(env: Env, p: Prepared, file: Path, disk: Disk)
    requires !p.reuseRecord && Owns(p, file) && file in disk
    ensures file in AllRows(env, p).table
    ensures Says(env, p.distInfo + ["RECORD"], AllRows(env, p).table[file], disk[file]) <==>
      (file != Record(p) ==> Alike(env, disk[file], ContentsOf(p, file)))
  {
    hide AllRows, ContentsOf, Owns;
    AllRowsAt(env, p, file);
    if file != Record(p) { RowSays(env, Record(p), file, ContentsOf(p, file), disk[file]); }
  }

  // ---------- The whole plan ----------

  /** No file belongs to two wheels. */
  ghost predicate Disjoint(plan: seq<Prepared>) {
    forall i, j, file :: 0 <= i < j < |plan| ==> !(Owns(plan[i], file) && Owns(plan[j], file))
  }

  lemma {:induction false} PlanOnDisk(env: Env, plan: seq<Prepared>, file: Path)
    requires forall i :: 0 <= i < |plan| ==> NormalDistInfo(plan[i])
    requires Disjoint(plan)
    ensures file in WriteAll(env, plan, map[]) <==> exists i :: 0 <= i < |plan| && Owns(plan[i], file)
    ensures forall i :: 0 <= i < |plan| && Owns(plan[i], file) ==>
      WriteAll(env, plan, map[])[file] == Installed(env, plan[i], file)
  {
    hide Owns, Installed, WriteWheel;
    if plan != [] {
      var front, last := plan[..|plan| - 1], plan[|plan| - 1];
      forall i | 0 <= i < |front| ensures front[i] == plan[i] { }
      PlanOnDisk(env, front, file);
      WheelOnDisk(env, last, WriteAll(env, front, map[]), file);
      if i :| 0 <= i < |front| && Owns(front[i], file) {
        assert Owns(plan[i], file);
        assert !Owns(plan[|front|], file);
      }
      assert Owns(last, file) ==> Owns(plan[|front|], file);
    }
  }

  /**
    After a plan whose wheels share no file, the target holds exactly the files of the wheels, and
    each generated RECORD lists the files of its wheel with the digests and sizes that are on disk.
  */
  lemma {:induction false} RecordsDescribeDisk(env: Env, plan: seq<Prepared>, i: nat)
    requires forall k :: 0 <= k < |plan| ==> NormalDistInfo(plan[k])
    requires Disjoint(plan) && i < |plan| && !plan[i].reuseRecord
    ensures var disk := WriteAll(env, plan, map[]); var rows := SortedRows(AllRows(env, plan[i]));
      && Record(plan[i]) in disk && disk[Record(plan[i])] == env.render(rows)
      && Lists(env, plan[i], disk, rows)
  {
    hide WriteAll, AllRows, Record, RowFor, ContentsOf, Ships;
    var disk := WriteAll(env, plan, map[]);
    forall file | Owns(plan[i], file)
      ensures file in disk && disk[file] == Installed(env, plan[i], file)
    {
      PlanOnDisk(env, plan, file);
    }
    assert Owns(plan[i], Record(plan[i]));
    ListsIffUndisturbed(env, plan[i], disk);
  }

  // ---------- Conditions on the wheels ----------

  predicate AllNormal(archives: seq<Archive>) {
    forall i, k :: 0 <= i < |archives| && 0 <= k < |Files(archives[i].entries)| ==>
      Normal(Files(archives[i].entries)[k].name) == Files(archives[i].entries)[k].name
  }

  /** No wheel ships a file into the dist-info directory of another. */
  predicate OwnDistInfo(plan: seq<Prepared>) {
    forall i, j, k :: 0 <= i < |plan| && 0 <= j < |plan| && i != j && 0 <= k < |plan[j].members| ==>
      !(plan[i].distInfo <= plan[j].members[k].name)
  }

  lemma {:induction false} NormalShape(name: Path)
    ensures |Normal(name)| <= |name|
    ensures Normal(name) == name <==> forall i :: 0 <= i < |name| ==> name[i] != "" && name[i] != "."
  {
    if name != [] {
      NormalShape(name[1..]);
      assert name == [name[0]] + name[1..];
    }
  }

  lemma {:induction false} WheelFilesAre(members: seq<Member>)
    ensures forall m :: m in WheelFiles(members) ==> m in members && IsWheelFile(m.name)
  {
    if members != [] {
      WheelFilesAre(members[1..]);
      assert members == [members[0]] + members[1..];
    }
  }

  /** The wheel's dist-info directory is the parent of its one WHEEL file. */
  lemma DistInfoHolds(env: Env, archive: Archive) returns (k: nat)
    requires WheelAccepted(env, archive)
    ensures var p := PrepareWheel(env, archive);
      k < |p.members| && p.members[k].name == p.distInfo + ["WHEEL"]
  {
    hide Files, Installable, IsWheelFile, ShipsRecord;
    var members := Files(archive.entries);
    WheelFilesAre(members);
    var m := WheelFiles(members)[0];
    assert m in WheelFiles(members);
    k :| 0 <= k < |members| && members[k] == m;
    WheelFileName(m.name);
  }

  lemma WheelFileName(name: Path)
    requires IsWheelFile(name)
    ensures name == Parent(name) + ["WHEEL"]
  {
  }

  /** Distinct destinations across the plan. */
  lemma {:induction false} DistinctAcross(archives: seq<Archive>, i: nat, j: nat, k: nat, l: nat)
    requires Unused({}, AllFiles(archives)) && i < j < |archives|
    requires k < |Files(archives[i].entries)| && l < |Files(archives[j].entries)|
    ensures Files(archives[i].entries)[k].name != Files(archives[j].entries)[l].name
    decreases |archives|
  {
    var front := archives[..|archives| - 1];
    var head, tail := AllFiles(front), Files(archives[|archives| - 1].entries);
    if j < |front| {
      UnusedPrefix({}, head, tail);
      DistinctAcross(front, i, j, k, l);
    } else {
      var n := Position(front, i, k);
      assert (head + tail)[n].name != (head + tail)[|head| + l].name;
    }
  }

  lemma {:induction false} Position(archives: seq<Archive>, i: nat, k: nat) returns (n: nat)
    requires i < |archives| && k < |Files(archives[i].entries)|
    ensures n < |AllFiles(archives)| && AllFiles(archives)[n] == Files(archives[i].entries)[k]
    decreases |archives|
  {
    var front := archives[..|archives| - 1];
    if i < |front| {
      n := Position(front, i, k);
    } else {
      n := |AllFiles(front)| + k;
    }
  }

  /** The conditions of the documentation rule out any sharing of files. */
  lemma OwnFilesOnly(env: Env, archives: seq<Archive>)
    requires Accepted(env, archives) && AllNormal(archives) && OwnDistInfo(PrepareAll(env, archives))
    ensures var plan := PrepareAll(env, archives);
      Disjoint(plan) && forall i :: 0 <= i < |plan| ==> NormalDistInfo(plan[i])
  {
    hide WheelAccepted, Files, Unused;
    var plan := PrepareAll(env, archives);
    forall i | 0 <= i < |plan| ensures NormalDistInfo(plan[i]) {
      var k := DistInfoHolds(env, archives[i]);
      PreparedMembers(env, archives[i]);
      var name := plan[i].members[k].name;
      NormalShape(name);
      NormalShape(plan[i].distInfo);
      assert forall c :: 0 <= c < |plan[i].distInfo| ==> plan[i].distInfo[c] == name[c];
    }
    forall i, j, file | 0 <= i < j < |plan| ensures !(Owns(plan[i], file) && Owns(plan[j], file)) {
      PairDisjoint(env, archives, i, j, file);
    }
  }

  /** A file generated in one dist-info directory does not belong to a wheel that keeps out of it. */
  lemma KeepsOut(p: Prepared, q: Prepared, w: nat, file: Path)
    requires forall k :: 0 <= k < |q.members| ==> Normal(q.members[k].name) == q.members[k].name
    requires forall k :: 0 <= k < |q.members| ==> !(p.distInfo <= q.members[k].name)
    requires w < |q.members| && q.members[w].name == q.distInfo + ["WHEEL"]
    requires Generated(p, file)
    ensures !Owns(q, file)
  {
    hide Normal, Generated;
    GeneratedParent(p, file);
    GeneratedParent(q, file);
    assert p.distInfo != q.distInfo by { assert q.distInfo <= q.members[w].name; }
  }

  lemma GeneratedParent(p: Prepared, file: Path)
    ensures Generated(p, file) ==> p.distInfo <= file && Parent(file) == p.distInfo
  {
  }

  lemma PairDisjoint(env: Env, archives: seq<Archive>, i: nat, j: nat, file: Path)
    requires Accepted(env, archives) && AllNormal(archives) && OwnDistInfo(PrepareAll(env, archives))
    requires i < j < |archives|
    ensures !(Owns(PrepareAll(env, archives)[i], file) && Owns(PrepareAll(env, archives)[j], file))
  {
    hide Files, Unused, WheelFiles, Normal, Generated, WheelAccepted;
    var plan := PrepareAll(env, archives);
    var p, q := plan[i], plan[j];
    PreparedMembers(env, archives[i]);
    PreparedMembers(env, archives[j]);
    var v := DistInfoHolds(env, archives[i]);
    var w := DistInfoHolds(env, archives[j]);
    if Generated(p, file) {
      KeepsOut(p, q, w, file);
    } else if Generated(q, file) {
      KeepsOut(q, p, v, file);
    } else {
      forall k, l | 0 <= k < |p.members| && 0 <= l < |q.members|
        ensures Normal(p.members[k].name) != Normal(q.members[l].name)
      {
        DistinctAcross(archives, i, j, k, l);
      }
    }
  }

  /**
    For wheels whose member names are in normal form and that keep out of each other's dist-info
    directories, a successful installation leaves exactly their files, and every generated RECORD
    lists its wheel's files with the digests and sizes on disk.
  */
  lemma {:induction false} InstallRecords(env: Env, archives: seq<Archive>, i: nat)
    requires Accepted(env, archives) && AllNormal(archives) && OwnDistInfo(PrepareAll(env, archives))
    requires i < |archives|
    ensures var plan := PrepareAll(env, archives); var disk := WriteAll(env, plan, map[]);
      && (forall file :: file in disk <==> exists k :: 0 <= k < |plan| && Owns(plan[k], file))
      && (!plan[i].reuseRecord ==>
           && Record(plan[i]) in disk && disk[Record(plan[i])] == env.render(SortedRows(AllRows(env, plan[i])))
           && Lists(env, plan[i], disk, SortedRows(AllRows(env, plan[i]))))
  {
    hide WheelAccepted, Unused, AllNormal, OwnDistInfo, WriteAll, Lists, AllRows, Owns, Record;
    OwnFilesOnly(env, archives);
    var plan := PrepareAll(env, archives);
    PlanLength(env, archives);
    forall file ensures file in WriteAll(env, plan, map[]) <==> exists k :: 0 <= k < |plan| && Owns(plan[k], file) {
      PlanOnDisk(env, plan, file);
    }
    if !plan[i].reuseRecord {
      RecordsDescribeDisk(env, plan, i);
    }
  }

  lemma PlanLength(env: Env, archives: seq<Archive>)
    requires Accepted(env, archives)
    ensures |PrepareAll(env, archives)| == |archives|
  {
  }
}
