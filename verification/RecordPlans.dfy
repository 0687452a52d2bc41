/**
  Exactly when the RECORD generated for a wheel is right after the whole plan is installed, for any
  wheels, and two pairs of acceptable wheels for which it is not.
*/
module RecordPlans {
  import opened Wrappers
  import opened RecordInstall
  import opened InstalledRecords

  // ---------- What a plan leaves on disk ----------

  /** The files the installation of a wheel writes. */
  predicate Writes(p: Prepared, file: Path) {
    || Ships(p.members, file)
    || file == Normal(Installer(p))
    || (p.requested && file == Normal(Requested(p)))
    || (!p.reuseRecord && file == Normal(Record(p)))
  }

  /** What it leaves in them. */
  function Leaves(env: Env, p: Prepared, file: Path): Bytes {
    if !p.reuseRecord && file == Normal(Record(p)) then env.render(SortedRows(AllRows(env, p)))
    else if p.requested && file == Normal(Requested(p)) then []
    else if file == Normal(Installer(p)) then INSTALLER_TEXT
    else LastWritten(p.members, file)
  }

  lemma GeneratedNormal(p: Prepared)
    ensures Normal(Installer(p)) != Normal(Requested(p)) && Normal(Installer(p)) != Normal(Record(p))
    ensures Normal(Requested(p)) != Normal(Record(p))
    ensures Normal(Installer(p)) == Normal(p.distInfo) + ["INSTALLER"]
    ensures Normal(Requested(p)) == Normal(p.distInfo) + ["REQUESTED"]
    ensures Normal(Record(p)) == Normal(p.distInfo) + ["RECORD"]
  {
    NormalAppend(p.distInfo, "INSTALLER");
    NormalAppend(p.distInfo, "REQUESTED");
    NormalAppend(p.distInfo, "RECORD");
    hide Normal;
    var n := |Normal(p.distInfo)|;
    assert Normal(Installer(p))[n] == "INSTALLER" && Normal(Requested(p))[n] == "REQUESTED" && Normal(Record(p))[n] == "RECORD";
    assert |"INSTALLER"| == 9 && |"REQUESTED"| == 9 && |"RECORD"| == 6 && "INSTALLER"[0] == 'I';
  }

  lemma WheelWrites(env: Env, p: Prepared, disk: Disk, file: Path)
    ensures file in WriteWheel(env, p, disk) <==> file in disk || Writes(p, file)
    ensures file in WriteWheel(env, p, disk) ==>
      WriteWheel(env, p, disk)[file] == if Writes(p, file) then Leaves(env, p, file) else disk[file]
  {
    hide AllRows, LastWritten, Normal, Ships, Installer, Requested, Record;
    GeneratedNormal(p);
    MembersOnDisk(p.members, disk, file);
  }

  /** The last wheel in plan order that writes the file. */
  function LastWriter(plan: seq<Prepared>, file: Path): (j: Option<nat>)
    ensures j.Some? ==> j.value < |plan| && Writes(plan[j.value], file)
    ensures forall k :: 0 <= k < |plan| && Writes(plan[k], file) ==> j.Some? && k <= j.value
  {
    if plan == [] then None
    else if Writes(plan[|plan| - 1], file) then Some(|plan| - 1)
    else LastWriter(plan[..|plan| - 1], file)
  }

  /** After the plan a file holds what its last writer leaves in it. */
  lemma {:induction false} LastWriterDecides(env: Env, plan: seq<Prepared>, file: Path)
    ensures var j := LastWriter(plan, file); var disk := WriteAll(env, plan, map[]);
      && (file in disk <==> j.Some?)
      && (j.Some? ==> disk[file] == Leaves(env, plan[j.value], file))
  {
    hide Writes, Leaves, WriteWheel;
    if plan != [] {
      var front, last := plan[..|plan| - 1], plan[|plan| - 1];
      LastWriterDecides(env, front, file);
      WheelWrites(env, last, WriteAll(env, front, map[]), file);
    }
  }

  // ---------- When a RECORD is right ----------

  /** The RECORD of the wheel is on disk as it was generated, and says of each of its files what is on disk. */
  ghost predicate RecordRight(env: Env, p: Prepared, disk: Disk) {
    var rows := SortedRows(AllRows(env, p));
    Record(p) in disk && disk[Record(p)] == env.render(rows) && Lists(env, p, disk, rows)
  }

  /** Wheel `q` leaves in the file what the RECORD of `p` says of it. */
  predicate Agrees(env: Env, p: Prepared, q: Prepared, file: Path) {
    if file == Record(p) then Leaves(env, q, file) == env.render(SortedRows(AllRows(env, p)))
    else Alike(env, Leaves(env, q, file), ContentsOf(p, file))
  }

  /** Each file of wheel `i` is last written by a wheel that leaves the recorded digest and size. */
  ghost predicate LastWritersAgree(env: Env, plan: seq<Prepared>, i: nat)
    requires i < |plan|
  {
    forall file | Owns(plan[i], file) ::
      LastWriter(plan, file).Some? && Agrees(env, plan[i], plan[LastWriter(plan, file).value], file)
  }

  /** Components that designate nothing keep a name off the disk. */
  lemma {:induction false} NormalIsNormal(name: Path)
    ensures Normal(Normal(name)) == Normal(name)
  {
    if name != [] {
      NormalIsNormal(name[1..]);
      if name[0] != "" && name[0] != "." {
        assert Normal(name)[1..] == Normal(name[1..]);
      }
    }
  }

  lemma {:induction false} WrittenIsNormal(p: Prepared, file: Path)
    ensures Writes(p, file) ==> Normal(file) == file
  {
    hide Normal;
    NormalIsNormal(Installer(p));
    NormalIsNormal(Requested(p));
    NormalIsNormal(Record(p));
    if Ships(p.members, file) {
      var i :| 0 <= i < |p.members| && Normal(p.members[i].name) == file;
      NormalIsNormal(p.members[i].name);
    }
  }

  lemma RecordNotNormal(p: Prepared)
    ensures Normal(Record(p)) == Record(p) ==> NormalDistInfo(p)
  {
    hide Normal;
    GeneratedNormal(p);
    if Normal(Record(p)) == Record(p) {
      assert Normal(p.distInfo) == Normal(Record(p))[..|Normal(Record(p))| - 1];
      assert p.distInfo == Record(p)[..|Record(p)| - 1];
    }
  }

  /**
    For any plan: the RECORD generated for wheel `i` is right exactly when, for each file of the wheel,
    the last wheel in plan order that writes the file leaves the recorded digest and size (for RECORD
    itself, the recorded text). A file that is not its own normal form is written by no wheel.
  */
  lemma {:induction false} RecordRightIff(env: Env, plan: seq<Prepared>, i: nat)
    requires i < |plan| && !plan[i].reuseRecord
    ensures RecordRight(env, plan[i], WriteAll(env, plan, map[])) <==> LastWritersAgree(env, plan, i)
  {
    hide WriteAll, AllRows, Record, RowFor, ContentsOf, Ships, Leaves, Writes, Owns, SortedRows, Lists;
    var p, disk := plan[i], WriteAll(env, plan, map[]);
    ListsIffUndisturbed(env, p, disk);
    OwnsRecord(p);
    forall file | Owns(p, file)
      ensures file in disk <==> LastWriter(plan, file).Some?
      ensures file in disk ==> disk[file] == Leaves(env, plan[LastWriter(plan, file).value], file)
    {
      LastWriterDecides(env, plan, file);
    }
  }

  lemma OwnsRecord(p: Prepared)
    requires !p.reuseRecord
    ensures Owns(p, Record(p))
  {
  }

  /** So a wheel whose dist-info directory is spelled with empty or `.` components never gets a right RECORD. */
  lemma {:induction false} AliasedDistInfo(env: Env, plan: seq<Prepared>, i: nat)
    requires i < |plan| && !plan[i].reuseRecord && !NormalDistInfo(plan[i])
    ensures !RecordRight(env, plan[i], WriteAll(env, plan, map[]))
  {
    hide Normal, AllRows, Leaves, Writes, SortedRows, Record, NormalDistInfo;
    RecordRightIff(env, plan, i);
    OwnsRecord(plan[i]);
    RecordNotNormal(plan[i]);
    forall q ensures Writes(q, Record(plan[i])) ==> Normal(Record(plan[i])) == Record(plan[i]) {
      WrittenIsNormal(q, Record(plan[i]));
    }
  }

  // ---------- Acceptable wheels with a wrong RECORD ----------

  /** Two projects, `a` and `b`; the second ships a file of the given name. */
  function TwoWheels(wheel: Bytes, name: Path): seq<Archive> {
    [Archive([Member(["a.dist-info", "WHEEL"], wheel), Member(["m"], [])], false),
     Archive([Member(["b.dist-info", "WHEEL"], wheel), Member(name, [0x78])], false)]
  }

  function PlanA(wheel: Bytes): Prepared {
    Prepared(["a.dist-info"], false, false, [Member(["a.dist-info", "WHEEL"], wheel), Member(["m"], [])])
  }

  function PlanB(wheel: Bytes, name: Path): Prepared {
    Prepared(["b.dist-info"], false, false, [Member(["b.dist-info", "WHEEL"], wheel), Member(name, [0x78])])
  }

  /** Two spellings of the file `m`, and a file in the dist-info directory of the other project. */
  const ALIAS: Path := [".", "m"]
  const FOREIGN: Path := ["a.dist-info", "INSTALLER"]

  lemma DistInfoText()
    ensures EndsWith("a.dist-info", ".dist-info") && EndsWith("b.dist-info", ".dist-info")
    ensures !EndsWith("a.dist-info", ".data") && !EndsWith("b.dist-info", ".data") && !EndsWith("m", ".data") && !EndsWith(".", ".data")
  {
    assert "a.dist-info"[1..] == ".dist-info" && "b.dist-info"[1..] == ".dist-info";
    assert "a.dist-info"[6] == '-' && "b.dist-info"[6] == '-' && ".data"[0] == '.';
  }

  lemma NameTexts()
    ensures "WHEEL" != "" && "INSTALLER" != "" && "m" != "" && "WHEEL" != "entry_points.txt" && "INSTALLER" != "entry_points.txt"
    ensures "m" != "entry_points.txt" && "m" != "WHEEL" && "INSTALLER" != "WHEEL" && "WHEEL" != "RECORD" && "INSTALLER" != "RECORD"
    ensures "a.dist-info" != "b.dist-info" && "." != "a.dist-info" && "m" != "a.dist-info" && "m" != "b.dist-info"
    ensures "a.dist-info" != "" && "b.dist-info" != "" && "a.dist-info" != "." && "b.dist-info" != "." && "m" != "."
    ensures forall s | s in {"WHEEL", "INSTALLER", "m", "a.dist-info", "b.dist-info", "."} :: s != ".." && !HasBackslash(s) && s != ".data"
  {
    assert |"WHEEL"| == 5 && |"INSTALLER"| == 9 && |"m"| == 1 && |"entry_points.txt"| == 16 && |"RECORD"| == 6;
    assert "a.dist-info"[0] == 'a' && "b.dist-info"[0] == 'b' && "."[0] == '.' && "m"[0] == 'm' && |".."| == 2 && |"a.dist-info"| == 11;
    assert "WHEEL"[0] == 'W' && |".data"| == 5 && ".data"[0] == '.';
  }

  predicate ExtraName(name: Path) {
    name == ALIAS || name == FOREIGN
  }

  lemma MembersPass(wheel: Bytes, name: Path)
    requires ExtraName(name)
    ensures var a, b := PlanA(wheel).members, PlanB(wheel, name).members;
      && Files(a) == a && Files(b) == b
      && (forall i :: 0 <= i < 2 ==> Installable(a[i].name) && Installable(b[i].name))
      && WheelFiles(a) == [a[0]] && WheelFiles(b) == [b[0]]
  {
    hide EndsWith, HasBackslash;
    DistInfoText();
    NameTexts();
    var a, b := PlanA(wheel).members, PlanB(wheel, name).members;
    assert a[1..] == [a[1]] && b[1..] == [b[1]] && [a[1]][1..] == [] && [b[1]][1..] == [];
    assert WheelFiles([]) == [] && Files([]) == [];
  }

  /** Both pairs pass all checks, whatever text counts as a purelib WHEEL file. */
  lemma TwoWheelsAccepted(env: Env, wheel: Bytes, name: Path)
    requires env.isPurelib(wheel) && ExtraName(name)
    ensures Accepted(env, TwoWheels(wheel, name))
    ensures PrepareAll(env, TwoWheels(wheel, name)) == [PlanA(wheel), PlanB(wheel, name)]
  {
    hide WheelAccepted, PrepareWheel, Files, Unused, AllFiles;
    EachAccepted(env, wheel, name);
    FilesOfBoth(wheel, name);
    NamesDiffer(wheel, name);
  }

  lemma FilesOfBoth(wheel: Bytes, name: Path)
    requires ExtraName(name)
    ensures AllFiles(TwoWheels(wheel, name)) == PlanA(wheel).members + PlanB(wheel, name).members
  {
    hide Files;
    MembersPass(wheel, name);
    var archives := TwoWheels(wheel, name);
    assert archives[..1] == [archives[0]] && [archives[0]][..0] == [];
    assert AllFiles([]) == [] && AllFiles([archives[0]]) == [] + Files(archives[0].entries);
  }

  lemma NamesDiffer(wheel: Bytes, name: Path)
    requires ExtraName(name)
    ensures Unused({}, PlanA(wheel).members + PlanB(wheel, name).members)
  {
    NameTexts();
    var all := PlanA(wheel).members + PlanB(wheel, name).members;
    assert all[0].name == ["a.dist-info", "WHEEL"] && all[1].name == ["m"] && all[2].name == ["b.dist-info", "WHEEL"];
    assert all[3].name == name && |all| == 4;
    assert all[0].name[1] == "WHEEL" && all[0].name[0] == "a.dist-info" && all[2].name[0] == "b.dist-info";
    assert ALIAS[0] == "." && FOREIGN[1] == "INSTALLER" && FOREIGN[0] == "a.dist-info";
  }

  lemma EachAccepted(env: Env, wheel: Bytes, name: Path)
    requires env.isPurelib(wheel) && ExtraName(name)
    ensures var archives := TwoWheels(wheel, name);
      && WheelAccepted(env, archives[0]) && PrepareWheel(env, archives[0]) == PlanA(wheel)
      && WheelAccepted(env, archives[1]) && PrepareWheel(env, archives[1]) == PlanB(wheel, name)
  {
    hide Files, WheelFiles, Installable;
    MembersPass(wheel, name);
    NameTexts();
    var a, b := PlanA(wheel).members, PlanB(wheel, name).members;
    assert Parent(a[0].name) == ["a.dist-info"] && Parent(b[0].name) == ["b.dist-info"];
    assert ["a.dist-info"] + ["RECORD"] == ["a.dist-info", "RECORD"] && ["b.dist-info"] + ["RECORD"] == ["b.dist-info", "RECORD"];
  }

  lemma NormalTwo(x: string, y: string)
    requires x != "" && y != "" && x != "." && y != "."
    ensures Normal([x, y]) == [x, y] && Normal([y]) == [y] && Normal([".", y]) == [y]
  {
    assert [x, y][1..] == [y] && [y][1..] == [] && [".", y][1..] == [y];
    assert Normal([y]) == [y] + Normal([]) && Normal([x, y]) == [x] + Normal([y]);
  }

  /** The file both wheels write: `m`, or the INSTALLER of project `a`. */
  function Contested(name: Path): Path {
    if name == ALIAS then ["m"] else FOREIGN
  }

  lemma BothWrite(env: Env, wheel: Bytes, name: Path)
    requires ExtraName(name)
    ensures var file := Contested(name);
      && Owns(PlanA(wheel), file) && Writes(PlanB(wheel, name), file)
      && Leaves(env, PlanB(wheel, name), file) == [0x78]
      && |ContentsOf(PlanA(wheel), file)| != 1 && file != Record(PlanA(wheel))
  {
    NameTexts();
    NormalTwo("a.dist-info", "INSTALLER");
    NormalTwo("b.dist-info", "m");
    var a, b, file := PlanA(wheel), PlanB(wheel, name), Contested(name);
    GeneratedNormal(b);
    NormalTwo("b.dist-info", "WHEEL");
    assert Normal(b.members[1].name) == file;
    assert b.distInfo == ["b.dist-info"] && Normal(b.distInfo) == ["b.dist-info"];
    if name == ALIAS { assert Normal(a.members[1].name) == file; }
  }

  /** The places at which the two wheels write. */
  predicate Flat(file: Path) {
    file == ["m"] || (|file| == 2 && file[0] in {"a.dist-info", "b.dist-info"})
  }

  lemma WritesFlat(wheel: Bytes, name: Path, file: Path)
    requires ExtraName(name)
    ensures Writes(PlanA(wheel), file) || Writes(PlanB(wheel, name), file) ==> Flat(file)
  {
    hide Normal;
    NameTexts();
    var a, b := PlanA(wheel), PlanB(wheel, name);
    NormalTwo("a.dist-info", "WHEEL");
    NormalTwo("b.dist-info", "WHEEL");
    NormalTwo("a.dist-info", "INSTALLER");
    NormalTwo("a.dist-info", "a.dist-info");
    NormalTwo("a.dist-info", "b.dist-info");
    NormalTwo("a.dist-info", "m");
    GeneratedNormal(a);
    GeneratedNormal(b);
  }

  lemma {:induction false} FlatWritable(env: Env, wheel: Bytes, name: Path)
    requires ExtraName(name)
    ensures Writable(env, [PlanA(wheel), PlanB(wheel, name)])
  {
    hide Writes, WriteAll;
    NameTexts();
    var plan := [PlanA(wheel), PlanB(wheel, name)];
    forall file | file in WriteAll(env, plan, map[]) ensures Flat(file) {
      LastWriterDecides(env, plan, file);
      WritesFlat(wheel, name, file);
    }
  }

  /**
    Wheels whose installation succeeds and that overwrite a file of another: through a second spelling of its name, or by
    shipping a file into the other's dist-info directory. The first wheel's RECORD is wrong.
  */
  lemma {:induction false} SharedFilesBreakRecord(env: Env, wheel: Bytes, name: Path)
    requires env.isPurelib(wheel) && name in {ALIAS, FOREIGN}
    ensures var archives := TwoWheels(wheel, name);
      && Accepted(env, archives) && Writable(env, PrepareAll(env, archives))
      && !PrepareAll(env, archives)[0].reuseRecord
      && !RecordRight(env, PrepareAll(env, archives)[0], WriteAll(env, PrepareAll(env, archives), map[]))
  {
    hide Owns, Writes, Leaves, ContentsOf, RecordRight, WriteAll, Writable;
    FlatWritable(env, wheel, name);
    TwoWheelsAccepted(env, wheel, name);
    var plan, file := [PlanA(wheel), PlanB(wheel, name)], Contested(name);
    BothWrite(env, wheel, name);
    RecordRightIff(env, plan, 0);
    assert plan[1] == PlanB(wheel, name);
    assert LastWriter(plan, file) == Some(1);
    assert !Agrees(env, plan[0], plan[1], file);
  }
}
