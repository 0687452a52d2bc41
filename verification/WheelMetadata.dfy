/**
  Reading the resolver's headers out of wheel metadata.

  `FullParse` is the folding, case-insensitive reading of all lines of the document. The program
  splits only the header region and first tries a loop that gives up on anything unusual;
  `ParseMetadataHeaders` shows that neither changes the result, and `ParseRendered` what the result is.
*/
module WheelMetadata {
  import opened Wrappers
  import Text

  type Headers = map<string, seq<string>>

  const RESOLUTION := {"name", "version", "requires-dist", "provides-extra", "requires-python"}

  const FAST := map[
    "Name" := "name",
    "Version" := "version",
    "Requires-Dist" := "requires-dist",
    "Provides-Extra" := "provides-extra",
    "Requires-Python" := "requires-python"]

  // ---------- Lines ----------

  /** The ASCII characters at which `str.splitlines` splits. */
  predicate IsBreak(c: char) {
    '\n' <= c <= '\r' || '\U{1c}' <= c <= '\U{1e}'
  }

  function BreakLength(s: string): (n: nat)
    requires s != ""
    ensures 1 <= n <= |s|
  {
    if |s| > 1 && s[0] == '\r' && s[1] == '\n' then 2 else 1
  }

  function LineLength(s: string): (n: nat)
    ensures n <= |s|
    ensures forall i :: 0 <= i < n ==> !IsBreak(s[i])
    ensures n < |s| ==> IsBreak(s[n])
  {
    if s == "" || IsBreak(s[0]) then 0 else 1 + LineLength(s[1..])
  }

  /** `str.splitlines`. */
  function SplitLines(s: string): seq<string>
    decreases |s|
  {
    var n := LineLength(s);
    if s == "" then []
    else if n == |s| then [s]
    else [s[..n]] + SplitLines(s[n..][BreakLength(s[n..])..])
  }

  /** `_header_end`: the first blank line, or the length of the text when there is none. */
  function HeaderEnd(contents: string): (n: nat)
    ensures n <= |contents|
    ensures n < |contents| ==> BlankLineFollows(contents[n..])
  {
    match (Text.Find(contents, "\n\n"), Text.Find(contents, "\r\n\r\n"))
    case (None, None) => |contents|
    case (Some(lf), None) => lf
    case (None, Some(crlf)) => crlf
    case (Some(lf), Some(crlf)) => if lf <= crlf then lf else crlf
  }

  /** Where `str.partition(":")` splits. */
  function Colon(s: string): (n: nat)
    ensures n <= |s|
    ensures forall i :: 0 <= i < n ==> s[i] != ':'
    ensures n < |s| ==> s[n] == ':'
  {
    if s == "" || s[0] == ':' then 0 else 1 + Colon(s[1..])
  }

  predicate Indented(line: string) {
    line != "" && Text.IsSpace(line[0])
  }

  // ---------- The two readings ----------

  function Append(headers: Headers, key: string, value: string): Headers {
    headers[key := (if key in headers then headers[key] else []) + [value]]
  }

  /** The first loop; `None` when it gives up. */
  function FastLines(lines: seq<string>, headers: Headers): Option<Headers>
    decreases |lines|
  {
    if lines == [] || lines[0] == "" then Some(headers)
    else
      var line, n := lines[0], Colon(lines[0]);
      if Indented(line) || n == |line| then None
      else
        var name := line[..n];
        if name in FAST then FastLines(lines[1..], Append(headers, FAST[name], Text.LStrip(line[n + 1..])))
        else if name != "" && name[0] in "NnVvRrPp" && Text.Lower(name) in RESOLUTION then None
        else FastLines(lines[1..], headers)
  }

  /** The state of the second loop; `current` is the field whose last value a continuation line extends. */
  datatype Full = Full(headers: Headers, current: Option<string>, sawHeader: bool) {
    predicate Valid() {
      current.Some? ==> current.value in headers && headers[current.value] != []
    }
  }

  function Extend(headers: Headers, key: string, line: string): Headers
    requires key in headers && headers[key] != []
  {
    var values := headers[key];
    headers[key := values[|values| - 1 := values[|values| - 1] + "\n" + line]]
  }

  /** One line of the second loop; `None` where it stops. */
  function FullStep(f: Full, line: string): (next: Option<Full>)
    requires f.Valid()
    ensures next.Some? ==> next.value.Valid()
  {
    var n := Colon(line);
    if Indented(line) then
      if f.current.Some? then Some(f.(headers := Extend(f.headers, f.current.value, line)))
      else if f.sawHeader then Some(f)
      else None
    else if n == |line| then None
    else
      var key := Text.Lower(line[..n]);
      if key in RESOLUTION then Some(Full(Append(f.headers, key, Text.LStrip(line[n + 1..])), Some(key), true))
      else Some(Full(f.headers, None, true))
  }

  function FullLines(lines: seq<string>, f: Full): Headers
    requires f.Valid()
    decreases |lines|
  {
    if lines == [] then f.headers
    else
      var next := FullStep(f, lines[0]);
      if next.None? then f.headers else FullLines(lines[1..], next.value)
  }

  const START := Full(map[], None, false)

  function FullParse(contents: string): Headers {
    FullLines(SplitLines(contents), START)
  }

  // ---------- The first loop agrees ----------

  lemma LowerOne(name: string, key: string)
    requires Text.Lower(name) == key && key != ""
    ensures name != "" && Text.LowerChar(name[0]) == key[0]
  {
  }

  /** The first-letter test of the fast loop overlooks no field. */
  lemma FirstLetters(name: string)
    requires Text.Lower(name) in RESOLUTION
    ensures name != "" && name[0] in "NnVvRrPp"
  {
    LowerOne(name, Text.Lower(name));
  }

  lemma FastNames(name: string)
    requires name in FAST
    ensures FAST[name] == Text.Lower(name) && FAST[name] in RESOLUTION
  {
    assert Text.Lower("Name") == "name";
    assert Text.Lower("Version") == "version";
    assert Text.Lower("Requires-Dist") == "requires-dist";
    assert Text.Lower("Provides-Extra") == "provides-extra";
    assert Text.Lower("Requires-Python") == "requires-python";
  }

  /** Where the fast loop does not give up, the full loop builds the same lists in the same order. */
  lemma {:induction false} FastAgrees(lines: seq<string>, f: Full)
    requires f.Valid() && FastLines(lines, f.headers).Some?
    ensures FullLines(lines, f) == FastLines(lines, f.headers).value
  {
    if lines != [] && lines[0] != "" {
      var line, n := lines[0], Colon(lines[0]);
      var name := line[..n];
      if name in FAST { FastNames(name); }
      if Text.Lower(name) in RESOLUTION { FirstLetters(name); }
      FastAgrees(lines[1..], FullStep(f, line).value);
    }
  }

  // ---------- The header region suffices ----------

  predicate BlankLineFollows(tail: string) {
    "\n\n" <= tail || "\r\n\r\n" <= tail
  }

  lemma StartsBlank(s: string) returns (rest: seq<string>)
    requires s != "" && IsBreak(s[0])
    ensures SplitLines(s) == [""] + rest
  {
    rest := SplitLines(s[0..][BreakLength(s[0..])..]);
  }

  lemma {:induction false} LineLengthIs(s: string, n: nat)
    requires n <= |s| && (n < |s| ==> IsBreak(s[n]))
    requires forall i :: 0 <= i < n ==> !IsBreak(s[i])
    ensures LineLength(s) == n
  {
    if n > 0 { LineLengthIs(s[1..], n - 1); }
  }

  /** Splitting off one line that ends in a break. */
  lemma {:induction false} SplitStep(line: string, after: string)
    requires OneLine(line) && after != "" && IsBreak(after[0])
    ensures SplitLines(line + after) == [line] + SplitLines(after[BreakLength(after)..])
  {
    LineLengthIs(line + after, |line|);
    assert (line + after)[..|line|] == line && (line + after)[|line|..] == after;
  }

  lemma BlankTail(tail: string)
    requires BlankLineFollows(tail)
    ensures tail != "" && IsBreak(tail[0])
    ensures var k := BreakLength(tail); k < |tail| && IsBreak(tail[k])
    ensures tail[0] == '\n' ==> 1 < |tail| && tail[1] == '\n'
  {
    if "\n\n" <= tail {
      assert tail[0] == tail[..2][0] && tail[1] == tail[..2][1];
    } else {
      assert tail[0] == tail[..4][0] && tail[1] == tail[..4][1] && tail[2] == tail[..4][2];
    }
  }

  /** The lines of the whole text are those of the region, a blank line, and more. */
  lemma {:induction false} SplitRegion(region: string, tail: string) returns (rest: seq<string>)
    requires BlankLineFollows(tail)
    ensures SplitLines(region + tail) == SplitLines(region) + [""] + rest
    decreases |region|, 1
  {
    hide SplitLines, BlankLineFollows, LineLength, IsBreak;
    BlankTail(tail);
    var n := LineLength(region);
    if region == "" {
      assert region + tail == tail;
      rest := StartsBlank(tail);
      NoLines();
    } else if n == |region| {
      SplitStep(region, tail);
      rest := StartsBlank(tail[BreakLength(tail)..]);
      LastLine(region);
    } else {
      var line, after := region[..n], region[n..];
      SplitStep(line, after);
      SplitStep(line, after + tail);
      assert region == line + after && region + tail == line + (after + tail);
      rest := SplitAfter(line, after, tail);
    }
  }

  lemma SplitAfter(line: string, after: string, tail: string) returns (rest: seq<string>)
    requires BlankLineFollows(tail) && after != "" && IsBreak(after[0])
    ensures [line] + SplitLines((after + tail)[BreakLength(after + tail)..])
         == [line] + SplitLines(after[BreakLength(after)..]) + [""] + rest
    decreases |after|, 0
  {
    hide SplitLines, BlankLineFollows, IsBreak;
    BlankTail(tail);
    assert (after + tail)[0] == after[0] && (after + tail)[1] == (if |after| > 1 then after[1] else tail[0]);
    if after == "\r" && tail[0] == '\n' {
      assert (after + tail)[2..] == tail[1..];
      rest := StartsBlank(tail[1..]);
      assert after[1..] == "";
      NoLines();
    } else {
      var k := BreakLength(after);
      assert (after + tail)[k..] == after[k..] + tail;
      rest := SplitRegion(after[k..], tail);
    }
  }

  lemma NoLines()
    ensures SplitLines("") == []
  {
  }

  lemma {:induction false} LastLine(s: string)
    requires s != "" && LineLength(s) == |s|
    ensures SplitLines(s) == [s]
  {
  }

  lemma {:induction false} FastStopsAtBlank(lines: seq<string>, rest: seq<string>, headers: Headers)
    ensures FastLines(lines + [""] + rest, headers) == FastLines(lines, headers)
  {
    var all := lines + [""] + rest;
    if lines != [] && lines[0] != "" {
      assert all[1..] == lines[1..] + [""] + rest;
      var line, n := lines[0], Colon(lines[0]);
      var name := line[..n];
      if n < |line| {
        if name in FAST {
          FastStopsAtBlank(lines[1..], rest, Append(headers, FAST[name], Text.LStrip(line[n + 1..])));
        } else {
          FastStopsAtBlank(lines[1..], rest, headers);
        }
      }
    }
  }

  lemma {:induction false} FullStopsAtBlank(lines: seq<string>, rest: seq<string>, f: Full)
    requires f.Valid()
    ensures FullLines(lines + [""] + rest, f) == FullLines(lines, f)
  {
    hide FullStep, Full.Valid;
    var all := lines + [""] + rest;
    if lines == [] {
      assert all[0] == "";
      BlankStops(f);
    } else {
      assert all[0] == lines[0] && all[1..] == lines[1..] + [""] + rest;
      var next := FullStep(f, lines[0]);
      if next.Some? { FullStopsAtBlank(lines[1..], rest, next.value); }
    }
  }

  lemma BlankStops(f: Full)
    requires f.Valid()
    ensures FullStep(f, "") == None
  {
  }

  /** Splitting only the header region loses nothing: the rest starts with a blank line, where both loops stop. */
  lemma {:induction false} RegionSuffices(contents: string)
    ensures var region := SplitLines(contents[..HeaderEnd(contents)]);
      && FullLines(region, START) == FullParse(contents)
      && FastLines(region, map[]) == FastLines(SplitLines(contents), map[])
  {
    var end := HeaderEnd(contents);
    if end == |contents| {
      assert contents[..end] == contents;
    } else {
      var region, tail := contents[..end], contents[end..];
      assert contents == region + tail;
      var rest := SplitRegion(region, tail);
      FullStopsAtBlank(SplitLines(region), rest, START);
      FastStopsAtBlank(SplitLines(region), rest, map[]);
    }
  }

  // ---------- The program ----------

  /** `parse_metadata_headers`: both loops on the header region; the result is the full reading of the document. */
  method ParseMetadataHeaders(contents: string) returns (headers: Headers)
    ensures headers == FullParse(contents)
  {
    var lines := SplitLines(contents[..HeaderEnd(contents)]);
    RegionSuffices(contents);
    var fast := FastLoop(lines);
    if fast.Some? {
      FastAgrees(lines, START);
      return fast.value;
    }
    headers := FullLoop(lines);
  }

  method FastLoop(lines: seq<string>) returns (result: Option<Headers>)
    ensures result == FastLines(lines, map[])
  {
    hide Text.Lower, Text.LStrip, Text.IsSpace, Colon;
    var headers: Headers := map[];
    assert lines[0..] == lines;
    for i := 0 to |lines|
      invariant FastLines(lines[i..], headers) == FastLines(lines, map[])
    {
      var line := lines[i];
      assert lines[i..][1..] == lines[i + 1..];
      if line == "" { return Some(headers); }
      if Text.IsSpace(line[0]) { return None; }
      var n := Colon(line);
      if n == |line| { return None; }
      var name := line[..n];
      if name !in FAST {
        if name == "" || name[0] !in "NnVvRrPp" { continue; }
        if Text.Lower(name) in RESOLUTION { return None; }
        continue;
      }
      var values := if FAST[name] in headers then headers[FAST[name]] else [];
      values := values + [Text.LStrip(line[n + 1..])];
      headers := headers[FAST[name] := values];
    }
    return Some(headers);
  }

  method FullLoop(lines: seq<string>) returns (headers: Headers)
    ensures headers == FullLines(lines, START)
  {
    hide Text.Lower, Text.LStrip, Text.IsSpace, Colon, FullLines;
    headers := map[];
    var current: Option<string>, sawHeader := None, false;
    assert lines[0..] == lines;
    for i := 0 to |lines|
      invariant Full(headers, current, sawHeader).Valid()
      invariant FullLines(lines[i..], Full(headers, current, sawHeader)) == FullLines(lines, START)
    {
      var line := lines[i];
      FullLinesAt(lines, i, Full(headers, current, sawHeader));
      if line != "" && Text.IsSpace(line[0]) {
        if current.None? {
          if !sawHeader { return; }
        } else {
          var values := headers[current.value];
          headers := headers[current.value := values[|values| - 1 := values[|values| - 1] + "\n" + line]];
        }
        continue;
      }
      var n := Colon(line);
      if n == |line| { return; }
      sawHeader := true;
      var key := Text.Lower(line[..n]);
      if key in RESOLUTION {
        var values := if key in headers then headers[key] else [];
        headers := headers[key := values + [Text.LStrip(line[n + 1..])]];
        current := Some(key);
      } else {
        current := None;
      }
    }
    NoMoreLines(lines, Full(headers, current, sawHeader));
  }

  lemma {:induction false} FullLinesAt(lines: seq<string>, i: nat, f: Full)
    requires i < |lines| && f.Valid()
    ensures FullLines(lines[i..], f) ==
      match FullStep(f, lines[i])
      case None => f.headers
      case Some(next) => FullLines(lines[i + 1..], next)
  {
    hide FullStep;
    assert lines[i..][1..] == lines[i + 1..];
  }

  lemma {:induction false} NoMoreLines(lines: seq<string>, f: Full)
    requires f.Valid()
    ensures FullLines(lines[|lines|..], f) == f.headers
  {
  }

  // ---------- What the headers of a document are ----------

  /** A header field with the lines it is folded over. */
  datatype Field = Field(name: string, value: string, folds: seq<string>)

  predicate OneLine(s: string) {
    forall i :: 0 <= i < |s| ==> !IsBreak(s[i])
  }

  predicate ValidField(f: Field) {
    && OneLine(f.name) && OneLine(f.value) && ':' !in f.name && !Indented(f.name)
    && forall i :: 0 <= i < |f.folds| ==> Indented(f.folds[i]) && OneLine(f.folds[i])
  }

  predicate ValidFields(fields: seq<Field>) {
    forall i :: 0 <= i < |fields| ==> ValidField(fields[i])
  }

  function FieldLines(fields: seq<Field>): seq<string> {
    if fields == [] then []
    else [fields[0].name + ":" + fields[0].value] + fields[0].folds + FieldLines(fields[1..])
  }

  function Terminated(lines: seq<string>): string {
    if lines == [] then "" else lines[0] + "\n" + Terminated(lines[1..])
  }

  function Render(fields: seq<Field>, body: string): string {
    Terminated(FieldLines(fields)) + "\n" + body
  }

  /** The value with its continuation lines, indentation kept. */
  function Unfolded(value: string, folds: seq<string>): string
    decreases |folds|
  {
    if folds == [] then value else Unfolded(value + "\n" + folds[0], folds[1..])
  }

  /** The values of one field name, in whatever case it is written, in document order. */
  function ValuesOf(key: string, fields: seq<Field>): seq<string> {
    if fields == [] then []
    else
      var f := fields[|fields| - 1];
      ValuesOf(key, fields[..|fields| - 1])
      + (if Text.Lower(f.name) == key then [Unfolded(Text.LStrip(f.value), f.folds)] else [])
  }

  /** The five fields the resolver reads, those that are there. */
  function HeadersOf(fields: seq<Field>): Headers {
    map key |
      key in {"name", "version", "requires-dist", "provides-extra", "requires-python"} && ValuesOf(key, fields) != [] ::
      ValuesOf(key, fields)
  }

  lemma {:induction false} SplitLine(line: string, rest: string)
    requires OneLine(line)
    ensures SplitLines(line + "\n" + rest) == [line] + SplitLines(rest)
  {
    hide SplitLines, LineLength;
    var after := "\n" + rest;
    SplitStep(line, after);
    assert after[0] == '\n' && after[1..] == rest;
    assert line + "\n" + rest == line + after;
  }

  const BREAKS := {'\n', '\r', '\U{b}', '\U{c}', '\U{1c}', '\U{1d}', '\U{1e}'}

  lemma BreakIsBreak(c: char)
    ensures IsBreak(c) <==> c in BREAKS
  {
    if IsBreak(c) { assert (c as int) as char == c; }
  }

  /** A line ends at any of these characters, at carriage return and line feed together. */
  lemma {:induction false} SplitAtBreak(line: string, mark: string, rest: string)
    requires forall i :: 0 <= i < |line| ==> line[i] !in BREAKS
    requires mark == "\r\n" || (|mark| == 1 && mark[0] in BREAKS)
    requires mark == "\r" && rest != "" ==> rest[0] != '\n'
    ensures SplitLines(line + mark + rest) == [line] + SplitLines(rest)
    ensures SplitLines(line) == if line == "" then [] else [line]
  {
    hide SplitLines, LineLength, IsBreak;
    forall i | 0 <= i < |line| ensures !IsBreak(line[i]) { BreakIsBreak(line[i]); }
    var after := mark + rest;
    BreakIsBreak(after[0]);
    assert mark == "\r\n" ==> after[1] == '\n' && after[2..] == rest;
    assert |mark| == 1 ==> after[1..] == rest && (rest != "" ==> after[1] == rest[0]);
    SplitStep(line, after);
    assert line + mark + rest == line + after;
    SplitSingle(line);
  }

  lemma {:induction false} SplitSingle(line: string)
    requires OneLine(line)
    ensures SplitLines(line) == if line == "" then [] else [line]
  {
    if line != "" {
      LineLengthIs(line + "", |line|);
      assert line + "" == line;
      LastLine(line);
    }
  }

  lemma {:induction false} SplitTerminated(lines: seq<string>, rest: string)
    requires forall i :: 0 <= i < |lines| ==> OneLine(lines[i])
    ensures SplitLines(Terminated(lines) + rest) == lines + SplitLines(rest)
  {
    hide SplitLines, OneLine;
    if lines == [] {
      assert Terminated(lines) + rest == rest;
    } else {
      var more := Terminated(lines[1..]) + rest;
      assert Terminated(lines) + rest == lines[0] + "\n" + more;
      SplitLine(lines[0], more);
      SplitTerminated(lines[1..], rest);
      assert lines == [lines[0]] + lines[1..];
    }
  }

  lemma {:induction false} LinesAreSingle(fields: seq<Field>)
    requires ValidFields(fields)
    ensures forall i :: 0 <= i < |FieldLines(fields)| ==> OneLine(FieldLines(fields)[i])
  {
    if fields != [] {
      LinesAreSingle(fields[1..]);
      assert ValidField(fields[0]);
      assert OneLine(fields[0].name + ":" + fields[0].value);
    }
  }

  lemma {:induction false} ColonOf(name: string, value: string)
    requires ':' !in name
    ensures Colon(name + ":" + value) == |name|
    ensures (name + ":" + value)[..|name|] == name && (name + ":" + value)[|name| + 1..] == value
  {
    ColonIs(name + ":" + value, |name|);
  }

  lemma {:induction false} ColonIs(s: string, n: nat)
    requires n < |s| && s[n] == ':' && forall i :: 0 <= i < n ==> s[i] != ':'
    ensures Colon(s) == n
  {
    if n > 0 { ColonIs(s[1..], n - 1); }
  }

  /** Continuation lines extend the last value of the current field, and are skipped after an ignored one. */
  lemma {:induction false} ReadFolds(folds: seq<string>, rest: seq<string>, f: Full, earlier: seq<string>, value: string)
    requires f.Valid() && f.sawHeader
    requires forall i :: 0 <= i < |folds| ==> Indented(folds[i])
    requires f.current.Some? ==> f.headers[f.current.value] == earlier + [value]
    ensures var g := if f.current.Some? then f.(headers := f.headers[f.current.value := earlier + [Unfolded(value, folds)]]) else f;
      g.Valid() && FullLines(folds + rest, f) == FullLines(rest, g)
    decreases |folds|
  {
    if folds == [] {
      assert folds + rest == rest;
      if f.current.Some? { assert f.headers[f.current.value := earlier + [value]] == f.headers; }
    } else {
      assert (folds + rest)[0] == folds[0] && (folds + rest)[1..] == folds[1..] + rest;
      var next := FullStep(f, folds[0]).value;
      var more := value + "\n" + folds[0];
      if f.current.Some? {
        var values := f.headers[f.current.value];
        assert values[..|values| - 1] == earlier && values[|values| - 1] == value;
        assert values[|values| - 1 := more] == earlier + [more];
        assert next.headers == f.headers[f.current.value := earlier + [more]];
        var done := earlier + [Unfolded(more, folds[1..])];
        assert next.headers[f.current.value := done] == f.headers[f.current.value := done];
      }
      ReadFolds(folds[1..], rest, next, earlier, more);
    }
  }

  ghost predicate ReadsTo(lines: seq<string>, f: Full, rest: seq<string>, headers: Headers)
    requires f.Valid()
  {
    exists g: Full :: g.Valid() && g.headers == headers && FullLines(lines + rest, f) == FullLines(rest, g)
  }

  lemma {:induction false} ReadLine(name: string, value: string, f: Full)
    requires f.Valid() && ':' !in name && !Indented(name)
    ensures var key := Text.Lower(name);
      FullStep(f, name + ":" + value) == Some(
        if key in RESOLUTION then Full(Append(f.headers, key, Text.LStrip(value)), Some(key), true)
        else Full(f.headers, None, true))
  {
    ColonOf(name, value);
    var line := name + ":" + value;
    assert line[0] == if name == "" then ':' else name[0];
  }

  lemma ReadField(before: seq<Field>, field: Field, rest: seq<string>, f: Full)
    requires f.Valid() && f.headers == HeadersOf(before) && ValidField(field)
    ensures ReadsTo([field.name + ":" + field.value] + field.folds, f, rest, HeadersOf(before + [field]))
  {
    hide HeadersOf, FullStep;
    var line, key := field.name + ":" + field.value, Text.Lower(field.name);
    var lines := [line] + field.folds + rest;
    assert lines[0] == line && lines[1..] == field.folds + rest;
    ReadLine(field.name, field.value, f);
    var next := FullStep(f, line).value;
    var value := Text.LStrip(field.value);
    var earlier := ValuesOf(key, before);
    if key in RESOLUTION { ValuesIn(before, key); }
    ReadFolds(field.folds, rest, next, earlier, value);
    var done := earlier + [Unfolded(value, field.folds)];
    AddField(before, field);
    if key in RESOLUTION {
      assert f.headers[key := earlier + [value]][key := done] == f.headers[key := done];
    }
  }

  lemma {:induction false} ValuesIn(fields: seq<Field>, key: string)
    requires key in RESOLUTION
    ensures ValuesOf(key, fields) == if key in HeadersOf(fields) then HeadersOf(fields)[key] else []
  {
  }

  lemma {:induction false} AddField(before: seq<Field>, field: Field)
    ensures var key := Text.Lower(field.name);
      var values := ValuesOf(key, before) + [Unfolded(Text.LStrip(field.value), field.folds)];
      HeadersOf(before + [field]) == if key in RESOLUTION then HeadersOf(before)[key := values] else HeadersOf(before)
  {
    hide Unfolded, Text.LStrip, Text.Lower, ValuesOf;
    var all, key := before + [field], Text.Lower(field.name);
    var values := ValuesOf(key, before) + [Unfolded(Text.LStrip(field.value), field.folds)];
    var expected := if key in RESOLUTION then HeadersOf(before)[key := values] else HeadersOf(before);
    forall k | k in RESOLUTION
      ensures k in HeadersOf(all) <==> k in expected
      ensures k in expected ==> HeadersOf(all)[k] == expected[k]
    {
      AddValue(before, field, k);
    }
    assert HeadersOf(all).Keys == expected.Keys;
    assert HeadersOf(all) == expected;
  }

  lemma {:induction false} AddValue(before: seq<Field>, field: Field, key: string)
    ensures ValuesOf(key, before + [field]) == ValuesOf(key, before)
      + (if Text.Lower(field.name) == key then [Unfolded(Text.LStrip(field.value), field.folds)] else [])
  {
    var all := before + [field];
    assert all[..|all| - 1] == before;
  }

  lemma {:induction false} ReadFields(before: seq<Field>, after: seq<Field>, rest: seq<string>, f: Full)
    requires f.Valid() && f.headers == HeadersOf(before) && ValidFields(after)
    ensures FullLines(FieldLines(after) + [""] + rest, f) == HeadersOf(before + after)
    decreases |after|
  {
    hide Full.Valid, FullStep, HeadersOf, ValidField;
    if after == [] {
      assert FieldLines(after) + [""] + rest == [""] + rest;
      assert before + after == before;
      BlankStops(f);
    } else {
      var field, more := after[0], FieldLines(after[1..]) + [""] + rest;
      assert FieldLines(after) + [""] + rest == [field.name + ":" + field.value] + field.folds + more;
      ReadField(before, field, more, f);
      var g: Full :| g.Valid() && g.headers == HeadersOf(before + [field])
        && FullLines([field.name + ":" + field.value] + field.folds + more, f) == FullLines(more, g);
      ReadFields(before + [field], after[1..], rest, g);
      assert before + [field] + after[1..] == before + after;
    }
  }

  /**
    Parsing a document of well-formed fields and any body gives, for each field the resolver reads,
    its values in order with continuation lines attached, whatever the case of the names.
  */
  lemma ParseRendered(fields: seq<Field>, body: string)
    requires ValidFields(fields)
    ensures FullParse(Render(fields, body)) == HeadersOf(fields)
  {
    hide FullLines, HeadersOf, SplitLines;
    var lines := FieldLines(fields);
    LinesAreSingle(fields);
    assert Render(fields, body) == Terminated(lines) + ("\n" + body);
    SplitTerminated(lines, "\n" + body);
    SplitLine("", body);
    assert "" + "\n" + body == "\n" + body;
    assert SplitLines(Render(fields, body)) == lines + [""] + SplitLines(body);
    NoFields();
    ReadFields([], fields, SplitLines(body), START);
    assert [] + fields == fields;
  }

  lemma NoFields()
    ensures HeadersOf([]) == map[]
  {
  }
}
