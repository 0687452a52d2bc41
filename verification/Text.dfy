/** Decimal numerals, whitespace, case, splitting and joining on ASCII text. */
module Text {
  import opened Wrappers

  predicate IsDigit(c: char) {
    '0' <= c <= '9'
  }

  predicate IsLower(c: char) {
    'a' <= c <= 'z'
  }

  predicate AllDigits(s: string) {
    forall i :: 0 <= i < |s| ==> IsDigit(s[i])
  }

  /** `str.isdigit`: nonempty and digits only. */
  predicate IsNumeral(s: string) {
    s != "" && AllDigits(s)
  }

  predicate IsSpace(c: char) {
    '\t' <= c <= '\r' || '\U{1c}' <= c <= ' '
  }

  function LStrip(s: string): string {
    if s != "" && IsSpace(s[0]) then LStrip(s[1..]) else s
  }

  function RStrip(s: string): string {
    if s != "" && IsSpace(s[|s| - 1]) then RStrip(s[..|s| - 1]) else s
  }

  function Strip(s: string): string {
    RStrip(LStrip(s))
  }

  const SPACES := {' ', '\t', '\n', '\r', '\U{b}', '\U{c}', '\U{1c}', '\U{1d}', '\U{1e}', '\U{1f}'}

  predicate AllSpaces(s: string) {
    forall i :: 0 <= i < |s| ==> s[i] in SPACES
  }

  /** No white space at its ends. */
  predicate Trimmed(s: string) {
    s != "" ==> s[0] !in SPACES && s[|s| - 1] !in SPACES
  }

  lemma SpaceIsSpace(c: char)
    ensures IsSpace(c) <==> c in SPACES
  {
    if IsSpace(c) { assert (c as int) as char == c; }
  }

  /** Stripping removes exactly the white space at the left end. */
  lemma {:induction false} LStripExact(before: string, core: string)
    requires AllSpaces(before) && (core != "" ==> core[0] !in SPACES)
    ensures LStrip(before + core) == core
  {
    hide IsSpace;
    if before == "" {
      assert before + core == core;
      if core != "" { SpaceIsSpace(core[0]); }
    } else {
      SpaceIsSpace(before[0]);
      assert (before + core)[1..] == before[1..] + core;
      LStripExact(before[1..], core);
    }
  }

  lemma {:induction false} RStripExact(core: string, after: string)
    requires AllSpaces(after) && (core != "" ==> core[|core| - 1] !in SPACES)
    ensures RStrip(core + after) == core
  {
    hide IsSpace;
    if after == "" {
      assert core + after == core;
      if core != "" { SpaceIsSpace(core[|core| - 1]); }
    } else {
      var front := after[..|after| - 1];
      SpaceIsSpace(after[|front|]);
      assert (core + after)[..|core + after| - 1] == core + front;
      RStripExact(core, front);
    }
  }

  /** Stripping removes exactly the white space at both ends. */
  lemma StripExact(before: string, core: string, after: string)
    requires AllSpaces(before) && AllSpaces(after) && Trimmed(core)
    ensures Strip(before + core + after) == core
  {
    if core == "" {
      var all := before + after;
      assert before + core + after == all + "";
      LStripExact(all, "");
    } else {
      assert before + core + after == before + (core + after);
      LStripExact(before, core + after);
      RStripExact(core, after);
    }
  }

  /** Every text is of that form. */
  lemma {:induction false} StripParts(s: string) returns (before: string, after: string)
    ensures AllSpaces(before) && AllSpaces(after) && Trimmed(Strip(s)) && s == before + Strip(s) + after
  {
    hide IsSpace;
    before := LStripParts(s);
    after := RStripParts(LStrip(s));
    var core := Strip(s);
    assert core <= LStrip(s);
    if core != "" { assert core[0] == LStrip(s)[0]; }
  }

  lemma {:induction false} LStripParts(s: string) returns (before: string)
    ensures AllSpaces(before) && s == before + LStrip(s) && (LStrip(s) != "" ==> LStrip(s)[0] !in SPACES)
  {
    hide IsSpace;
    before := "";
    if s != "" {
      SpaceIsSpace(s[0]);
      if IsSpace(s[0]) {
        var rest := LStripParts(s[1..]);
        before := [s[0]] + rest;
        assert s == [s[0]] + s[1..];
      }
    }
  }

  lemma {:induction false} RStripParts(s: string) returns (after: string)
    ensures AllSpaces(after) && s == RStrip(s) + after && (RStrip(s) != "" ==> RStrip(s)[|RStrip(s)| - 1] !in SPACES)
  {
    hide IsSpace;
    after := "";
    if s != "" {
      SpaceIsSpace(s[|s| - 1]);
      if IsSpace(s[|s| - 1]) {
        var rest := RStripParts(s[..|s| - 1]);
        after := rest + [s[|s| - 1]];
        assert s == s[..|s| - 1] + [s[|s| - 1]];
      }
    }
  }

  /** White space around a text does not survive. */
  lemma StripPadded(before: string, s: string, after: string)
    requires AllSpaces(before) && AllSpaces(after)
    ensures Strip(before + s + after) == Strip(s)
  {
    hide Strip, Trimmed;
    var b, a := StripParts(s);
    StripExact(before + b, Strip(s), a + after);
    assert before + s + after == (before + b) + Strip(s) + (a + after);
  }

  function LowerChar(c: char): char {
    if 'A' <= c <= 'Z' then c - 'A' + 'a' else c
  }

  function Lower(s: string): (r: string)
    ensures |r| == |s|
    ensures forall i :: 0 <= i < |s| ==> r[i] == LowerChar(s[i])
  {
    seq(|s|, i requires 0 <= i < |s| => LowerChar(s[i]))
  }

  lemma LowerLetters(k: nat)
    requires k < 26
    ensures LowerChar("ABCDEFGHIJKLMNOPQRSTUVWXYZ"[k]) == "abcdefghijklmnopqrstuvwxyz"[k]
  {
    assert "ABCDEFGHIJKLMNOPQRSTUVWXYZ"[k] == 'A' + k as char;
    assert "abcdefghijklmnopqrstuvwxyz"[k] == 'a' + k as char;
  }

  /** Where `sub` first occurs in `s`. */
  function Find(s: string, sub: string): (at: Option<nat>)
    ensures at.Some? ==> at.value + |sub| <= |s| && s[at.value..][..|sub|] == sub
  {
    if sub <= s then Some(0)
    else if s == "" then None
    else
      match Find(s[1..], sub)
      case None => None
      case Some(i) => assert s[i + 1..] == s[1..][i..]; Some(i + 1)
  }

  /** What is found is the first occurrence. */
  lemma {:induction false} FindFirst(s: string, sub: string, k: nat)
    requires k + |sub| <= |s| && s[k..][..|sub|] == sub
    ensures Find(s, sub).Some? && Find(s, sub).value <= k
  {
    if k > 0 && !(sub <= s) {
      assert s[1..][k - 1..] == s[k..];
      FindFirst(s[1..], sub, k - 1);
    }
  }

  // ---------- Numerals ----------

  function DigitValue(c: char): nat
    requires IsDigit(c)
  {
    (c - '0') as nat
  }

  /** `int(text)`. */
  function NatValue(s: string): nat
    requires AllDigits(s)
  {
    if s == "" then 0 else NatValue(s[..|s| - 1]) * 10 + DigitValue(s[|s| - 1])
  }

  /** `str(n)`. */
  function NatText(n: nat): (s: string)
    ensures IsNumeral(s)
  {
    var last := ['0' + (n % 10) as char];
    if n < 10 then last else NatText(n / 10) + last
  }

  lemma {:induction false} NatRoundTrip(n: nat)
    ensures NatValue(NatText(n)) == n
  {
    if n >= 10 {
      NatRoundTrip(n / 10);
      assert NatText(n)[..|NatText(n)| - 1] == NatText(n / 10);
    } else {
      assert NatText(n)[..0] == "";
    }
  }

  lemma {:induction false} NoLeadingZero(n: nat)
    ensures NatText(n)[0] == '0' ==> |NatText(n)| == 1
    ensures NatText(n)[0] == '0' ==> n == 0
  {
    if n >= 10 { NoLeadingZero(n / 10); }
  }

  /** How many digits the text begins with. */
  function DigitCount(s: string): (n: nat)
    ensures n <= |s|
    ensures AllDigits(s[..n])
    ensures n < |s| ==> !IsDigit(s[n])
  {
    if s != "" && IsDigit(s[0]) then 1 + DigitCount(s[1..]) else 0
  }

  lemma {:induction false} DigitRun(digits: string, rest: string)
    requires AllDigits(digits) && (rest != "" ==> !IsDigit(rest[0]))
    ensures DigitCount(digits + rest) == |digits|
    ensures (digits + rest)[..|digits|] == digits && (digits + rest)[|digits|..] == rest
  {
    if digits == "" {
      assert digits + rest == rest;
    } else {
      assert (digits + rest)[1..] == digits[1..] + rest;
      DigitRun(digits[1..], rest);
    }
  }

  // ---------- Splitting and joining ----------

  function Split(seps: set<char>, s: string): (parts: seq<string>)
    ensures parts != []
  {
    if s == "" then [""]
    else if s[0] in seps then [""] + Split(seps, s[1..])
    else
      var rest := Split(seps, s[1..]);
      [[s[0]] + rest[0]] + rest[1..]
  }

  function Join(sep: char, parts: seq<string>): string
    requires parts != []
  {
    if |parts| == 1 then parts[0] else parts[0] + [sep] + Join(sep, parts[1..])
  }

  predicate Free(seps: set<char>, s: string) {
    forall i :: 0 <= i < |s| ==> s[i] !in seps
  }

  lemma {:induction false} SplitPrefix(seps: set<char>, head: string, tail: string)
    requires Free(seps, head)
    requires tail == "" || tail[0] in seps
    ensures Split(seps, head + tail) == if tail == "" then [head] else [head] + Split(seps, tail[1..])
  {
    if head == "" {
      assert head + tail == tail;
    } else {
      assert (head + tail)[1..] == head[1..] + tail;
      assert [head[0]] + head[1..] == head;
      SplitPrefix(seps, head[1..], tail);
    }
  }

  lemma {:induction false} SplitJoin(seps: set<char>, sep: char, parts: seq<string>)
    requires sep in seps && parts != []
    requires forall i :: 0 <= i < |parts| ==> Free(seps, parts[i])
    ensures Split(seps, Join(sep, parts)) == parts
  {
    if |parts| == 1 {
      SplitPrefix(seps, parts[0], "");
      assert parts[0] + "" == parts[0];
    } else {
      SplitJoin(seps, sep, parts[1..]);
      SplitPrefix(seps, parts[0], [sep] + Join(sep, parts[1..]));
      assert parts[0] + [sep] + Join(sep, parts[1..]) == parts[0] + ([sep] + Join(sep, parts[1..]));
      assert ([sep] + Join(sep, parts[1..]))[1..] == Join(sep, parts[1..]);
    }
  }

  lemma {:induction false} JoinSplit(sep: char, s: string)
    ensures Join(sep, Split({sep}, s)) == s
    ensures forall i :: 0 <= i < |Split({sep}, s)| ==> Free({sep}, Split({sep}, s)[i])
  {
    if s != "" {
      JoinSplit(sep, s[1..]);
      var rest := Split({sep}, s[1..]);
      if s[0] == sep {
        assert ([""] + rest)[1..] == rest;
      } else {
        assert ([[s[0]] + rest[0]] + rest[1..])[1..] == rest[1..];
        assert [s[0]] + Join(sep, rest) == Join(sep, [[s[0]] + rest[0]] + rest[1..]);
      }
      assert s == [s[0]] + s[1..];
    }
  }
}
