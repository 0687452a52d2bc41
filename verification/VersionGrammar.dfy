/**
  The grammar of version texts.

  `Scan` is the version grammar as a left-to-right scanner; what it returns is the group-by-group
  reading the program gets from its pattern. `Spelling.Text` writes a reading back. The two are
  inverse (`ScanIsSpelling`, `SpellingScans`), so the accepted texts are exactly the texts of the
  permitted spellings.
*/
module VersionGrammar {
  import opened Wrappers
  import opened Text

  // ---------- Spellings ----------

  /** One labelled part: separator, word, separator, digits; the last three groups may be empty. */
  datatype Tagged = Tagged(sep: string, word: string, sep2: string, digits: string) {
    function Text(): string {
      sep + word + sep2 + digits
    }
  }

  datatype PostSpelling = Implicit(digits: string) | Named(tag: Tagged) {
    function Text(): string {
      match this
      case Implicit(digits) => "-" + digits
      case Named(tag) => tag.Text()
    }
  }

  function TaggedText(t: Option<Tagged>): string {
    if t.None? then "" else t.value.Text()
  }

  function PostText(t: Option<PostSpelling>): string {
    if t.None? then "" else t.value.Text()
  }

  function LocalText(local: Option<string>): string {
    if local.None? then "" else "+" + local.value
  }

  function EpochText(epoch: Option<string>): string {
    if epoch.None? then "" else epoch.value + "!"
  }

  datatype Spelling = Spelling(
    prefix: string,
    epoch: Option<string>,
    release: seq<string>,
    pre: Option<Tagged>,
    post: Option<PostSpelling>,
    dev: Option<Tagged>,
    local: Option<string>)
  {
    function AfterPost(): string {
      TaggedText(dev) + LocalText(local)
    }

    function AfterPre(): string {
      PostText(post) + AfterPost()
    }

    function AfterRelease(): string {
      TaggedText(pre) + AfterPre()
    }

    function AfterEpoch(): string
      requires release != []
    {
      Join('.', release) + AfterRelease()
    }

    function Text(): string
      requires release != []
    {
      prefix + (EpochText(epoch) + AfterEpoch())
    }
  }

  /** Reads the word the text begins with, the longest one if several do. */
  type WordReader = string -> Option<string>

  function PreWord(s: string): Option<string> {
    if "alpha" <= s then Some("alpha")
    else if "a" <= s then Some("a")
    else if "beta" <= s then Some("beta")
    else if "b" <= s then Some("b")
    else if "c" <= s then Some("c")
    else if "rc" <= s then Some("rc")
    else if "preview" <= s then Some("preview")
    else if "pre" <= s then Some("pre")
    else None
  }

  function PostWord(s: string): Option<string> {
    if "post" <= s then Some("post")
    else if "rev" <= s then Some("rev")
    else if "r" <= s then Some("r")
    else None
  }

  function DevWord(s: string): Option<string> {
    if "dev" <= s then Some("dev") else None
  }

  predicate IsSep(c: char) {
    c == '.' || c == '-' || c == '_'
  }

  predicate IsAlnum(c: char) {
    IsDigit(c) || IsLower(c)
  }

  predicate SepText(s: string) {
    s == "" || (|s| == 1 && IsSep(s[0]))
  }

  predicate IsLocal(s: string) {
    && s != ""
    && IsAlnum(s[0]) && IsAlnum(s[|s| - 1])
    && (forall i :: 0 <= i < |s| ==> IsAlnum(s[i]) || IsSep(s[i]))
    && (forall i, j :: 0 <= i < |s| && 0 <= j < |s| && j == i + 1 ==> IsAlnum(s[i]) || IsAlnum(s[j]))
  }

  /** A part that stops before `rest`: its optional groups take all they can. */
  predicate PermittedTagged(reader: WordReader, t: Tagged, rest: string) {
    && SepText(t.sep) && SepText(t.sep2) && reader(t.word) == Some(t.word) && AllDigits(t.digits)
    && (rest != "" ==> !IsDigit(rest[0]))
    && (rest != "" && t.sep2 == "" && t.digits == "" ==> !IsSep(rest[0]))
  }

  predicate PermittedPost(p: PostSpelling, rest: string) {
    match p
    case Implicit(digits) => IsNumeral(digits) && (rest != "" ==> !IsDigit(rest[0]))
    case Named(tag) => PermittedTagged(PostWord, tag, rest)
  }

  /**
    The permitted spellings (PEP 440, "Normalization" and "Summary of permitted suffixes and
    relative ordering"). A separator or number belongs to the part on its left.
  */
  predicate Permitted(p: Spelling) {
    && (p.prefix == "" || p.prefix == "v")
    && (p.epoch.Some? ==> IsNumeral(p.epoch.value))
    && p.release != []
    && (forall i :: 0 <= i < |p.release| ==> IsNumeral(p.release[i]))
    && (p.local.Some? ==> IsLocal(p.local.value))
    && (p.pre.Some? ==> PermittedTagged(PreWord, p.pre.value, p.AfterPre()))
    && (p.post.Some? ==> PermittedPost(p.post.value, p.AfterPost()))
    && (p.dev.Some? ==> PermittedTagged(DevWord, p.dev.value, LocalText(p.local)))
  }

  // ---------- The words and labels, spelled out ----------

  lemma PreWords(word: string)
    ensures PreWord(word) == Some(word) <==> word in {"a", "b", "c", "rc", "alpha", "beta", "pre", "preview"}
  {
    assert "a"[0] == 'a' && "alpha"[0] == 'a' && "b"[0] == 'b' && "beta"[0] == 'b' && "c"[0] == 'c';
    assert "rc"[0] == 'r' && "pre"[0] == 'p' && "preview"[0] == 'p';
  }

  lemma PostWords(word: string)
    ensures PostWord(word) == Some(word) <==> word in {"post", "rev", "r"}
  {
    assert "post"[0] == 'p' && "rev"[0] == 'r' && "r"[0] == 'r';
  }

  lemma DevWords(word: string)
    ensures DevWord(word) == Some(word) <==> word == "dev"
  {
  }

  lemma Separators(s: string)
    ensures SepText(s) <==> s in {"", ".", "-", "_"}
  {
    if |s| == 1 { assert s == [s[0]]; }
  }

  /** Segments with one separator between any two. */
  function Label(segments: seq<string>, seps: string): string
    requires |segments| == |seps| + 1
  {
    if seps == "" then segments[0] else segments[0] + [seps[0]] + Label(segments[1..], seps[1..])
  }

  predicate Segment(s: string) {
    s != "" && forall k :: 0 <= k < |s| ==> '0' <= s[k] <= '9' || 'a' <= s[k] <= 'z'
  }

  predicate IsLabel(segments: seq<string>, seps: string) {
    && |segments| == |seps| + 1
    && (forall i :: 0 <= i < |segments| ==> Segment(segments[i]))
    && (forall i :: 0 <= i < |seps| ==> seps[i] in {'.', '-', '_'})
  }

  /** Nonempty segments of letters and digits, however separated, are a local label. */
  lemma {:induction false} LabelIsLocal(segments: seq<string>, seps: string)
    requires IsLabel(segments, seps)
    ensures IsLocal(Label(segments, seps))
  {
    if seps != "" {
      var head, tail := segments[0], Label(segments[1..], seps[1..]);
      LabelIsLocal(segments[1..], seps[1..]);
      LocalMore(head, seps[0], tail);
    }
  }

  lemma LocalMore(head: string, sep: char, tail: string)
    requires Segment(head) && sep in {'.', '-', '_'} && IsLocal(tail)
    ensures IsLocal(head + [sep] + tail)
  {
    var s := head + [sep] + tail;
    forall i | 0 <= i < |s| ensures IsAlnum(s[i]) || IsSep(s[i]) {
      if i < |head| { assert s[i] == head[i]; }
      if i > |head| { assert s[i] == tail[i - |head| - 1]; }
    }
    forall i, j | 0 <= i < |s| && 0 <= j < |s| && j == i + 1 ensures IsAlnum(s[i]) || IsAlnum(s[j]) {
      if i < |head| { assert s[i] == head[i]; }
      else { assert s[j] == tail[j - |head| - 1]; if i > |head| { assert s[i] == tail[i - |head| - 1]; } }
    }
    assert s[0] == head[0] && s[|s| - 1] == tail[|tail| - 1];
  }

  /** Every local label is of that form. */
  lemma {:induction false} LocalIsLabel(s: string) returns (segments: seq<string>, seps: string)
    requires IsLocal(s)
    ensures IsLabel(segments, seps) && Label(segments, seps) == s
  {
    if |s| == 1 {
      segments, seps := [s], "";
    } else if IsSep(s[1]) {
      assert IsAlnum(s[2]);
      LocalRest(s, 2);
      var more, rest := LocalIsLabel(s[2..]);
      segments, seps := [[s[0]]] + more, [s[1]] + rest;
      assert segments[1..] == more && seps[1..] == rest;
      assert s == [s[0]] + [s[1]] + s[2..];
    } else {
      LocalRest(s, 1);
      var more, rest := LocalIsLabel(s[1..]);
      segments, seps := [[s[0]] + more[0]] + more[1..], rest;
      if rest != "" {
        assert segments[1..] == more[1..];
        assert [s[0]] + (more[0] + [rest[0]] + Label(more[1..], rest[1..])) == segments[0] + [rest[0]] + Label(more[1..], rest[1..]);
      }
      assert s == [s[0]] + s[1..];
    }
  }

  lemma LocalRest(s: string, n: nat)
    requires IsLocal(s) && n < |s| && IsAlnum(s[n])
    ensures IsLocal(s[n..])
  {
  }

  // ---------- Scanner ----------

  function SepLen(s: string): (n: nat)
    ensures n <= |s| && n <= 1
  {
    if s != "" && IsSep(s[0]) then 1 else 0
  }

  function ScanTagged(reader: WordReader, s: string): (Option<Tagged>, string) {
    match reader(s[SepLen(s)..])
    case None => (None, s)
    case Some(word) =>
      if |word| > |s[SepLen(s)..]| then (None, s) else
      var x := s[SepLen(s)..][|word|..];
      var y := x[SepLen(x)..];
      var n := DigitCount(y);
      (Some(Tagged(s[..SepLen(s)], word, x[..SepLen(x)], y[..n])), y[n..])
  }

  function ScanPost(s: string): (Option<PostSpelling>, string) {
    if |s| >= 2 && s[0] == '-' && IsDigit(s[1]) then
      var n := DigitCount(s[1..]);
      (Some(Implicit(s[1..][..n])), s[1..][n..])
    else
      var (tag, rest) := ScanTagged(PostWord, s);
      (if tag.None? then None else Some(Named(tag.value)), rest)
  }

  function ScanRelease(s: string): (r: (seq<string>, string))
    requires s != "" && IsDigit(s[0])
    ensures r.0 != []
  {
    var n := DigitCount(s);
    if n + 1 < |s| && s[n] == '.' && IsDigit(s[n + 1]) then
      var (more, rest) := ScanRelease(s[n + 1..]);
      ([s[..n]] + more, rest)
    else ([s[..n]], s[n..])
  }

  function ScanLocal(s: string): Option<Option<string>> {
    if s == "" then Some(None)
    else if s[0] == '+' && IsLocal(s[1..]) then Some(Some(s[1..]))
    else None
  }

  function ScanParts(prefix: string, epoch: Option<string>, s: string): Option<Spelling>
    requires s != "" && IsDigit(s[0])
  {
    var (release, s1) := ScanRelease(s);
    var (pre, s2) := ScanTagged(PreWord, s1);
    var (post, s3) := ScanPost(s2);
    var (dev, s4) := ScanTagged(DevWord, s3);
    match ScanLocal(s4)
    case None => None
    case Some(local) => Some(Spelling(prefix, epoch, release, pre, post, dev, local))
  }

  function ScanEpoch(prefix: string, s: string): Option<Spelling> {
    var n := DigitCount(s);
    if n == 0 then None
    else if n < |s| && s[n] == '!' then
      var rest := s[n + 1..];
      if rest != "" && IsDigit(rest[0]) then ScanParts(prefix, Some(s[..n]), rest) else None
    else ScanParts(prefix, None, s)
  }

  /** The groups matched by the version pattern on lower-case text, or `None` if it does not match. */
  function Scan(s: string): Option<Spelling> {
    if s != "" && s[0] == 'v' then ScanEpoch("v", s[1..]) else ScanEpoch("", s)
  }

  // ---------- Everything scanned is a permitted spelling ----------

  /** The word read from `s` is a nonempty prefix that starts with a letter, and is reread alone. */
  predicate ReadsAt(reader: WordReader, s: string) {
    reader(s).Some? ==>
      var w := reader(s).value;
      w <= s && w != "" && IsLower(w[0]) && reader(w) == Some(w)
  }

  lemma PreWordReads(s: string)
    ensures ReadsAt(PreWord, s)
  {
  }

  lemma PostWordReads(s: string)
    ensures ReadsAt(PostWord, s)
  {
  }

  lemma DevWordReads(s: string)
    ensures ReadsAt(DevWord, s)
  {
  }

  lemma Assoc(a: string, b: string, c: string, d: string, e: string)
    ensures a + b + c + d + e == a + (b + (c + (d + e)))
  {
  }

  lemma Pieces(
      s: string, sep: string, body: string, word: string, x: string, sep2: string, y: string,
      digits: string, rest: string)
    requires s == sep + body && body == word + x && x == sep2 + y && y == digits + rest
    ensures s == sep + word + sep2 + digits + rest
  {
    Assoc(sep, word, sep2, digits, rest);
  }

  lemma ScanTaggedSound(reader: WordReader, s: string)
    requires ReadsAt(reader, s[SepLen(s)..])
    ensures var (tag, rest) := ScanTagged(reader, s);
      && s == TaggedText(tag) + rest
      && (tag.Some? ==> PermittedTagged(reader, tag.value, rest))
  {
    hide DigitCount, SepLen;
    if reader(s[SepLen(s)..]).Some? {
      TaggedPieces(reader, s);
      TaggedPermitted(reader, s);
    }
  }

  /** The part is read piece by piece. */
  lemma TaggedIs(reader: WordReader, s: string)
    requires ReadsAt(reader, s[SepLen(s)..]) && reader(s[SepLen(s)..]).Some?
    ensures var body := s[SepLen(s)..]; var word := reader(body).value;
      && reader(word) == Some(word) && |word| <= |body| && body[..|word|] == word
      && var x := body[|word|..];
         var y := x[SepLen(x)..];
         ScanTagged(reader, s) ==
           (Some(Tagged(s[..SepLen(s)], word, x[..SepLen(x)], y[..DigitCount(y)])), y[DigitCount(y)..])
  {
    hide DigitCount, SepLen;
  }

  /** The text of the part that is read, and the rest. */
  lemma TaggedPieces(reader: WordReader, s: string)
    requires ReadsAt(reader, s[SepLen(s)..]) && reader(s[SepLen(s)..]).Some?
    ensures var (tag, rest) := ScanTagged(reader, s); tag.Some? && s == tag.value.Text() + rest
  {
    hide DigitCount, SepLen, Tagged.Text, ScanTagged, ReadsAt;
    TaggedIs(reader, s);
    var sep, body := s[..SepLen(s)], s[SepLen(s)..];
    var word := reader(body).value;
    var x := body[|word|..];
    var sep2, y := x[..SepLen(x)], x[SepLen(x)..];
    var digits, rest := y[..DigitCount(y)], y[DigitCount(y)..];
    Cut(s, SepLen(s));
    Cut(x, SepLen(x));
    Cut(y, DigitCount(y));
    Cut(body, |word|);
    Pieces(s, sep, body, word, x, sep2, y, digits, rest);
    TagText(Tagged(sep, word, sep2, digits));
  }

  lemma TaggedPermitted(reader: WordReader, s: string)
    requires ReadsAt(reader, s[SepLen(s)..]) && reader(s[SepLen(s)..]).Some?
    ensures var (tag, rest) := ScanTagged(reader, s); tag.Some? && PermittedTagged(reader, tag.value, rest)
  {
    hide DigitCount, SepLen, ScanTagged, ReadsAt, PermittedTagged;
    TaggedIs(reader, s);
    var body := s[SepLen(s)..];
    SepCut(s);
    PermittedPieces(reader, s[..SepLen(s)], reader(body).value, body[|reader(body).value|..]);
  }

  lemma PermittedPieces(reader: WordReader, sep: string, word: string, x: string)
    requires SepText(sep) && reader(word) == Some(word)
    ensures var y := x[SepLen(x)..];
      PermittedTagged(reader, Tagged(sep, word, x[..SepLen(x)], y[..DigitCount(y)]), y[DigitCount(y)..])
  {
    hide DigitCount, SepLen, IsSep, IsDigit;
    var y := x[SepLen(x)..];
    SepCut(x);
    DigitsCut(y);
  }

  lemma {:induction false} DigitsCut(y: string)
    ensures AllDigits(y[..DigitCount(y)])
    ensures y[DigitCount(y)..] != "" ==> !IsDigit(y[DigitCount(y)..][0])
    ensures y[..DigitCount(y)] == "" ==> y[DigitCount(y)..] == y
  {
    hide DigitCount;
    var n := DigitCount(y);
    assert y[n..] != "" ==> y[n..][0] == y[n];
  }

  lemma TagText(t: Tagged)
    ensures t.Text() == t.sep + t.word + t.sep2 + t.digits
  {
  }

  lemma SepCut(s: string)
    ensures SepText(s[..SepLen(s)])
    ensures s[..SepLen(s)] == "" ==> s[SepLen(s)..] == s && (s != "" ==> !IsSep(s[0]))
  {
  }

  lemma Cut(s: string, n: nat)
    requires n <= |s|
    ensures s == s[..n] + s[n..]
  {
  }

  lemma ScanPostSound(s: string)
    ensures var (post, rest) := ScanPost(s);
      && s == PostText(post) + rest
      && (post.Some? ==> PermittedPost(post.value, rest))
  {
    hide DigitCount, ScanTagged, PermittedTagged;
    if |s| >= 2 && s[0] == '-' && IsDigit(s[1]) {
      ImplicitSound(s);
    } else {
      PostWordReads(s[SepLen(s)..]);
      ScanTaggedSound(PostWord, s);
      var (tag, rest) := ScanTagged(PostWord, s);
      assert tag.Some? ==> PermittedPost(Named(tag.value), rest);
    }
  }

  lemma ImplicitSound(s: string)
    requires |s| >= 2 && s[0] == '-' && IsDigit(s[1])
    ensures var (post, rest) := ScanPost(s);
      post.Some? && s == post.value.Text() + rest && PermittedPost(post.value, rest)
  {
    hide DigitCount;
    var n := DigitCount(s[1..]);
    SomeDigits(s[1..]);
    assert s == "-" + s[1..];
    Cut(s[1..], n);
    DigitsCut(s[1..]);
    Halves("-", s[1..][..n], s[1..][n..]);
  }

  lemma Halves(a: string, b: string, c: string)
    ensures a + b + c == a + (b + c)
  {
  }

  lemma {:induction false} JoinMore(first: string, more: seq<string>)
    requires more != []
    ensures Join('.', [first] + more) == first + ['.'] + Join('.', more)
  {
    assert ([first] + more)[1..] == more;
  }

  lemma {:induction false} ScanReleaseSound(s: string)
    requires s != "" && IsDigit(s[0])
    ensures var (release, rest) := ScanRelease(s);
      && s == Join('.', release) + rest
      && (forall i :: 0 <= i < |release| ==> IsNumeral(release[i]))
  {
    hide Join, DigitCount, ScanRelease;
    var n := DigitCount(s);
    SomeDigits(s);
    ScanReleaseStep(s);
    if n + 1 < |s| && s[n] == '.' && IsDigit(s[n + 1]) {
      var tail := s[n + 1..];
      ScanReleaseSound(tail);
      var (more, rest) := ScanRelease(tail);
      JoinMore(s[..n], more);
      assert s == s[..n] + ['.'] + tail;
      assert s[..n] + ['.'] + (Join('.', more) + rest) == (s[..n] + ['.'] + Join('.', more)) + rest;
    } else {
      JoinStep('.', [s[..n]]);
    }
  }

  lemma {:induction false} ScanReleaseStep(s: string)
    requires s != "" && IsDigit(s[0])
    ensures var n := DigitCount(s);
      ScanRelease(s) ==
        if n + 1 < |s| && s[n] == '.' && IsDigit(s[n + 1])
        then ([s[..n]] + ScanRelease(s[n + 1..]).0, ScanRelease(s[n + 1..]).1)
        else ([s[..n]], s[n..])
  {
  }

  lemma {:induction false} SomeDigits(s: string)
    requires s != "" && IsDigit(s[0])
    ensures DigitCount(s) > 0
  {
  }

  lemma ScanLocalSound(s: string)
    requires ScanLocal(s).Some?
    ensures LocalText(ScanLocal(s).value) == s
    ensures ScanLocal(s).value.Some? ==> IsLocal(ScanLocal(s).value.value)
  {
    if s != "" { assert s == "+" + s[1..]; }
  }

  lemma ScanPartsSound(prefix: string, epoch: Option<string>, s: string)
    requires s != "" && IsDigit(s[0])
    requires prefix == "" || prefix == "v"
    requires epoch.Some? ==> IsNumeral(epoch.value)
    requires ScanParts(prefix, epoch, s).Some?
    ensures var p := ScanParts(prefix, epoch, s).value;
      && Permitted(p) && p.prefix == prefix && p.epoch == epoch && p.AfterEpoch() == s
  {
    var (release, s1) := ScanRelease(s);
    ScanReleaseSound(s);
    var (pre, s2) := ScanTagged(PreWord, s1);
    ScanPreSound(s1);
    var (post, s3) := ScanPost(s2);
    ScanPostSound(s2);
    var (dev, s4) := ScanTagged(DevWord, s3);
    ScanDevSound(s3);
    ScanLocalSound(s4);
    var p := Spelling(prefix, epoch, release, pre, post, dev, ScanLocal(s4).value);
    assert ScanParts(prefix, epoch, s) == Some(p);
    assert p.AfterPost() == s3;
    assert p.AfterPre() == s2;
    assert p.AfterRelease() == s1;
    assert p.AfterEpoch() == s;
  }

  lemma ScanPreSound(s: string)
    ensures var (tag, rest) := ScanTagged(PreWord, s);
      && s == TaggedText(tag) + rest
      && (tag.Some? ==> PermittedTagged(PreWord, tag.value, rest))
  {
    PreWordReads(s[SepLen(s)..]);
    ScanTaggedSound(PreWord, s);
  }

  lemma ScanDevSound(s: string)
    ensures var (tag, rest) := ScanTagged(DevWord, s);
      && s == TaggedText(tag) + rest
      && (tag.Some? ==> PermittedTagged(DevWord, tag.value, rest))
  {
    DevWordReads(s[SepLen(s)..]);
    ScanTaggedSound(DevWord, s);
  }

  lemma ScanEpochSound(prefix: string, s: string)
    requires prefix == "" || prefix == "v"
    requires ScanEpoch(prefix, s).Some?
    ensures var p := ScanEpoch(prefix, s).value;
      Permitted(p) && p.prefix == prefix && EpochText(p.epoch) + p.AfterEpoch() == s
  {
    hide ScanParts, Permitted;
    var n := DigitCount(s);
    if n < |s| && s[n] == '!' {
      var e, rest := s[..n], s[n + 1..];
      ScanPartsSound(prefix, Some(e), rest);
      assert s == (e + "!") + rest;
    } else {
      ScanPartsSound(prefix, None, s);
    }
  }

  /** Accepted text is the text of a permitted spelling, the one the scanner returns. */
  lemma ScanIsSpelling(s: string)
    requires Scan(s).Some?
    ensures Permitted(Scan(s).value) && Scan(s).value.Text() == s
  {
    hide ScanEpoch;
    if s != "" && s[0] == 'v' {
      ScanEpochSound("v", s[1..]);
      assert s == "v" + s[1..];
    } else {
      ScanEpochSound("", s);
    }
  }

  // ---------- Every permitted spelling is scanned back ----------

  /** No character a word could be continued with. */
  predicate Follows(rest: string) {
    rest != "" ==> rest[0] in {'.', '-', '_', '+', 'p', 'r', 'd'}
  }

  predicate FollowsWord(rest: string) {
    rest != "" ==> IsDigit(rest[0]) || rest[0] in {'.', '-', '_', '+', 'p', 'r', 'd'}
  }

  lemma PreWordThen(word: string, rest: string)
    requires PreWord(word) == Some(word) && FollowsWord(rest)
    ensures PreWord(word + rest) == Some(word)
    ensures word != "" && IsLower(word[0])
  {
    var s := word + rest;
    assert word <= s;
    if rest != "" { assert s[|word|] == rest[0]; }
  }

  lemma PostWordThen(word: string, rest: string)
    requires PostWord(word) == Some(word) && FollowsWord(rest)
    ensures PostWord(word + rest) == Some(word)
    ensures PreWord(word + rest) == None
    ensures word != "" && word[0] in {'p', 'r'}
  {
    var s := word + rest;
    assert word <= s;
    assert s[0] == word[0];
    assert |s| > 1 ==> s[1] == if |word| > 1 then word[1] else rest[0];
  }

  lemma DevWordThen(word: string, rest: string)
    requires DevWord(word) == Some(word)
    ensures DevWord(word + rest) == Some(word)
    ensures word != "" && word[0] == 'd'
  {
    assert word <= word + rest;
  }

  function Tail(t: Tagged, rest: string): string {
    t.sep2 + (t.digits + rest)
  }

  lemma TailFollows(reader: WordReader, t: Tagged, rest: string)
    requires PermittedTagged(reader, t, rest) && Follows(rest)
    ensures FollowsWord(Tail(t, rest))
  {
    if t.sep2 != "" {
      assert Tail(t, rest)[0] == t.sep2[0];
    } else if t.digits != "" {
      assert Tail(t, rest)[0] == t.digits[0];
    } else {
      assert Tail(t, rest) == rest;
    }
  }

  lemma SepRun(sep: string, rest: string)
    requires SepText(sep)
    requires sep == "" && rest != "" ==> !IsSep(rest[0])
    ensures SepLen(sep + rest) == |sep|
    ensures (sep + rest)[..|sep|] == sep && (sep + rest)[|sep|..] == rest
  {
    if rest != "" { assert (sep + rest)[|sep|] == rest[0]; }
  }

  /** The text of a part, split where the scanner splits it. */
  lemma TaggedStart(reader: WordReader, t: Tagged, rest: string)
    requires PermittedTagged(reader, t, rest) && t.word != "" && IsLower(t.word[0])
    ensures var s := t.Text() + rest;
      && SepLen(s) == |t.sep| && s[..|t.sep|] == t.sep
      && s[|t.sep|..] == t.word + Tail(t, rest)
      && |t.sep| < |s| && s[|t.sep|] == t.word[0]
  {
    Assoc(t.sep, t.word, t.sep2, t.digits, rest);
    SepRun(t.sep, t.word + Tail(t, rest));
  }

  lemma TaggedScans(reader: WordReader, t: Tagged, rest: string)
    requires PermittedTagged(reader, t, rest) && t.word != "" && IsLower(t.word[0])
    requires reader(t.word + Tail(t, rest)) == Some(t.word)
    ensures ScanTagged(reader, t.Text() + rest) == (Some(t), rest)
  {
    TaggedStart(reader, t, rest);
    assert (t.word + Tail(t, rest))[|t.word|..] == Tail(t, rest);
    if t.sep2 == "" && t.digits != "" { assert (t.digits + rest)[0] == t.digits[0]; }
    if t.sep2 == "" && t.digits == "" { assert t.digits + rest == rest; }
    SepRun(t.sep2, t.digits + rest);
    DigitRun(t.digits, rest);
  }

  /** Nothing, a local label, or (after a separator) the letter a development part begins with. */
  predicate AfterPostStart(rest: string) {
    rest == "" || rest[0] == '+' || (SepLen(rest) < |rest| && rest[SepLen(rest)] == 'd')
  }

  lemma DevScans(t: Tagged, rest: string)
    requires PermittedTagged(DevWord, t, rest) && (rest == "" || rest[0] == '+')
    ensures ScanTagged(DevWord, t.Text() + rest) == (Some(t), rest)
    ensures AfterPostStart(t.Text() + rest)
  {
    hide DevWord, ScanTagged;
    TailFollows(DevWord, t, rest);
    DevWordThen(t.word, Tail(t, rest));
    TaggedScans(DevWord, t, rest);
    TaggedStart(DevWord, t, rest);
  }

  lemma NoDev(rest: string)
    requires rest == "" || rest[0] == '+'
    ensures ScanTagged(DevWord, rest) == (None, rest) && AfterPostStart(rest)
  {
  }

  lemma DevPart(p: Spelling)
    requires Permitted(p)
    ensures ScanTagged(DevWord, p.AfterPost()) == (p.dev, LocalText(p.local))
    ensures AfterPostStart(p.AfterPost())
  {
    hide ScanTagged, PermittedTagged, AfterPostStart;
    var rest := LocalText(p.local);
    if p.dev.Some? {
      DevScans(p.dev.value, rest);
    } else {
      NoDev(rest);
      assert p.AfterPost() == rest;
    }
  }

  /** As `AfterPostStart`, or a digit after a dash, or a post-release word. */
  predicate AfterPreStart(rest: string) {
    || AfterPostStart(rest)
    || (|rest| > 1 && rest[0] == '-' && IsDigit(rest[1]))
    || (SepLen(rest) < |rest| && rest[SepLen(rest)] in {'p', 'r'} && PreWord(rest[SepLen(rest)..]) == None)
  }

  lemma AfterPostFollows(rest: string)
    requires AfterPostStart(rest)
    ensures Follows(rest)
    ensures ScanPost(rest) == (None, rest)
  {
    hide DigitCount, ScanTagged, AfterPostStart;
    NoPostTag(rest);
    FollowsAfterPost(rest);
  }

  lemma FollowsAfterPost(rest: string)
    requires AfterPostStart(rest)
    ensures Follows(rest)
    ensures |rest| > 1 && rest[0] == '-' ==> !IsDigit(rest[1])
  {
  }

  lemma NoPostTag(rest: string)
    requires AfterPostStart(rest)
    ensures ScanTagged(PostWord, rest) == (None, rest)
  {
    hide DigitCount;
    var body := rest[SepLen(rest)..];
    if body != "" { assert body[0] == rest[SepLen(rest)]; }
  }

  lemma NotPreWord(body: string)
    requires body != "" ==> body[0] in {'+', 'd'} || IsDigit(body[0])
    ensures PreWord(body) == None
  {
  }

  lemma AfterPreFollows(rest: string)
    requires AfterPreStart(rest)
    ensures Follows(rest)
    ensures ScanTagged(PreWord, rest) == (None, rest)
  {
    hide PreWord;
    var body := rest[SepLen(rest)..];
    if body != "" { assert body[0] == rest[SepLen(rest)]; }
    if PreWord(body) != None { NotPreWord(body); }
  }

  lemma PostPart(p: Spelling)
    requires Permitted(p)
    ensures ScanPost(p.AfterPre()) == (p.post, p.AfterPost())
    ensures AfterPreStart(p.AfterPre())
  {
    hide PreWord, PostWord, DevWord;
    DevPart(p);
    AfterPostFollows(p.AfterPost());
    if p.post.None? {
      assert p.AfterPre() == p.AfterPost();
    } else if p.post.value.Implicit? {
      ImplicitScans(p.post.value.digits, p.AfterPost());
    } else {
      NamedScans(p.post.value.tag, p.AfterPost());
    }
  }

  lemma NamedScans(t: Tagged, rest: string)
    requires PermittedTagged(PostWord, t, rest) && Follows(rest)
    ensures ScanPost(t.Text() + rest) == (Some(Named(t)), rest)
    ensures AfterPreStart(t.Text() + rest)
  {
    hide PreWord, PostWord;
    TailFollows(PostWord, t, rest);
    PostWordThen(t.word, Tail(t, rest));
    TaggedScans(PostWord, t, rest);
    TaggedStart(PostWord, t, rest);
    NotImplicit(t.sep, t.word + Tail(t, rest), t.Text() + rest);
  }

  lemma NotImplicit(sep: string, body: string, s: string)
    requires SepText(sep) && body != "" && IsLower(body[0])
    requires |sep| <= |s| && s[..|sep|] == sep && s[|sep|..] == body
    ensures |s| >= 2 && s[0] == '-' ==> !IsDigit(s[1])
  {
    assert s == sep + body;
  }

  lemma ImplicitScans(digits: string, rest: string)
    requires IsNumeral(digits) && (rest != "" ==> !IsDigit(rest[0]))
    ensures ScanPost("-" + digits + rest) == (Some(Implicit(digits)), rest)
    ensures AfterPreStart("-" + digits + rest)
  {
    var s := "-" + digits + rest;
    assert s[1..] == digits + rest;
    assert s[1] == digits[0];
    DigitRun(digits, rest);
  }

  /** The release cannot go on here. */
  predicate AfterReleaseStart(rest: string) {
    && (rest != "" ==> !IsDigit(rest[0]) && rest[0] != '!')
    && (|rest| > 1 && rest[0] == '.' ==> !IsDigit(rest[1]))
  }

  lemma AfterPreEndsRelease(rest: string)
    requires AfterPreStart(rest)
    ensures AfterReleaseStart(rest)
  {
  }

  lemma LabelEndsRelease(sep: string, body: string, s: string)
    requires SepText(sep) && body != "" && IsLower(body[0])
    requires |sep| <= |s| && s[..|sep|] == sep && s[|sep|..] == body
    ensures AfterReleaseStart(s)
  {
    assert s == sep + body;
  }

  lemma PreScans(t: Tagged, rest: string)
    requires PermittedTagged(PreWord, t, rest) && Follows(rest)
    ensures ScanTagged(PreWord, t.Text() + rest) == (Some(t), rest)
    ensures AfterReleaseStart(t.Text() + rest)
  {
    hide PreWord;
    TailFollows(PreWord, t, rest);
    PreWordThen(t.word, Tail(t, rest));
    TaggedScans(PreWord, t, rest);
    TaggedStart(PreWord, t, rest);
    LabelEndsRelease(t.sep, t.word + Tail(t, rest), t.Text() + rest);
  }

  lemma PrePart(p: Spelling)
    requires Permitted(p)
    ensures ScanTagged(PreWord, p.AfterRelease()) == (p.pre, p.AfterPre())
    ensures AfterReleaseStart(p.AfterRelease())
  {
    hide PreWord, PostWord, DevWord, ScanTagged, PermittedTagged, PermittedPost, IsLocal, AfterReleaseStart;
    PostPart(p);
    var rest := p.AfterPre();
    AfterPreFollows(rest);
    if p.pre.Some? {
      PreScans(p.pre.value, rest);
    } else {
      assert p.AfterRelease() == rest;
      AfterPreEndsRelease(rest);
    }
  }

  lemma {:induction false} JoinStep(sep: char, parts: seq<string>)
    requires parts != []
    ensures |parts| == 1 ==> Join(sep, parts) == parts[0]
    ensures |parts| > 1 ==> Join(sep, parts) == parts[0] + [sep] + Join(sep, parts[1..])
  {
  }

  lemma {:induction false} ReleasePart(release: seq<string>, rest: string)
    requires release != [] && forall i :: 0 <= i < |release| ==> IsNumeral(release[i])
    requires AfterReleaseStart(rest)
    ensures var s := Join('.', release) + rest;
      && s != "" && IsDigit(s[0]) && ScanRelease(s) == (release, rest)
      && (DigitCount(s) < |s| ==> s[DigitCount(s)] != '!')
  {
    hide Join, ScanRelease, DigitCount, AfterReleaseStart;
    var s := Join('.', release) + rest;
    JoinStep('.', release);
    if |release| == 1 {
      LastSegment(release[0], rest);
      assert release == [release[0]];
    } else {
      ReleasePart(release[1..], rest);
      var tail := Join('.', release[1..]) + rest;
      assert s == release[0] + (['.'] + tail);
      FirstSegment(release[0], tail);
      assert [release[0]] + release[1..] == release;
    }
  }

  lemma LastSegment(numeral: string, rest: string)
    requires IsNumeral(numeral) && AfterReleaseStart(rest)
    ensures var s := numeral + rest;
      && s != "" && IsDigit(s[0]) && ScanRelease(s) == ([numeral], rest)
      && DigitCount(s) == |numeral| && (|numeral| < |s| ==> s[|numeral|] != '!')
  {
    DigitRun(numeral, rest);
    assert (numeral + rest)[0] == numeral[0];
  }

  lemma {:induction false} FirstSegment(numeral: string, tail: string)
    requires IsNumeral(numeral) && tail != "" && IsDigit(tail[0])
    ensures var s := numeral + (['.'] + tail);
      && s != "" && IsDigit(s[0]) && ScanRelease(s) == ([numeral] + ScanRelease(tail).0, ScanRelease(tail).1)
      && DigitCount(s) == |numeral| && s[|numeral|] != '!'
  {
    hide DigitCount;
    var s := numeral + (['.'] + tail);
    DigitRun(numeral, ['.'] + tail);
    assert s[|numeral| + 1..] == tail;
    assert s[0] == numeral[0] && s[|numeral|] == '.' && s[|numeral| + 1] == tail[0];
  }

  lemma PartsScan(p: Spelling)
    requires Permitted(p)
    ensures var s := p.AfterEpoch();
      && s != "" && IsDigit(s[0]) && ScanParts(p.prefix, p.epoch, s) == Some(p)
      && (DigitCount(s) < |s| ==> s[DigitCount(s)] != '!')
  {
    hide PreWord, PostWord, DevWord;
    PrePart(p);
    PostPart(p);
    DevPart(p);
    ReleasePart(p.release, p.AfterRelease());
    if p.local.Some? { assert LocalText(p.local)[1..] == p.local.value; }
  }

  /** Every permitted spelling is accepted, and the scanner recovers it. */
  lemma SpellingScans(p: Spelling)
    requires Permitted(p)
    ensures Scan(p.Text()) == Some(p)
  {
    hide ScanParts, ScanEpoch, DigitCount, IsLocal, PermittedTagged, PermittedPost, Join;
    var s1 := EpochText(p.epoch) + p.AfterEpoch();
    EpochPart(p);
    assert p.Text() == p.prefix + s1;
    if p.prefix == "v" {
      assert ("v" + s1)[1..] == s1 && ("v" + s1)[0] == 'v';
    } else {
      assert "" + s1 == s1;
    }
  }

  lemma EpochPart(p: Spelling)
    requires Permitted(p)
    ensures var s := EpochText(p.epoch) + p.AfterEpoch();
      s != "" && IsDigit(s[0]) && ScanEpoch(p.prefix, s) == Some(p)
  {
    PartsScan(p);
    hide ScanParts, IsLocal, PermittedTagged, PermittedPost, Join, DigitCount;
    var s0 := p.AfterEpoch();
    if p.epoch.Some? {
      EpochScans(p.prefix, p.epoch.value, s0);
    } else {
      assert EpochText(p.epoch) + s0 == s0;
      NoEpochScans(p.prefix, s0);
    }
  }

  lemma {:induction false} NoEpochScans(prefix: string, s: string)
    requires s != "" && IsDigit(s[0]) && (DigitCount(s) < |s| ==> s[DigitCount(s)] != '!')
    ensures ScanEpoch(prefix, s) == ScanParts(prefix, None, s)
  {
    hide ScanParts;
    SomeDigits(s);
  }

  lemma EpochScans(prefix: string, e: string, s0: string)
    requires IsNumeral(e) && s0 != "" && IsDigit(s0[0])
    ensures var s := (e + "!") + s0;
      s != "" && IsDigit(s[0]) && ScanEpoch(prefix, s) == ScanParts(prefix, Some(e), s0)
  {
    hide ScanParts;
    var s := (e + "!") + s0;
    assert s == e + ("!" + s0);
    DigitRun(e, "!" + s0);
    assert s[0] == e[0];
    assert s[|e| + 1..] == s0;
  }
}
