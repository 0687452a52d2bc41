/**
  Constructing versions from text, printing them, and their wire records.

  `ParseVersion` is the constructor without its intern table, `VersionTable.Make` the constructor
  with it. The main result is that the canonical spelling parses back to the very same version, so
  that `Public` tells apart any two versions that differ in key or in written release.
*/
module VersionText {
  import opened Wrappers
  import opened Versions
  import opened VersionGrammar
  import opened Text

  // ---------- Construction ----------

  /** Only digits and dots, no empty segment: the branch that skips the grammar. */
  predicate IsDecimal(raw: string) {
    && raw != ""
    && (forall i :: 0 <= i < |raw| ==> IsDigit(raw[i]) || raw[i] == '.')
    && (exists i :: 0 <= i < |raw| && IsDigit(raw[i]))
    && (forall i, j :: 0 <= i < |raw| && 0 <= j < |raw| && j == i + 1 ==> raw[i] != '.' || raw[j] != '.')
    && raw[0] != '.' && raw[|raw| - 1] != '.'
  }

  predicate AllNumerals(texts: seq<string>) {
    forall i :: 0 <= i < |texts| ==> IsNumeral(texts[i])
  }

  function Numbers(texts: seq<string>): (r: seq<nat>)
    requires forall i :: 0 <= i < |texts| ==> AllDigits(texts[i])
    ensures |r| == |texts| && forall i :: 0 <= i < |texts| ==> r[i] == NatValue(texts[i])
  {
    seq(|texts|, i requires 0 <= i < |texts| => NatValue(texts[i]))
  }

  const SEPS := {'.', '-', '_'}

  function LocalPartOf(text: string): LocalPart {
    if IsNumeral(text) then Number(NatValue(text)) else Word(text)
  }

  /** No two separators are adjacent in a matched label, so each separator ends one segment. */
  function LocalOf(local: string): seq<LocalPart> {
    var texts := Split(SEPS, local);
    seq(|texts|, i requires 0 <= i < |texts| => LocalPartOf(texts[i]))
  }

  function StageOf(word: string): PreStage {
    if word == "a" || word == "alpha" then Alpha
    else if word == "b" || word == "beta" then Beta
    else Candidate
  }

  function PostNumber(post: PostSpelling): nat
    requires AllDigits(if post.Implicit? then post.digits else post.tag.digits)
  {
    match post
    case Implicit(digits) => NatValue(digits)
    case Named(tag) => NatValue(tag.digits)
  }

  /** What a permitted spelling denotes; an absent number is zero. */
  function Meaning(p: Spelling): Parts
    requires Permitted(p)
  {
    Parts(
      if p.epoch.None? then 0 else NatValue(p.epoch.value),
      Numbers(p.release),
      if p.pre.None? then None else Some(Pre(StageOf(p.pre.value.word), NatValue(p.pre.value.digits))),
      if p.post.None? then None else Some(PostNumber(p.post.value)),
      if p.dev.None? then None else Some(NatValue(p.dev.value.digits)),
      if p.local.None? then [] else LocalOf(p.local.value))
  }

  function FromScan(scan: Option<Spelling>): Option<Version>
    requires scan.Some? ==> Permitted(scan.value)
  {
    if scan.None? then None else Some(Encode(Meaning(scan.value)))
  }

  function GrammarVersion(raw: string): Option<Version> {
    if Scan(Lower(raw)).Some? then
      ScanIsSpelling(Lower(raw));
      FromScan(Scan(Lower(raw)))
    else None
  }

  function DecimalVersion(raw: string): Version
    requires IsDecimal(raw)
  {
    DecimalSplit(raw);
    var release := Numbers(Split({'.'}, raw));
    Version(Key(0, Versions.Strip(release), FINAL_SUFFIX, []), release)
  }

  /** `Version(value)`, or `None` where it raises. */
  function ParseVersion(value: string): Option<Version> {
    var raw := Text.Strip(value);
    if IsDecimal(raw) then Some(DecimalVersion(raw)) else GrammarVersion(raw)
  }

  // ---------- The decimal branch agrees with the grammar ----------

  lemma {:induction false} DecimalSplitSuffix(s: string)
    requires forall i :: 0 <= i < |s| ==> IsDigit(s[i]) || s[i] == '.'
    requires forall i, j :: 0 <= i < |s| && 0 <= j < |s| && j == i + 1 ==> s[i] != '.' || s[j] != '.'
    requires s != "" ==> s[|s| - 1] != '.'
    ensures var parts := Split({'.'}, s);
      && (forall i :: 0 <= i < |parts| ==> AllDigits(parts[i]))
      && (forall i :: 1 <= i < |parts| ==> parts[i] != "")
      && (parts[0] == "" <==> s == "" || s[0] == '.')
  {
    if s != "" {
      assert s == [s[0]] + s[1..];
      DecimalSplitSuffix(s[1..]);
    }
  }

  lemma {:induction false} DecimalSplit(raw: string)
    requires IsDecimal(raw)
    ensures AllNumerals(Split({'.'}, raw))
  {
    DecimalSplitSuffix(raw);
  }

  /** The condition of the decimal branch is that splitting at dots leaves numerals only. */
  lemma {:induction false} DecimalIffNumerals(raw: string)
    ensures IsDecimal(raw) <==> AllNumerals(Split({'.'}, raw))
  {
    if IsDecimal(raw) {
      DecimalSplit(raw);
    } else if AllNumerals(Split({'.'}, raw)) {
      JoinNumerals(Split({'.'}, raw));
      JoinSplit('.', raw);
      assert false;
    }
  }

  lemma {:induction false} JoinNumerals(parts: seq<string>)
    requires parts != [] && AllNumerals(parts)
    ensures IsDecimal(Join('.', parts)) && IsDigit(Join('.', parts)[0])
  {
    if |parts| > 1 {
      JoinNumerals(parts[1..]);
      var tail := Join('.', parts[1..]);
      var s := Join('.', parts);
      assert s == parts[0] + (['.'] + tail);
      assert IsDigit(s[0]);
      forall i, j | 0 <= i < |s| && 0 <= j < |s| && j == i + 1 ensures s[i] != '.' || s[j] != '.' {
        if i > |parts[0]| {
          assert s[i] == tail[i - |parts[0]| - 1] && s[j] == tail[j - |parts[0]| - 1];
        }
      }
    } else {
      assert IsDigit(parts[0][0]);
    }
  }

  lemma LowerPlain(s: string)
    requires Plain(s)
    ensures Lower(s) == s
  {
  }

  lemma DecimalIsGrammar(raw: string)
    requires IsDecimal(raw)
    ensures GrammarVersion(raw) == Some(DecimalVersion(raw))
  {
    hide Scan, Permitted, IsDecimal;
    DecimalSplit(raw);
    JoinSplit('.', raw);
    DecimalPlain(raw);
    LowerPlain(raw);
    var p := Spelling("", None, Split({'.'}, raw), None, None, None, None);
    DecimalSpelling(p);
    assert p.Text() == raw;
    SpellingScans(p);
  }

  lemma DecimalPlain(raw: string)
    requires IsDecimal(raw)
    ensures Plain(raw)
  {
  }

  lemma DecimalSpelling(p: Spelling)
    requires p == Spelling("", None, p.release, None, None, None, None) && p.release != []
    requires forall i :: 0 <= i < |p.release| ==> IsNumeral(p.release[i])
    ensures Permitted(p) && p.Text() == Join('.', p.release)
  {
  }

  /** The constructor is the grammar branch on every text. */
  lemma ParseIsGrammar(value: string)
    ensures ParseVersion(value) == GrammarVersion(Text.Strip(value))
  {
    hide IsDecimal, DecimalVersion, GrammarVersion;
    if IsDecimal(Text.Strip(value)) {
      DecimalIsGrammar(Text.Strip(value));
    }
  }

  // ---------- Everything constructed is valid ----------

  lemma LocalIsValid(local: string)
    requires IsLocal(local)
    ensures forall i :: 0 <= i < |LocalOf(local)| ==> ValidLocalPart(LocalOf(local)[i])
  {
    hide IsLocal, Split;
    var segments, seps := LocalIsLabel(local);
    LabelParts(segments, seps);
    forall i | 0 <= i < |segments| ensures ValidLocalPart(LocalPartOf(segments[i])) {
      SegmentIsValid(segments[i]);
    }
  }

  lemma SegmentIsValid(s: string)
    requires Segment(s)
    ensures ValidLocalPart(LocalPartOf(s))
  {
  }

  lemma ParseIsValid(value: string)
    requires ParseVersion(value).Some?
    ensures ValidVersion(ParseVersion(value).value)
  {
    hide Scan, IsDecimal, DecimalVersion, GrammarVersion;
    ParseIsGrammar(value);
    GrammarIsValid(Text.Strip(value));
  }

  lemma GrammarIsValid(raw: string)
    requires GrammarVersion(raw).Some?
    ensures ValidVersion(GrammarVersion(raw).value)
  {
    hide Scan;
    ScanIsSpelling(Lower(raw));
    var p := Scan(Lower(raw)).value;
    if p.local.Some? { LocalIsValid(p.local.value); }
    EncodeDecode(Meaning(p));
  }

  // ---------- Printing ----------

  function IntText(n: int): string {
    if n < 0 then "-" + NatText(-n) else NatText(n)
  }

  function StageText(rank: int): string
    requires 0 <= rank < 3
  {
    if rank == 0 then "a" else if rank == 1 then "b" else "rc"
  }

  function PartText(part: LocalPart): string {
    match part
    case Word(text) => text
    case Number(n) => NatText(n)
  }

  function Texts(release: seq<nat>): seq<string> {
    seq(|release|, i requires 0 <= i < |release| => NatText(release[i]))
  }

  function PartTexts(local: seq<LocalPart>): seq<string> {
    seq(|local|, i requires 0 <= i < |local| => PartText(local[i]))
  }

  function JoinAll(parts: seq<string>): string {
    if parts == [] then "" else Join('.', parts)
  }

  /** `Version.public`. */
  function Public(v: Version): string {
    var s := v.key.suffix;
    (if v.key.epoch != 0 then NatText(v.key.epoch) + "!" else "")
    + JoinAll(Texts(v.release))
    + (if s == FINAL_SUFFIX then ""
       else
         (if 0 <= s.preRank < 3 then StageText(s.preRank) + IntText(s.preNumber) else "")
         + (if s.postRank != 0 then ".post" + IntText(s.postNumber) else "")
         + (if s.devRank == 0 then ".dev" + IntText(s.devNumber) else ""))
    + (if v.key.local != [] then "+" + JoinAll(PartTexts(v.key.local)) else "")
  }

  /** The spelling `Public` writes. */
  function Canonical(p: Parts): Spelling {
    Spelling(
      "",
      if p.epoch == 0 then None else Some(NatText(p.epoch)),
      Texts(p.release),
      if p.pre.None? then None else Some(Tagged("", StageText(PreRank(p.pre.value.stage)), "", NatText(p.pre.value.number))),
      if p.post.None? then None else Some(Named(Tagged(".", "post", "", NatText(p.post.value)))),
      if p.dev.None? then None else Some(Tagged(".", "dev", "", NatText(p.dev.value))),
      if p.local == [] then None else Some(JoinAll(PartTexts(p.local))))
  }

  lemma PublicPre(p: Parts)
    ensures var s := EncodeSuffix(p.pre, p.post, p.dev);
      && TaggedText(Canonical(p).pre) == (if 0 <= s.preRank < 3 then StageText(s.preRank) + IntText(s.preNumber) else "")
      && (s == FINAL_SUFFIX ==> TaggedText(Canonical(p).pre) == "")
  {
    hide NatText, Texts, PartTexts, JoinAll;
  }

  lemma PublicPost(p: Parts)
    ensures var s := EncodeSuffix(p.pre, p.post, p.dev);
      && PostText(Canonical(p).post) == (if s.postRank != 0 then ".post" + IntText(s.postNumber) else "")
      && (s == FINAL_SUFFIX ==> PostText(Canonical(p).post) == "")
  {
    hide NatText, Texts, PartTexts, JoinAll;
  }

  lemma PublicDev(p: Parts)
    ensures var s := EncodeSuffix(p.pre, p.post, p.dev);
      && TaggedText(Canonical(p).dev) == (if s.devRank == 0 then ".dev" + IntText(s.devNumber) else "")
      && (s == FINAL_SUFFIX ==> TaggedText(Canonical(p).dev) == "")
  {
    hide NatText, Texts, PartTexts, JoinAll;
  }

  lemma PublicSuffix(p: Parts)
    requires p.release != []
    ensures var s := EncodeSuffix(p.pre, p.post, p.dev); var c := Canonical(p);
      TaggedText(c.pre) + PostText(c.post) + TaggedText(c.dev) ==
      if s == FINAL_SUFFIX then ""
      else
        (if 0 <= s.preRank < 3 then StageText(s.preRank) + IntText(s.preNumber) else "")
        + (if s.postRank != 0 then ".post" + IntText(s.postNumber) else "")
        + (if s.devRank == 0 then ".dev" + IntText(s.devNumber) else "")
  {
    hide Canonical, EncodeSuffix, IntText, TaggedText, PostText, StageText;
    PublicPre(p);
    PublicPost(p);
    PublicDev(p);
  }

  lemma Regroup(e: string, r: string, a: string, b: string, c: string, l: string)
    ensures "" + (e + (r + (a + (b + (c + l))))) == e + r + (a + b + c) + l
  {
  }

  lemma PublicIsCanonical(p: Parts)
    requires ValidParts(p)
    ensures Canonical(p).release != [] && Public(Encode(p)) == Canonical(p).Text()
  {
    hide NatText, Join, EncodeSuffix, PartTexts, StageText;
    var c := Canonical(p);
    PublicSuffix(p);
    assert c.release == Texts(p.release) != [];
    Regroup(EpochText(c.epoch), Join('.', c.release), TaggedText(c.pre), PostText(c.post), TaggedText(c.dev), LocalText(c.local));
  }

  // ---------- Reading back what was printed ----------

  predicate Plain(s: string) {
    forall i :: 0 <= i < |s| ==> !IsSpace(s[i]) && !('A' <= s[i] <= 'Z')
  }

  lemma {:induction false} JoinPlain(parts: seq<string>)
    requires parts != [] && forall i :: 0 <= i < |parts| ==> Plain(parts[i])
    ensures Plain(Join('.', parts))
  {
    if |parts| > 1 { JoinPlain(parts[1..]); }
  }

  lemma PlainStrip(s: string)
    requires Plain(s)
    ensures Text.Strip(s) == s
  {
  }

  lemma PartTextSpec(part: LocalPart)
    requires ValidLocalPart(part)
    ensures var t := PartText(part);
      && t != "" && (forall k :: 0 <= k < |t| ==> IsAlnum(t[k])) && LocalPartOf(t) == part
  {
    hide NatText;
    if part.Number? { NatRoundTrip(part.value); }
  }

  lemma {:induction false} JoinLocal(parts: seq<string>)
    requires parts != []
    requires forall i :: 0 <= i < |parts| ==> parts[i] != "" && forall k :: 0 <= k < |parts[i]| ==> IsAlnum(parts[i][k])
    ensures IsLocal(Join('.', parts))
  {
    if |parts| > 1 {
      JoinLocal(parts[1..]);
      LocalMore(parts[0], '.', Join('.', parts[1..]));
    }
  }

  lemma LocalRoundTrip(local: seq<LocalPart>)
    requires local != [] && forall i :: 0 <= i < |local| ==> ValidLocalPart(local[i])
    ensures IsLocal(JoinAll(PartTexts(local))) && Plain(JoinAll(PartTexts(local)))
    ensures LocalOf(JoinAll(PartTexts(local))) == local
  {
    hide PartText, IsLocal, NatText, LocalPartOf;
    var texts := PartTexts(local);
    forall i | 0 <= i < |texts|
      ensures texts[i] != "" && (forall k :: 0 <= k < |texts[i]| ==> IsAlnum(texts[i][k]))
      ensures Free(SEPS, texts[i]) && LocalPartOf(texts[i]) == local[i]
    {
      PartTextSpec(local[i]);
    }
    JoinLocal(texts);
    SplitJoin(SEPS, '.', texts);
    forall i | 0 <= i < |texts| ensures Plain(texts[i]) { }
    JoinPlain(texts);
  }

  lemma StageWord(rank: int)
    requires 0 <= rank < 3
    ensures PreWord(StageText(rank)) == Some(StageText(rank))
  {
    var w := StageText(rank);
    assert w[0] == if rank == 0 then 'a' else if rank == 1 then 'b' else 'r';
  }

  lemma CanonicalPermitted(p: Parts)
    requires ValidParts(p)
    ensures Permitted(Canonical(p))
  {
    hide NatText, Join, IsLocal, Texts, PartTexts, JoinAll, PermittedTagged, PermittedPost;
    var c := Canonical(p);
    TextsSpec(p.release);
    if p.local != [] { LocalRoundTrip(p.local); }
    CanonicalStops(p);
    if p.pre.Some? {
      StageWord(PreRank(p.pre.value.stage));
      NumberedPermitted(PreWord, "", StageText(PreRank(p.pre.value.stage)), p.pre.value.number, c.AfterPre());
    }
    if p.post.Some? {
      NumberedPermitted(PostWord, ".", "post", p.post.value, c.AfterPost());
      NamedPermitted(c.post.value.tag, c.AfterPost());
    }
    if p.dev.Some? { NumberedPermitted(DevWord, ".", "dev", p.dev.value, LocalText(c.local)); }
  }

  lemma NamedPermitted(t: Tagged, rest: string)
    requires PermittedTagged(PostWord, t, rest)
    ensures PermittedPost(Named(t), rest)
  {
  }

  /** A part with a number ends before a dot or a plus. */
  lemma {:induction false} NumberedPermitted(reader: WordReader, sep: string, word: string, number: nat, rest: string)
    requires SepText(sep) && reader(word) == Some(word) && (rest == "" || rest[0] in {'.', '+'})
    ensures PermittedTagged(reader, Tagged(sep, word, "", NatText(number)), rest)
  {
    hide NatText;
  }

  lemma CanonicalStops(p: Parts)
    ensures var c := Canonical(p);
      && (LocalText(c.local) == "" || LocalText(c.local)[0] == '+')
      && (c.AfterPost() == "" || c.AfterPost()[0] in {'.', '+'})
      && (c.AfterPre() == "" || c.AfterPre()[0] in {'.', '+'})
  {
    hide NatText, Texts, PartTexts, JoinAll;
  }

  lemma TextsSpec(release: seq<nat>)
    ensures |Texts(release)| == |release| && AllNumerals(Texts(release))
    ensures Numbers(Texts(release)) == release
    ensures forall i :: 0 <= i < |release| ==> Plain(Texts(release)[i])
  {
    hide NatText;
    forall i | 0 <= i < |release| ensures NatValue(Texts(release)[i]) == release[i] {
      NatRoundTrip(release[i]);
    }
  }

  lemma CanonicalMeaning(p: Parts)
    requires ValidParts(p)
    ensures Permitted(Canonical(p)) && Meaning(Canonical(p)) == p
  {
    hide NatText, Join, IsLocal, Texts, PartTexts, Permitted, LocalOf, JoinAll;
    CanonicalPermitted(p);
    TextsSpec(p.release);
    CanonicalNumbers(p);
    if p.pre.Some? { StageBack(p.pre.value.stage); }
    if p.local != [] { LocalBack(p.local); }
  }

  lemma CanonicalNumbers(p: Parts)
    ensures NatValue(NatText(p.epoch)) == p.epoch
    ensures p.pre.Some? ==> NatValue(NatText(p.pre.value.number)) == p.pre.value.number
    ensures p.post.Some? ==> NatValue(NatText(p.post.value)) == p.post.value
    ensures p.dev.Some? ==> NatValue(NatText(p.dev.value)) == p.dev.value
  {
    hide NatText, NatValue;
    NatRoundTrip(p.epoch);
    if p.pre.Some? { NatRoundTrip(p.pre.value.number); }
    if p.post.Some? { NatRoundTrip(p.post.value); }
    if p.dev.Some? { NatRoundTrip(p.dev.value); }
  }

  lemma StageBack(stage: PreStage)
    ensures StageOf(StageText(PreRank(stage))) == stage
  {
  }

  lemma LocalBack(local: seq<LocalPart>)
    requires local != [] && forall i :: 0 <= i < |local| ==> ValidLocalPart(local[i])
    ensures LocalOf(JoinAll(PartTexts(local))) == local
  {
    hide LocalOf, JoinAll, PartTexts;
    LocalRoundTrip(local);
  }

  // ---------- Permitted spellings are lower case and without white space ----------

  lemma WordsPlain(word: string)
    requires PreWord(word) == Some(word) || PostWord(word) == Some(word) || DevWord(word) == Some(word)
    ensures Plain(word)
  {
    hide PreWord, PostWord, DevWord, Plain;
    PreWords(word);
    PostWords(word);
    DevWords(word);
    PlainShort();
    PlainLong();
  }

  lemma PlainShort()
    ensures Plain("a") && Plain("b") && Plain("c") && Plain("rc") && Plain("r") && Plain("pre")
  {
  }

  lemma PlainLong()
    ensures Plain("alpha") && Plain("beta") && Plain("preview") && Plain("post") && Plain("rev") && Plain("dev")
  {
  }

  lemma TaggedPlain(t: Tagged)
    requires SepText(t.sep) && SepText(t.sep2) && AllDigits(t.digits)
    requires PreWord(t.word) == Some(t.word) || PostWord(t.word) == Some(t.word) || DevWord(t.word) == Some(t.word)
    ensures Plain(t.Text())
  {
    hide PreWord, PostWord, DevWord;
    WordsPlain(t.word);
  }

  lemma PostPlain(post: PostSpelling, rest: string)
    requires PermittedPost(post, rest)
    ensures Plain(post.Text())
  {
    if post.Named? { TaggedPlain(post.tag); }
  }

  lemma PlainPair(a: string, b: string)
    requires Plain(a) && Plain(b)
    ensures Plain(a + b)
  {
  }

  lemma PlainMarks()
    ensures Plain("") && Plain("v") && Plain("+") && Plain("!")
  {
  }

  lemma LocalPlain(local: string)
    requires IsLocal(local)
    ensures Plain(local)
  {
  }

  lemma {:induction false} ReleasePlain(release: seq<string>)
    requires release != [] && forall i :: 0 <= i < |release| ==> IsNumeral(release[i])
    ensures Plain(Join('.', release))
  {
    JoinPlain(release);
  }

  lemma NumeralPlain(s: string)
    requires IsNumeral(s)
    ensures Plain(s)
  {
  }

  lemma PermittedPlain(p: Spelling)
    requires Permitted(p)
    ensures Plain(p.Text())
  {
    hide Plain, Join, IsLocal, PermittedPost;
    PlainMarks();
    ReleasePlain(p.release);
    if p.epoch.Some? { NumeralPlain(p.epoch.value); PlainPair(p.epoch.value, "!"); }
    if p.pre.Some? { TaggedPlain(p.pre.value); }
    if p.post.Some? { PostPlain(p.post.value, p.AfterPost()); }
    if p.dev.Some? { TaggedPlain(p.dev.value); }
    if p.local.Some? { LocalPlain(p.local.value); PlainPair("+", p.local.value); }
    PlainPair(TaggedText(p.dev), LocalText(p.local));
    PlainPair(PostText(p.post), p.AfterPost());
    PlainPair(TaggedText(p.pre), p.AfterPre());
    PlainPair(Join('.', p.release), p.AfterRelease());
    PlainPair(EpochText(p.epoch), p.AfterEpoch());
    PlainPair(p.prefix, EpochText(p.epoch) + p.AfterEpoch());
  }

  /** Letter case and white space around the text do not matter. */
  lemma SpellingParses(raw: string, p: Spelling)
    requires Permitted(p) && Lower(Text.Strip(raw)) == p.Text()
    ensures ParseVersion(raw) == Some(Encode(Meaning(p)))
  {
    hide ParseVersion, Scan, Permitted, Meaning;
    ParseIsGrammar(raw);
    SpellingScans(p);
  }

  lemma PermittedParses(p: Spelling)
    requires Permitted(p)
    ensures ParseVersion(p.Text()) == Some(Encode(Meaning(p)))
  {
    hide ParseVersion, Scan, Meaning;
    PermittedPlain(p);
    PlainStrip(p.Text());
    LowerPlain(p.Text());
    SpellingParses(p.Text(), p);
  }

  /** The canonical spelling of a valid version is read back as that version, key and release. */
  lemma PublicRoundTrip(v: Version)
    requires ValidVersion(v)
    ensures ParseVersion(Public(v)) == Some(v)
  {
    hide ParseVersion, Public, Scan, Canonical, Permitted, Meaning;
    PublicIsCanonical(Decode(v));
    CanonicalMeaning(Decode(v));
    PermittedParses(Canonical(Decode(v)));
  }

  /** Two valid versions are printed alike only if they agree in key and in written release. */
  lemma PublicInjective(v: Version, w: Version)
    requires ValidVersion(v) && ValidVersion(w)
    ensures Public(v) == Public(w) <==> v == w
  {
    if Public(v) == Public(w) {
      PublicRoundTrip(v);
      PublicRoundTrip(w);
    }
  }

  /** Printing normalizes: every accepted text and its canonical spelling denote one version. */
  lemma Normalization(value: string)
    requires ParseVersion(value).Some?
    ensures ParseVersion(Public(ParseVersion(value).value)) == ParseVersion(value)
  {
    ParseIsValid(value);
    PublicRoundTrip(ParseVersion(value).value);
  }

  // ---------- What every spelling denotes ----------

  lemma {:induction false} LabelParts(segments: seq<string>, seps: string)
    requires IsLabel(segments, seps)
    ensures Split(SEPS, Label(segments, seps)) == segments
  {
    hide Split, Segment;
    SegmentFree(segments[0]);
    if seps != "" {
      var rest := Label(segments[1..], seps[1..]);
      LabelParts(segments[1..], seps[1..]);
      SplitPrefix(SEPS, segments[0], [seps[0]] + rest);
      assert ([seps[0]] + rest)[1..] == rest;
      assert segments[0] + [seps[0]] + rest == segments[0] + ([seps[0]] + rest);
    } else {
      SplitPrefix(SEPS, segments[0], "");
      assert segments[0] + "" == segments[0] && segments == [segments[0]];
    }
  }

  lemma SegmentFree(s: string)
    requires Segment(s)
    ensures Free(SEPS, s)
  {
  }

  /** A segment of digits alone is a number, every other one is text. */
  ghost predicate LocalMeans(local: seq<LocalPart>, segments: seq<string>) {
    && |local| == |segments|
    && forall i :: 0 <= i < |segments| ==>
         local[i] == if AllDigits(segments[i]) then Number(NatValue(segments[i])) else Word(segments[i])
  }

  lemma {:induction false} LocalMeaning(segments: seq<string>, seps: string)
    requires IsLabel(segments, seps)
    ensures LocalMeans(LocalOf(Label(segments, seps)), segments)
  {
    LabelParts(segments, seps);
  }

  /** The three stages by all their words; an absent number is zero. */
  predicate PreMeans(pre: Option<Pre>, t: Option<Tagged>)
    requires t.Some? ==> AllDigits(t.value.digits)
  {
    if t.None? then pre.None?
    else
      && pre.Some? && pre.value.number == NatValue(t.value.digits)
      && (t.value.word in {"a", "alpha"} ==> pre.value.stage == Alpha)
      && (t.value.word in {"b", "beta"} ==> pre.value.stage == Beta)
      && (t.value.word in {"c", "rc", "pre", "preview"} ==> pre.value.stage == Candidate)
  }

  /** What each part of a permitted spelling denotes, whatever its case and the white space around it. */
  lemma SpellingMeans(raw: string, p: Spelling)
    requires Permitted(p) && Lower(Text.Strip(raw)) == p.Text()
    ensures ParseVersion(raw).Some?
    ensures var parts := Decode(ParseVersion(raw).value);
      && parts.epoch == (if p.epoch.Some? then NatValue(p.epoch.value) else 0)
      && |parts.release| == |p.release|
      && (forall i :: 0 <= i < |p.release| ==> parts.release[i] == NatValue(p.release[i]))
      && PreMeans(parts.pre, p.pre)
      && (p.post.None? ==> parts.post.None?)
      && (p.post.Some? ==>
            parts.post == Some(NatValue(if p.post.value.Implicit? then p.post.value.digits else p.post.value.tag.digits)))
      && parts.dev == (if p.dev.Some? then Some(NatValue(p.dev.value.digits)) else None)
    ensures var local := Decode(ParseVersion(raw).value).local;
      && (p.local.None? ==> local == [])
      && forall segments, seps ::
           IsLabel(segments, seps) && p.local == Some(Label(segments, seps)) ==> LocalMeans(local, segments)
  {
    hide ParseVersion, Encode, Decode, Scan, IsLocal, LocalOf, LocalMeans, Label;
    SpellingParses(raw, p);
    MeaningIsValid(p);
    EncodeDecode(Meaning(p));
    forall segments, seps | IsLabel(segments, seps) && p.local == Some(Label(segments, seps))
      ensures LocalMeans(LocalOf(p.local.value), segments)
    {
      LocalMeaning(segments, seps);
    }
  }

  lemma MeaningIsValid(p: Spelling)
    requires Permitted(p)
    ensures ValidParts(Meaning(p))
  {
    hide IsLocal, LocalOf;
    if p.local.Some? { LocalIsValid(p.local.value); }
  }

  predicate SameStage(word: string, other: string) {
    || {word, other} <= {"a", "alpha"}
    || {word, other} <= {"b", "beta"}
    || {word, other} <= {"c", "rc", "pre", "preview"}
  }

  lemma SameStageWords(word: string, other: string)
    requires SameStage(word, other)
    ensures PreWord(other) == Some(other) && StageOf(other) == StageOf(word)
  {
    assert word in {word, other} && other in {word, other};
    PreWords(other);
  }

  /** Words of one stage can be exchanged. */
  lemma StageWords(p: Spelling, word: string)
    requires Permitted(p) && p.pre.Some? && SameStage(p.pre.value.word, word)
    ensures var q := p.(pre := Some(p.pre.value.(word := word)));
      Permitted(q) && ParseVersion(q.Text()) == ParseVersion(p.Text())
  {
    hide ParseVersion, PreWord, SameStage, StageOf, PermittedPost, IsLocal;
    var q := p.(pre := Some(p.pre.value.(word := word)));
    SameStageWords(p.pre.value.word, word);
    assert q.AfterPre() == p.AfterPre();
    PermittedParses(p);
    PermittedParses(q);
  }

  /** The case of letters and white space around a text never matter. */
  lemma CaseAndSpace(before: string, raw: string, after: string)
    requires AllSpaces(before) && AllSpaces(after)
    ensures ParseVersion(before + raw + after) == ParseVersion(raw)
    ensures ParseVersion(Lower(raw)) == ParseVersion(raw)
  {
    hide Text.Strip, Scan, Permitted;
    ParseIsGrammar(raw);
    ParseIsGrammar(before + raw + after);
    ParseIsGrammar(Lower(raw));
    StripPadded(before, raw, after);
    StripLower(raw);
    assert Lower(Lower(Text.Strip(raw))) == Lower(Text.Strip(raw));
  }

  lemma StripLower(s: string)
    ensures Text.Strip(Lower(s)) == Lower(Text.Strip(s))
  {
    hide Text.Strip;
    var before, after := StripParts(s);
    var core := Text.Strip(s);
    assert Lower(s) == Lower(before) + Lower(core) + Lower(after);
    StripExact(Lower(before), Lower(core), Lower(after));
  }
}
