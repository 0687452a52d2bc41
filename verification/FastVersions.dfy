/** The numeric version comparison of the minimal resolver, and its agreement with specifiers. */
module FastVersions {
  import opened Orders
  import opened Wrappers
  import opened Specifiers
  import Versions
  import VersionText
  import Text

  function StripNumbers(key: seq<nat>): seq<nat> {
    Versions.Strip(key)
  }

  /** `version_key`: dotted decimals only. */
  function VersionKey(value: string): Option<seq<nat>> {
    var parts := Text.Split({'.'}, value);
    if VersionText.AllNumerals(parts) then Some(StripNumbers(VersionText.Numbers(parts))) else None
  }

  /** The comparison of `requirement_satisfied` for the operators its parser recognises. */
  predicate KeySatisfies(op: Operator, key: seq<nat>, expected: seq<nat>) {
    match op
    case Eq => key == expected
    case Ge => CmpInts(key, expected) != Less
    case Le => CmpInts(key, expected) != Greater
    case Gt => CmpInts(key, expected) == Greater
    case Lt => CmpInts(key, expected) == Less
    case _ => false
  }

  predicate FastOperator(op: Operator) {
    op in {Eq, Ge, Le, Gt, Lt}
  }

  lemma DecimalParses(value: string)
    requires VersionKey(value).Some?
    ensures var v := VersionText.ParseVersion(value);
      && v.Some? && Versions.ValidVersion(v.value)
      && v.value.key == Versions.Key(0, VersionKey(value).value, Versions.FINAL_SUFFIX, [])
  {
    VersionText.DecimalIffNumerals(value);
    VersionText.DecimalPlain(value);
    VersionText.PlainStrip(value);
    VersionText.ParseIsValid(value);
  }

  lemma NoStar(value: string)
    requires VersionKey(value).Some?
    ensures !EndsWithStar(value)
  {
    VersionText.DecimalIffNumerals(value);
    if EndsWithStar(value) {
      assert false;
    }
  }

  /** On dotted decimals the fast comparison is the containment test of the corresponding clause. */
  lemma FastAgrees(op: Operator, version: string, bound: string)
    requires FastOperator(op) && VersionKey(version).Some? && VersionKey(bound).Some?
    ensures var s := MakeSpecifier(op, bound); var v := VersionText.ParseVersion(version);
      && s.Some? && ValidSpecifier(s.value) && v.Some?
      && (KeySatisfies(op, VersionKey(version).value, VersionKey(bound).value) <==> Contains(s.value, v.value))
  {
    hide VersionKey, VersionText.ParseVersion, EndsWithStar, Versions.CmpKey, CmpInts;
    DecimalParses(version);
    DecimalParses(bound);
    NoStar(bound);
    MadeIsValid(op, bound);
    ReleasesDecide(op, VersionText.ParseVersion(version).value, VersionText.ParseVersion(bound).value);
  }

  /** Between final versions without local labels the operators compare releases. */
  lemma ReleasesDecide(op: Operator, v: Versions.Version, w: Versions.Version)
    requires FastOperator(op) && Versions.ValidVersion(v) && Versions.ValidVersion(w)
    requires v.key == Versions.Key(0, v.key.release, Versions.FINAL_SUFFIX, [])
    requires w.key == Versions.Key(0, w.key.release, Versions.FINAL_SUFFIX, [])
    ensures KeySatisfies(op, v.key.release, w.key.release) <==>
      Contains(Specifier(op, "", Some(w), false), v)
  {
    IntsTotalOrder();
    assert CmpInts(w.key.release, v.key.release) == CmpInts(v.key.release, w.key.release).Flip();
    assert CmpInts(v.key.release, w.key.release) == Equal <==> v.key.release == w.key.release;
    assert Versions.CmpKey(v.key, w.key) == CmpInts(v.key.release, w.key.release);
    assert Versions.CmpKey(w.key, v.key) == CmpInts(w.key.release, v.key.release);
    assert !v.IsPrerelease();
  }
}
