/** Project name normalization (PEP 503). */
module Names {
  import Text

  predicate IsSeparator(c: char) {
    c == '-' || c == '_' || c == '.'
  }

  /** Every run of separators becomes one dash. */
  function Collapse(s: string): string {
    if s == "" then ""
    else if !IsSeparator(s[0]) then [s[0]] + Collapse(s[1..])
    else if |s| > 1 && IsSeparator(s[1]) then Collapse(s[1..])
    else "-" + Collapse(s[1..])
  }

  /** The general path of `canonicalize_name`. */
  function Canonical(name: string): string {
    Text.Lower(Collapse(name))
  }

  /** The test of the fast path: lower case, single dashes, no other separator. */
  predicate LooksCanonical(name: string) {
    && (exists i :: 0 <= i < |name| && Text.IsLower(name[i]))
    && (forall i :: 0 <= i < |name| ==> !('A' <= name[i] <= 'Z') && name[i] != '_' && name[i] != '.')
    && (forall i, j :: 0 <= i < |name| && 0 <= j < |name| && j == i + 1 ==> name[i] != '-' || name[j] != '-')
  }

  function Canonicalize(name: string): string {
    if LooksCanonical(name) then name else Canonical(name)
  }

  lemma {:induction false} CollapseFixed(s: string)
    requires forall i :: 0 <= i < |s| ==> s[i] != '_' && s[i] != '.'
    requires forall i, j :: 0 <= i < |s| && 0 <= j < |s| && j == i + 1 ==> s[i] != '-' || s[j] != '-'
    ensures Collapse(s) == s
  {
    if s != "" {
      assert s == [s[0]] + s[1..];
      CollapseFixed(s[1..]);
    }
  }

  /** The fast path returns what the general path would. */
  lemma FastPathAgrees(name: string)
    ensures Canonicalize(name) == Canonical(name)
  {
    if LooksCanonical(name) {
      CollapseFixed(name);
      assert Text.Lower(name) == name;
    }
  }

  predicate IsRun(s: string) {
    s != "" && forall i :: 0 <= i < |s| ==> s[i] in {'-', '_', '.'}
  }

  lemma {:induction false} CollapseRun(run: string, after: string)
    requires IsRun(run) && (after != "" ==> after[0] !in {'-', '_', '.'})
    ensures Collapse(run + after) == "-" + Collapse(after)
  {
    var s := run + after;
    if |run| > 1 {
      assert s[1..] == run[1..] + after;
      CollapseRun(run[1..], after);
    } else {
      assert s[1..] == after;
    }
  }

  lemma {:induction false} CollapseAround(before: string, run: string, after: string)
    requires IsRun(run) && (after != "" ==> after[0] !in {'-', '_', '.'})
    requires before != "" ==> before[|before| - 1] !in {'-', '_', '.'}
    ensures Collapse(before + run + after) == Collapse(before) + "-" + Collapse(after)
  {
    if before == "" {
      assert before + run + after == run + after;
      CollapseRun(run, after);
    } else {
      var s := before + run + after;
      assert s[1..] == before[1..] + run + after;
      CollapseAround(before[1..], run, after);
      assert |before| > 1 ==> s[1] == before[1];
    }
  }

  /** Any run of separators counts as one dash, wherever it stands. */
  lemma RunIsDash(before: string, run: string, after: string)
    requires IsRun(run) && (after != "" ==> after[0] !in {'-', '_', '.'})
    requires before != "" ==> before[|before| - 1] !in {'-', '_', '.'}
    ensures Canonicalize(before + run + after) == Canonicalize(before) + "-" + Canonicalize(after)
  {
    hide Collapse, Canonicalize;
    FastPathAgrees(before + run + after);
    FastPathAgrees(before);
    FastPathAgrees(after);
    CollapseAround(before, run, after);
    assert Text.Lower("-") == "-";
  }

  /** Apart from separators only the case of letters is lost. */
  lemma NoRun(name: string)
    requires forall i :: 0 <= i < |name| ==> name[i] !in {'-', '_', '.'}
    ensures Canonicalize(name) == Text.Lower(name)
  {
    hide Canonicalize;
    FastPathAgrees(name);
    CollapseFixed(name);
  }
}
