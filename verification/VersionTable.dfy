/** The version constructor with its intern table: `Version.__new__`. */
module VersionTable {
  import opened Wrappers
  import opened Versions
  import opened VersionText
  import opened Caches
  import Text
  import VersionGrammar

  const VERSIONS_LIMIT: nat := 65536

  class Table {
    var versions: map<string, Version>

    ghost predicate Valid()
      reads this
    {
      && |versions| <= VERSIONS_LIMIT
      && forall text :: text in versions ==> ParseVersion(text) == Some(versions[text])
    }

    constructor ()
      ensures Valid() && versions == map[]
    {
      versions := map[];
    }

    /** A hit, a miss and a miss that sweeps the table all give the version the text denotes. */
    method Make(value: string) returns (result: Option<Version>)
      requires Valid()
      modifies this
      ensures Valid()
      ensures result == ParseVersion(value)
      ensures versions ==
        if result.None? || value in old(versions) then old(versions)
        else BoundedPut(old(versions), value, result.value, VERSIONS_LIMIT)
    {
      if value in versions {
        return Some(versions[value]);
      }
      var raw := Text.Strip(value);
      var key: Key, release: seq<nat>;
      if IsDecimal(raw) {
        var v := DecimalVersion(raw);
        key, release := v.key, v.release;
      } else {
        var scan := VersionGrammar.Scan(Text.Lower(raw));
        if scan.None? {
          return None;
        }
        VersionGrammar.ScanIsSpelling(Text.Lower(raw));
        var p := Meaning(scan.value);
        key, release := Key(p.epoch, p.release, EncodeSuffix(p.pre, p.post, p.dev), p.local), p.release;
      }
      var normalized := StripZeros(release);
      var self := Version(key.(release := normalized), release);
      BoundedPutSpec(versions, value, self, VERSIONS_LIMIT);
      versions := BoundedPut(versions, value, self, VERSIONS_LIMIT);
      return Some(self);
    }
  }

  /** The loop that removes trailing zeros, keeping at least one segment. */
  method StripZeros(release: seq<nat>) returns (normalized: seq<nat>)
    ensures normalized == Strip(release)
  {
    normalized := release;
    while |normalized| > 1 && normalized[|normalized| - 1] == 0
      invariant Strip(normalized) == Strip(release)
      decreases |normalized|
    {
      normalized := normalized[..|normalized| - 1];
    }
  }
}
