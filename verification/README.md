# Verification of the cpip core

A Dafny model of the parts of cpip where correctness is hard to see by reading, with proofs of what
they promise.

- **Versions and specifiers** (`Versions`, `VersionGrammar`, `VersionText`, `VersionTable`,
  `VersionWire`, `Specifiers`, `Wildcards`, `Bounds`, `SpecifierSets`). A version is its ordering key.
  The key order is shown to be the order of PEP 440, the parser to be the grammar of PEP 440, and
  printing and parsing to be inverse. Each operator is characterized on structured versions; prefix
  matching departs from the standard, and it is said exactly where.
- **The minimal resolver and the pure-wheel installer** (`FastVersions`, `Wheelhouse`,
  `WheelhousePlans`, `RequirementTexts`, `StrictSearch`, `WheelhouseCycles`, `WheelhouseResolver`,
  `RecordInstall`, `WheelNames`, `InstalledRecords`, `RecordPlans`, `Names`). The depth-first search
  over mutable tables refines a functional search, whose plans are characterized from the requirement
  texts to the versions chosen; it is said exactly when a generated RECORD describes the disk.
- **Dependency groups** (`DependencyGroups`, `GroupTermination`). The stack machine, the recursion it
  stands for and a reference flatten (PEP 735) are related on every table, including errors, and it is
  said exactly when the loop ends.
- **Caches** (`MetadataCache`, `MetadataStore`, `ArtifactCache`). The write-back cache is compared
  with a plain map over all runs with failing flushes; the content-addressed store is a state machine
  of interleaved writers and crashes.
- **Candidates** (`CandidateStream`, `CandidateChoice`). The lazy stream refines an eager list; the
  filters and the sort key are shown to implement the stated preferences.
- **Metadata and catalogs** (`WheelMetadata`, `Catalogs`, `CatalogCache`, `CatalogOperations`). The
  fast header loop and the full one agree; the compact catalog answers as the page does; choices
  belong to their generation under any interleaving of processes.

`Text`, `Orders`, `Sorting`, `Sequences`, `OrderedDicts`, `Caches` and `Wrappers` hold what these share.

## Conventions

Text is ASCII. SHA-256 and other digests, the test for purelib WHEEL files, the CSV text of rows and
the reading of dependency lines are function parameters about which nothing is assumed; where a result
needs digests of the run not to collide it says so (`NoCollision`, `OwnDigest`). Files and database tables are maps. An
exception or error return is a value (`Option`, `Result`, `Outcome`).

Code that updates state is a class or a method with loops, proved against a function that the lemmas
are about. Lemmas switch off the induction hypotheses Dafny would add (`{:induction false}`); every
induction is written out. `Valid` and `Consistent` predicates are what constructors establish and operations keep.

## Where the code does less than one might expect

Each item names the theorem with the exact condition, and a run or input that shows it.

- `SpecifierSet.contains` remembers answers by version key, but `===` compares text. Its answers are
  those of the plain conjunction exactly when no `===` clause canonically names an admitted version
  (`SpecifierSets.MemoTransparent`, `SpecifierSets.ArbitraryOneMisleads`).
- `==V.*` follows the standard on all versions exactly when V is a release only
  (`Wildcards.FollowsStandardIff`, `Wildcards.AlphaWildcard`).
- A version admitted by a set can lie above the set's upper bound: exactly when it has a local label
  and some clause is `==V` without one (`Bounds.UpperExact`, `Bounds.LocalAboveUpper`).
- `resolve_group` compares written include names with resolved keys, so a cycle of differently spelled
  includes is not noticed. The loop runs forever exactly when the trail of first unclean includes closes
  through such names only (`GroupTermination.HaltsExactly`, `GroupTermination.SelfIncludeNeverHalts`).
- The wheelhouse resolver accepts a requirement on a name that is being visited without checking it. A
  plan meets all constraints exactly when the search with that check finds it too
  (`WheelhouseCycles.StrictSearchDecides`, `WheelhouseResolver.CycleHidesConstraint`).
- The installer compares destinations as text, and lets a wheel ship files into another's dist-info
  directory. A generated RECORD is right exactly when the last wheel to write each listed file leaves
  the recorded digest and size (`RecordPlans.RecordRightIff`, `RecordPlans.SharedFilesBreakRecord`).
- The metadata cache may evict an entry whose put is still pending; `get` then returns the old row
  (`MetadataCache.StepReadsExactly`, `MetadataCache.FullTableForgets`), even after the put is flushed
  (`MetadataCache.DroppedStaysOld`).
- `prefer_binary` has no effect on which candidate is best: its rank stands next to the wheel rank it
  copies, after the version (`CandidateChoice.PreferBinaryIdle`, on every input).
- `_load` ignores pending deletes, so `contains` can affirm a record that was discarded
  (`MetadataCache.ContainsExactly`, `MetadataCache.ContainsAfterDiscard`).
- `save_links` does not withdraw a catalog handed over earlier in the process. `load_catalog` can then
  return it (`CatalogCache.LoadsExactly`, `CatalogCache.OutdatedLoad`), and a later `load_summary` can
  store its groups under the generation of the new catalog file (`CatalogCache.StampExact`,
  `CatalogCache.SummaryMisdescribes`, `CatalogCache.EmptyThenUnparsed`).

## Model

| member | source | states |
|---|---|---|
| Versions.EncodeDecode | src/cpip/core/versions.py:137-162 | the six suffix integers and the key lose nothing: epoch, release, pre, post, dev and local are recovered from them |
| Versions.SuffixInjective | src/cpip/core/versions.py:150-162 | two suffix encodings are equal only if pre, post and dev parts are |
| Versions.KeyTotalOrder | src/cpip/core/versions.py:80-176 | tuple comparison of version keys is a total order, equal exactly on equal keys |
| Versions.KeyOrderIsPep440 | src/cpip/core/versions.py:80-176 | comparing key tuples is the order of PEP 440 stated on structured versions with zero-padded releases and optional pre, post and dev parts |
| Versions.StripCmp | src/cpip/core/versions.py:172-174 | comparing zero-stripped releases as tuples is comparing the written releases padded with zeros |
| Versions.StripEqual | src/cpip/core/versions.py:172-174 | stripped releases are equal exactly when the written ones agree at every position under padding |
| Versions.PaddedFirstDifference | src/cpip/core/versions.py:172-174 | the padded comparison is decided by the first position at which the releases differ |
| VersionGrammar.ScanIsSpelling | src/cpip/core/versions.py:42-66 | text the version grammar accepts is the text of a permitted spelling, the one read |
| VersionGrammar.SpellingScans | src/cpip/core/versions.py:42-66 | every permitted PEP 440 spelling is accepted and read as itself, each separator and number going to the part on its left |
| VersionGrammar.PreWords | src/cpip/core/versions.py:50 | the pre-release words are `a`, `b`, `c`, `rc`, `alpha`, `beta`, `pre` and `preview`, and no others |
| VersionGrammar.PostWords | src/cpip/core/versions.py:57 | the post-release words are `post`, `rev` and `r` |
| VersionGrammar.DevWords | src/cpip/core/versions.py:60 | the development word is `dev` |
| VersionGrammar.Separators | src/cpip/core/versions.py:49-60 | around a word there may be one `.`, `-` or `_`, or nothing |
| VersionGrammar.LabelIsLocal | src/cpip/core/versions.py:62 | nonempty segments of letters and digits, separated by any of `.`, `-` and `_`, are a local label |
| VersionGrammar.LocalIsLabel | src/cpip/core/versions.py:62 | every local label is of that form |
| VersionText.DecimalIffNumerals | src/cpip/core/versions.py:108-116 | the character tests of the all-decimal branch hold exactly when splitting at dots leaves numerals only |
| VersionText.ParseIsGrammar | src/cpip/core/versions.py:102-176 | the all-decimal branch never changes the result: the constructor is the grammar branch on every text |
| VersionText.ParseIsValid | src/cpip/core/versions.py:102-176 | every constructed version has the key of some structured version: nonempty release, zero-stripped, a suffix in range, normalized local segments |
| VersionText.PublicIsCanonical | src/cpip/core/versions.py:211-224 | `public` prints the canonical spelling: no prefix, epoch only if nonzero, release as written, `a`/`b`/`rc`, `.post`, `.dev`, local segments joined by dots |
| VersionText.CanonicalMeaning | src/cpip/core/versions.py:102-176 | the canonical spelling of any structured version is permitted and denotes that version |
| VersionText.PublicRoundTrip | src/cpip/core/versions.py:102-224 | parsing the canonical spelling of any version gives back the same key and the same release |
| VersionText.PublicInjective | src/cpip/core/versions.py:211-224 | two versions print alike exactly when they agree in key and in written release |
| VersionText.Normalization | src/cpip/core/versions.py:102-224 | an accepted text and its canonical spelling denote one version |
| VersionText.SpellingMeans | src/cpip/core/versions.py:118-170 | what every permitted spelling denotes, part by part: the stage each pre-release word stands for, numbers by their digits and zero where there are none, both post forms, and local segments by their characters, under any separators, letter case and surrounding white space |
| VersionText.StageWords | src/cpip/core/versions.py:68-77 | replacing a pre-release word by another of its stage (`alpha` by `a`, `beta` by `b`, `c`, `pre`, `preview` by `rc`) leaves the version unchanged |
| VersionText.CaseAndSpace | src/cpip/core/versions.py:107-118 | letter case and white space around a text never change its version, or whether it has one |
| Text.LowerLetters | src/cpip/core/versions.py:65 | lower case takes each of the 26 letters to its counterpart |
| VersionTable.StripZeros | src/cpip/core/versions.py:172-174 | the loop removes exactly the trailing zeros, keeping one segment |
| VersionTable.Table.Make | src/cpip/core/versions.py:102-181 | hit, miss, and miss with a sweep all return the version the text denotes; the table keeps its limit and its entries stay correct |
| VersionWire.WireRoundTrip | src/cpip/core/versions.py:258-298 | a written record passes the reader's shape check and is read back as the same version |
| VersionWire.WireShape | src/cpip/core/versions.py:273-298 | a record of integers passes the check exactly if its release is nonempty, its key holds the zero-stripped release, and its suffix has six numbers |
| VersionWire.WireTruth | src/cpip/core/versions.py:273-298 | the types of the release are checked and those of the stored stripped release are not: it may hold a truth value where the release has the number it equals |
| VersionWire.WireKeyOrder | src/cpip/core/versions.py:258-266 | the key stored in a record, compared as a tuple, orders as the version does |
| VersionWire.WireKeyChecked | src/cpip/core/versions.py:273-298 | a record that passes the check stores the zero-stripped form of its own release in its key |
| Caches.BoundedPutSpec | src/cpip/core/caches.py:37-41 | after a put the new entry is present, every other entry is an old one, and the limit holds |
| Specifiers.MadeIsValid | src/cpip/core/packaging.py:84-95 | a clause built from text carries a valid version, or none for `===`, and a wildcard only on `==` and `!=` |
| Specifiers.MadeFrom | src/cpip/core/packaging.py:84-95 | a clause is made exactly if its text, less a trailing `.*` that only `==` and `!=` may have, is a version |
| Specifiers.EqMeaning | src/cpip/core/packaging.py:128-139 | without a wildcard, `==V` admits exactly the versions of V's public version when V has no local label, and exactly V otherwise; `!=V` the rest |
| Specifiers.GeMeaning | src/cpip/core/packaging.py:141-142 | `>=V` admits exactly the versions that are not before V in the order of PEP 440 |
| Specifiers.LeMeaning | src/cpip/core/packaging.py:144-145 | `<=V` admits exactly the versions that are not after V |
| Specifiers.ArbitraryMeaning | src/cpip/core/packaging.py:122-123 | `===` admits exactly the versions whose canonical spelling is its text |
| Specifiers.LtMeaning | src/cpip/core/packaging.py:165-179 | `<V` admits v exactly when v < V and v is no pre- or development release of V itself, unless V is one |
| Specifiers.GtMeaning | src/cpip/core/packaging.py:147-163 | `>V` admits v exactly when v > V, v is no post-release of V unless V is one, and v is no local version of V |
| Specifiers.UpperIsPublic | src/cpip/core/packaging.py:219-228 | the text the upper bound of `~=V` is built from always parses, to the bumped prefix with V's epoch |
| Specifiers.CompatibleBelowUpper | src/cpip/core/packaging.py:195-228 | what the `~=` prefix test accepts lies strictly below the upper bound |
| Specifiers.CompatibleInInterval | src/cpip/core/packaging.py:195-228 | inside the interval the prefix test rejects exactly the versions with the release of the upper bound, and those are all pre- or development releases |
| Specifiers.CompatibleMeaning | src/cpip/core/packaging.py:181-228 | `~=V` is the interval from V to the upper bound less the pre- and development releases of the bound, for operands of any length |
| Specifiers.CompatibleClause | src/cpip/core/packaging.py:181-216 | `~=V` admits exactly the versions not before V, of its epoch, that agree with it on all release segments but the last (on the only one, if there is one) |
| Specifiers.UpperRelease | src/cpip/core/packaging.py:219-228 | the upper bound of `~=V` raises the last but one release segment by one and drops the rest, or raises the only one |
| Specifiers.ContainsRespectsKeys | src/cpip/core/packaging.py:118-216 | every operator but `===` answers alike on versions with equal keys, whatever trailing zeros they are written with |
| Wildcards.WildcardMeaning | src/cpip/core/packaging.py:126-136 | for a release-only V, `==V.*` is the interval from V.dev0 up to, not including, V with its last segment raised, .dev0; `!=V.*` is the rest |
| Wildcards.SuffixWildcardMeaning | src/cpip/core/packaging.py:205-216 | for a V with a pre, post or dev part, `==V.*` admits exactly the versions with just these parts on a release of which V's is a prefix |
| Wildcards.WildcardDeparts | src/cpip/core/packaging.py:205-216 | against the standard's prefix rule the clause admits such parts on a longer release and refuses further post or dev parts, and departs from it nowhere else |
| Wildcards.FollowsStandardIff | src/cpip/core/packaging.py:195-216 | a wildcard clause follows the standard on all versions exactly when its operand is a release only |
| Wildcards.AlphaWildcard | tests/core/test_packaging.py:600 | `==1.0a1.*` is accepted as a clause; it admits 1.0.5a1 and refuses 1.0a1.post1, against the standard |
| Specifiers.KeyEqual | src/cpip/core/versions.py:137-176 | two versions have equal keys exactly when they agree in all parts with zero-padded releases |
| Bounds.BoundsOf | src/cpip/core/packaging.py:231-265 | the loop computes, for every clause list, the fold of the clauses' half-lines |
| Bounds.LowerIsIntersection | src/cpip/core/packaging.py:241-254 | a key is above the folded lower bound exactly when it is above every clause's, inclusive flags included |
| Bounds.UpperIsIntersection | src/cpip/core/packaging.py:241-263 | a key is below the folded upper bound exactly when it is below every clause's, inclusive flags included |
| Bounds.ClauseBounds | src/cpip/core/packaging.py:118-263 | a version a clause admits lies in the half-lines the clause is read as, save local versions of the operand of `==` |
| Bounds.ClauseInterval | src/cpip/core/packaging.py:231-263 | the half-lines of a clause enclose exactly the versions its operator compares as asked, no more; `!=`, `===` and wildcards bound nothing |
| Bounds.BoundsConservative | src/cpip/core/packaging.py:231-265 | every version all clauses admit is above the lower bound, and below the upper bound once its local label is dropped |
| Bounds.UpperExact | src/cpip/core/packaging.py:231-265 | an admitted version exceeds the upper bound exactly when it has a local label and some clause is `==V`, without wildcard, with no label in V; the bound is then its public version, inclusive |
| Bounds.LocalAboveUpper | src/cpip/core/packaging.py:231-265 | the exception occurs: `==1` admits `1+a`, which lies above the bound |
| SpecifierSets.PinnedAdmitsOneRelease | src/cpip/core/packaging.py:408-420 | a pinned set admits at most one public version |
| SpecifierSets.PinnedBy | src/cpip/core/packaging.py:408-420 | adding a clause pins a set exactly if it is `===`, or `==` without a wildcard; the empty set is not pinned |
| SpecifierSets.ExactVersionMeaning | src/cpip/core/packaging.py:393-405 | a set with an exact version admits that version's releases and nothing else, with or without prereleases |
| SpecifierSets.ExactlyOne | src/cpip/core/packaging.py:393-405 | a set has an exact version exactly if it is one `==` clause without a wildcard |
| SpecifierSets.PlainMeaning | src/cpip/core/packaging.py:423-497 | a set admits a version exactly if all clauses do and, for a pre- or development release, prereleases are allowed or some clause other than `!=` and `===` names one |
| SpecifierSets.SpecifierSet.ContainsVersion | src/cpip/core/packaging.py:451-497 | the answer and the table of the requested policy after a call, including the sweep; the other table is untouched |
| SpecifierSets.PlainRespectsKeys | src/cpip/core/packaging.py:451-497 | without a `===` clause canonically naming an admitted version, equal keys get equal unmemoised answers |
| SpecifierSets.AnswersArePlain | src/cpip/core/packaging.py:451-497 | over any sequence of calls from any faithful table, all answers are the unmemoised ones |
| SpecifierSets.NamedMisleads | src/cpip/core/packaging.py:451-497 | with such a clause, asking for the named version and then for it with one more zero is answered wrongly |
| SpecifierSets.ArbitraryOneMisleads | src/cpip/core/packaging.py:451-497 | `===1` asked for 1 and then for 1.0 answers true twice, where the second answer should be false |
| SpecifierSets.MemoTransparent | src/cpip/core/packaging.py:451-497 | for each prerelease policy the memo changes no answer of any call sequence exactly when no `===` clause canonically names an admitted version; sets without `===` qualify |
| FastVersions.DecimalParses | src/cpip/cli/fast_install.py:738-755 | what the comparator reads as a tuple is a final version with that stripped release |
| FastVersions.FastAgrees | src/cpip/cli/fast_install.py:738-814 | on dotted decimals the fast comparator is containment in the corresponding clause, for `==`, `>=`, `<=`, `>` and `<` |
| Names.FastPathAgrees | src/cpip/core/names.py:18-25 | the shortcut of name canonicalization returns what the general path would |
| Names.RunIsDash | src/cpip/core/names.py:15-25 | any run of `-`, `_` and `.`, wherever it stands, counts as one dash |
| Names.NoRun | src/cpip/core/names.py:15-25 | a name without separators is only put in lower case |
| Sorting.SortSpec | src/cpip/cli/fast_install.py:948-951 | the sort keeps the elements and orders them |
| Sorting.SortStable | src/cpip/cli/fast_install.py:948-951 | elements that compare equal keep their order |
| Wheelhouse.Stock | src/cpip/cli/fast_install.py:925-951 | the candidate table holds, per canonical name, the stable descending sort of the files of that name; an unreadable file name declines |
| Wheelhouse.FirstIsHighest | src/cpip/cli/fast_install.py:948-982 | in a sorted list the first satisfying wheel is a highest satisfying one, and none means none exists |
| WheelhouseResolver.Select | src/cpip/cli/fast_install.py:973-982 | the scan returns the first wheel that satisfies the requirement, or none |
| WheelhouseResolver.Resolver.AddRequirement | src/cpip/cli/fast_install.py:957-1012 | the recursive search on mutable tables succeeds exactly when its functional form does and leaves the tables that form computes; it terminates on every wheelhouse |
| WheelhouseResolver.Resolver.ResolveAll | src/cpip/cli/fast_install.py:1014-1018 | the plan is the resolved table in insertion order, or the fast path declines |
| WheelhousePlans.AddKeeps | src/cpip/cli/fast_install.py:957-1012 | every successful call keeps the invariant of the search, changes no earlier choice and handles its requirement |
| WheelhousePlans.PlanMeetsRoots | src/cpip/cli/fast_install.py:953-1018 | every root requirement is satisfied, and each chosen name occurs once with one wheel |
| WheelhousePlans.PlanIsClosed | src/cpip/cli/fast_install.py:953-1018 | each dependency of each chosen wheel is chosen: it precedes its dependent and satisfies the constraint, or it closes a cycle of dependencies back to the dependent |
| WheelhousePlans.AcyclicPlanIsConsistent | src/cpip/cli/fast_install.py:953-1018 | a plan without dependency cycles satisfies every constraint of every wheel in it |
| WheelhousePlans.PlanConsistentIff | src/cpip/cli/fast_install.py:953-1018 | only back edges can go unmet: a finished plan satisfies all constraints exactly when the constraints on its back edges happen to hold |
| WheelhouseCycles.StrictSearchDecides | src/cpip/cli/fast_install.py:957-1012 | the search that also tests a requirement against the wheel being visited succeeds exactly where the search succeeds with a plan meeting every constraint, and finds that plan |
| WheelhouseCycles.RankedHouseIsConsistent | src/cpip/cli/fast_install.py:957-1018 | over a wheelhouse in which no dependency between candidates closes a cycle of names, every successful plan meets every constraint |
| WheelhousePlans.PlanIsHighest | src/cpip/cli/fast_install.py:953-1018 | each choice is a highest file of its name that satisfies a root or a dependency that occurs in the plan, the one that first reached the name |
| WheelhousePlans.FirstReachDecides | src/cpip/cli/fast_install.py:957-1012 | the call that first reaches a name fixes its wheel as the first satisfying candidate, and the choice stays |
| RequirementTexts.ConstraintText | src/cpip/cli/fast_install.py:765-783 | a name, extras, one of `==`, `>=`, `<=`, `>`, `<`, a version and a marker, white space anywhere, are read as the normalized name with that very operator and the version; a version that is no dotted decimal declines |
| RequirementTexts.BareText | src/cpip/cli/fast_install.py:765-785 | a text without an operator asks for the name alone, and a blank one declines |
| RequirementTexts.SameProject | src/cpip/cli/fast_install.py:687-688 | two names are one project exactly if they differ in letter case and kind of separator only |
| RequirementTexts.TextIsMet | src/cpip/cli/fast_install.py:765-814 | a plan meets such a text exactly if its wheel of that name has a version the specifier clause of that operator and version admits |
| RequirementTexts.BareTextIsMet | src/cpip/cli/fast_install.py:765-814 | a plan meets a text without an operator exactly if the name is there |
| RequirementTexts.RootIsAdmitted | src/cpip/cli/fast_install.py:953-1018 | the wheel a plan has for a root `name op version` has a version that clause admits |
| RequirementTexts.ChosenIsNewest | src/cpip/cli/fast_install.py:948-1018 | of all files of a project the plan has one admitted by the clause that first reached the project, and no admitted one has a higher version in the order of PEP 440 |
| RequirementTexts.BareIsNewest | src/cpip/cli/fast_install.py:948-1018 | a project first reached by its name alone is there in a file of the highest version |
| RequirementTexts.CurrentResolves | src/cpip/cli/fast_install.py:957-1018 | where the newest files of the projects meet the roots and the dependencies of one another, the search succeeds and chooses only newest files |
| WheelhouseResolver.CycleHidesConstraint | src/cpip/cli/fast_install.py:970-971 | a cycle can hide a violated constraint: a plan is accepted in which `a>=2` meets wheel `a` 1 |
| WheelhouseResolver.NewestDeclines | src/cpip/cli/fast_install.py:975-1018 | the search does not go back: it declines on a wheelhouse whose older wheel alone would make a consistent plan |
| RecordInstall.PrepareOne | src/cpip/cli/fast_install.py:1067-1169 | a wheel is prepared exactly when its members are safe and unclaimed and it is one purelib wheel, and its destinations are then claimed |
| WheelNames.SafeAgrees | src/cpip/cli/fast_install.py:661-684 | the member check on components is the check on the text: no backslash, not absolute, no `..` component, not under `.data` |
| WheelNames.InstallableAgrees | src/cpip/cli/fast_install.py:1085-1098 | the same for the full check, with the `.data` directories and `entry_points.txt` |
| WheelNames.WheelFileAgrees | src/cpip/cli/fast_install.py:1117-1119 | a name is a WHEEL file exactly if its text ends in `.dist-info/WHEEL` |
| WheelNames.DirectoryAgrees | src/cpip/cli/fast_install.py:1085-1086 | a name is a directory exactly if its text ends in a slash |
| WheelNames.DotAgrees | src/cpip/cli/fast_install.py:1198-1199 | the names whose opening fails are `.` and those that end in `/.` |
| WheelNames.OrderAgrees | src/cpip/cli/fast_install.py:1279-1281 | rows are ordered by the text of their names |
| WheelNames.OwnRecord | src/cpip/cli/fast_install.py:1155-1160 | a wheel brings its own RECORD exactly if a member of that name holds something other than white space |
| RecordInstall.InstallWheel | src/cpip/cli/fast_install.py:1178-1284 | the writes and the row table of one wheel, built in the order of the code; it fails exactly when a member name ends in `.` or a file would lie under another file |
| RecordInstall.Install | src/cpip/cli/fast_install.py:1044-1284 | installation succeeds exactly on an empty target with acceptable wheels none of whose writes raises, and leaves the disk the writes produce |
| RecordInstall.SortedRowsSpec | src/cpip/cli/fast_install.py:1279-1281 | the generated rows are sorted by name, one per entry of the table |
| InstalledRecords.WheelOnDisk | src/cpip/cli/fast_install.py:1178-1284 | installing a wheel changes exactly its own files, to its last-written contents, overwritten INSTALLER and REQUESTED included |
| InstalledRecords.WheelContents | src/cpip/cli/fast_install.py:1198-1284 | INSTALLER holds the installer's name, REQUESTED is empty and there if the project was asked for, RECORD holds the rendered rows, and every other file holds the contents of its last member |
| InstalledRecords.NormalParts | src/cpip/cli/fast_install.py:1212-1216 | of a member name exactly the components that are neither empty nor a dot count |
| InstalledRecords.AllRowsSpec | src/cpip/cli/fast_install.py:1181-1269 | the row table has one row per file of the wheel, with digest and size of what the wheel's installation wrote there |
| InstalledRecords.RecordsDescribeDisk | src/cpip/cli/fast_install.py:1171-1284 | after installing wheels that share no file, each generated RECORD is on disk and describes the disk |
| InstalledRecords.OwnFilesOnly | src/cpip/cli/fast_install.py:1061-1169 | for member names in normal form, wheels that keep out of each other's dist-info share no file |
| InstalledRecords.InstallRecords | src/cpip/cli/fast_install.py:1044-1284 | for such wheels a successful installation leaves exactly their files, and every generated RECORD lists its wheel's files with the digests and sizes on disk |
| RecordPlans.LastWriterDecides | src/cpip/cli/fast_install.py:1178-1284 | after any plan a file is on disk exactly when some wheel writes it, and holds what the last such wheel in plan order leaves in it |
| RecordPlans.RecordRightIff | src/cpip/cli/fast_install.py:1178-1284 | for any plan, the RECORD generated for a wheel is right exactly when, for each file of the wheel, the last wheel in plan order that writes it leaves the recorded digest and size (for RECORD itself, the recorded text) |
| RecordPlans.AliasedDistInfo | src/cpip/cli/fast_install.py:1128-1281 | a wheel whose dist-info directory is spelled with empty or `.` components never gets a right RECORD |
| RecordPlans.TwoWheelsAccepted | src/cpip/cli/fast_install.py:1067-1169 | two pairs of wheels that pass all checks: one ships `./m` beside a wheel that ships `m`, the other ships the INSTALLER file of the first |
| RecordPlans.SharedFilesBreakRecord | src/cpip/cli/fast_install.py:1044-1284 | both pairs are accepted and installed without a failing write, and the RECORD of the first wheel is wrong |
| DependencyGroups.ResolveGroup | src/cpip/cli/dependency_groups.py:67-120 | on every input and for every number of turns, the loop has reached the outcome of the stack machine or is still running |
| DependencyGroups.ActualMeans | src/cpip/cli/dependency_groups.py:74-98 | a name designates the group of that very name, or else the last group with the same canonical name |
| DependencyGroups.EntryMeans | src/cpip/cli/dependency_groups.py:81-118 | which error a group raises: a cycle before a missing group before the last wrong item, each under the name as written |
| DependencyGroups.MachineIsRecursion | src/cpip/cli/dependency_groups.py:67-120 | on every table the loop ends with an outcome, list or error, exactly when the recursive reading returns it |
| DependencyGroups.ExpandRuns | src/cpip/cli/dependency_groups.py:77-118 | the frames of a group are worked off with the recursive outcome, whatever lies below them on the stack |
| DependencyGroups.RunExpands | src/cpip/cli/dependency_groups.py:77-118 | if the machine stops, nesting as deep as its number of turns suffices for the recursion |
| DependencyGroups.SuccessIsFlatten | src/cpip/cli/dependency_groups.py:67-120 | the program returns a list exactly when the reference flatten, left to right and without any cycle check, is defined, and then it is that list |
| DependencyGroups.SuccessIsClean | src/cpip/cli/dependency_groups.py:67-120 | it returns a list exactly when no include path from the requested group repeats a group or meets an undefined or invalid one |
| GroupTermination.ExactTerminates | src/cpip/cli/dependency_groups.py:77-118 | when includes are spelled as table keys, the loop ends on every table, from every start and every stack |
| GroupTermination.HaltsExactly | src/cpip/cli/dependency_groups.py:67-120 | on every table, the loop ends exactly when following from the requested group the first include of each group that is not clean does not lead back to a group through inexactly spelled includes only |
| GroupTermination.SelfIncludeNeverHalts | src/cpip/cli/dependency_groups.py:81-104 | `docs` listing a requirement and then `Docs` is such a table: the loop does not end from `docs`, and ends from another group |
| MetadataCache.RecordRoundTrip | src/cpip/index/candidate_metadata_cache.py:101-170 | a stored record is decoded to the metadata that was put |
| MetadataCache.StepConsistent | src/cpip/index/candidate_metadata_cache.py:55-190 | every operation keeps: at most MAX_ENTRIES entries, decoded within entries, pending puts and deletes disjoint, dirty when something is pending |
| MetadataCache.StepIsApply | src/cpip/index/candidate_metadata_cache.py:55-190 | every operation changes the logical store as one put, one discard or nothing; evictions and flushes, failed or not, change nothing |
| MetadataCache.RunIsMap | src/cpip/index/candidate_metadata_cache.py:55-190 | over any run the logical store is the plain map folded with the puts and discards |
| MetadataCache.FlushIsDurable | src/cpip/index/sqlite_cache.py:90-106 | a successful flush leaves nothing pending, and a new process sees exactly the logical store |
| MetadataCache.StepCoherent | src/cpip/index/candidate_metadata_cache.py:55-190 | every operation keeps every key coherent, except a key with a pending put that it evicts |
| MetadataCache.StepReadsExactly | src/cpip/index/candidate_metadata_cache.py:94-99 | from a coherent state, reads stay exact exactly unless the operation evicts a pending put whose old row reads differently |
| MetadataCache.RunReadsMap | src/cpip/index/candidate_metadata_cache.py:55-190 | a process that evicts no pending put reads, after any run, exactly the folded plain map |
| MetadataCache.RunReadsLastPut | src/cpip/index/candidate_metadata_cache.py:55-190 | such a process reads the metadata put last for the key, or else what the row of the database it opened decodes to |
| MetadataCache.FullTableForgets | src/cpip/index/candidate_metadata_cache.py:94-170 | this happens: after one put more than MAX_ENTRIES without a flush the first put cannot be read |
| MetadataCache.DroppedStaysOld | src/cpip/index/candidate_metadata_cache.py:55-134 | once the old row of a dropped put has been read it stays in memory: after the flush the database holds the put and `get` still returns the old record |
| MetadataCache.DroppedIsLost | src/cpip/index/candidate_metadata_cache.py:55-92 | if that row is of the wrong shape, reading it discards the pending put |
| MetadataCache.ContainsExactly | src/cpip/index/candidate_metadata_cache.py:55-153 | on a coherent key `contains` answers for the logical store exactly unless it affirms a discarded record whose entry or old row is still there; it never denies a readable record |
| MetadataCache.ContainsAfterDiscard | src/cpip/index/candidate_metadata_cache.py:101-153 | this happens: after `get` has discarded a record that cannot be decoded, `contains` affirms it |
| MetadataStore.CandidateMetadataCache.LoadRow | src/cpip/index/candidate_metadata_cache.py:55-84 | the mutable tables after a load, a bad row discarded included |
| MetadataStore.CandidateMetadataCache.DiscardKey | src/cpip/index/candidate_metadata_cache.py:86-92 | the tables after a discard |
| MetadataStore.CandidateMetadataCache.MakeRoom | src/cpip/index/candidate_metadata_cache.py:94-99 | the oldest entry goes, and only when the table is full |
| MetadataStore.CandidateMetadataCache.GetMetadata | src/cpip/index/candidate_metadata_cache.py:101-134 | the result and the tables after a read |
| MetadataStore.CandidateMetadataCache.ContainsKey | src/cpip/index/candidate_metadata_cache.py:151-153 | the result and the tables after a membership test |
| MetadataStore.CandidateMetadataCache.PutMetadata | src/cpip/index/candidate_metadata_cache.py:155-170 | the tables after a put |
| MetadataStore.CandidateMetadataCache.FlushPending | src/cpip/index/sqlite_cache.py:90-106 | commit writes deletes and puts and clears them; failure changes nothing |
| MetadataStore.DecodeRecord | src/cpip/index/candidate_metadata_cache.py:101-149 | a record decodes exactly when every dependency line and the version can be read |
| ArtifactCache.StepKept | src/cpip/index/artifact_cache.py:135-221 | any action of any writer, or a crash, keeps: every body hashes to its digest and was supplied whole and validated; every receipt names a present body |
| ArtifactCache.RunKept | src/cpip/index/artifact_cache.py:135-221 | the same over any interleaving of writers and crashes |
| ArtifactCache.EveryReadIsSound | src/cpip/index/artifact_cache.py:56-97 | in every reachable state whatever `get` returns was supplied whole and validated by some call and hashes to its digest, which is the expected sha256 if one was given, and otherwise was stored by a finished call for that URL |
| ArtifactCache.OtherHashesIgnored | src/cpip/index/artifact_cache.py:68-97 | expected hashes other than sha256 do not change what `get` returns |
| ArtifactCache.EveryReceiptNamesBody | src/cpip/index/artifact_cache.py:135-221 | in every reachable state without a digest collision, every receipt names a present body of its recorded size, the content its call stored |
| ArtifactCache.FinishedStaysFound | src/cpip/index/artifact_cache.py:68-221 | once a call for a URL has finished, every later `get`, after any further run, finds content that a finished call for that URL stored |
| ArtifactCache.GetByDigest | src/cpip/index/artifact_cache.py:68-97 | with an expected SHA-256, in any case, `get` returns the body of that digest if there is one and otherwise nothing, whatever the URL and the receipts |
| ArtifactCache.DigestStaysFound | src/cpip/index/artifact_cache.py:68-221 | once a call has finished, every later `get` that expects the digest of its content finds content of that digest under any URL: short of a collision, that content |
| ArtifactCache.NothingIsLost | src/cpip/index/artifact_cache.py:135-221 | published bodies and receipts never go away, and finished calls stay finished |
| ArtifactCache.AloneIsRun | src/cpip/index/artifact_cache.py:189-221 | an undisturbed call is one of the interleavings |
| ArtifactCache.Store.StoreChunks | src/cpip/index/artifact_cache.py:189-221 | the loop over the chunks, validation and publication leave the disk an undisturbed call leaves, and return the published body |
| ArtifactCache.Store.PublishBody | src/cpip/index/artifact_cache.py:164-187 | a present body is kept, an absent one moved into place, and a body of the wrong size refused |
| ArtifactCache.ValidateHashes | src/cpip/index/artifact_cache.py:116-133 | the loop accepts exactly content whose supported expected hashes all match, ignoring case |
| CandidateStream.Stream.Advance | src/cpip/index/candidate_stream.py:22-36 | one more item, end, or the stored error; materialized items and the remaining source stay the original sequence |
| CandidateStream.Stream.Iterate | src/cpip/index/candidate_stream.py:38-61 | a lone iteration, from any state, replays the whole sequence in order, then ends or raises as the source does |
| CandidateStream.Stream.NonEmpty | src/cpip/index/candidate_stream.py:63-64 | truth needs one item at most |
| CandidateStream.Stream.Length | src/cpip/index/candidate_stream.py:66-69 | the length of the eager list |
| CandidateStream.Stream.GetIndex | src/cpip/index/candidate_stream.py:77-95 | any index gives the eager list's item, an index error, or the source's error where the rest is needed |
| CandidateStream.IndexMeans | src/cpip/index/candidate_stream.py:77-95 | indices count from the left from 0 and from the right from -1, and miss beyond either end |
| CandidateStream.Stream.GetSlice | src/cpip/index/candidate_stream.py:77-95 | any slice, negative bounds and steps included, gives the eager list's slice, reading only up to the stop where that suffices |
| CandidateStream.SliceUpwards | src/cpip/index/candidate_stream.py:77-95 | a slice with a positive step holds exactly the items a step apart from its start up to its stop, bounds counted from the right when negative and moved into range |
| CandidateStream.SliceDownwards | src/cpip/index/candidate_stream.py:77-95 | the same for a negative step, from the last item down to the first unless told otherwise |
| CandidateStream.SliceOfPrefix | src/cpip/index/candidate_stream.py:77-95 | a forward slice with nonnegative bounds depends only on the items before its stop |
| CandidateStream.Stream.Prefer | src/cpip/index/candidate_stream.py:97-124 | the kept items if some element is decisive, the whole list otherwise; nothing is yielded before the first decisive element |
| CandidateStream.PreferredNonempty | src/cpip/index/candidate_stream.py:97-124 | with one test for both roles, preferring gives an empty list only for an empty one |
| CandidateChoice.FilterUnallowedHashes | src/cpip/index/candidate_filters.py:30-91 | the loop discards candidates with a wrong digest exactly when some candidate has a right one |
| CandidateChoice.SupportedTagRanks | src/cpip/index/candidate_filters.py:18-23 | each supported tag, in lower case, ranks as its first position |
| CandidateChoice.TagRankMeaning | src/cpip/index/candidate_evaluators.py:379-388 | a wheel's tag rank is minus the first position of the supported list that the wheel carries, in any case; none exactly when it carries no supported tag |
| CandidateChoice.ApplicableIsSubsequence | src/cpip/index/candidate_evaluators.py:108-165 | applicable candidates are some of the given ones, in the given order |
| CandidateChoice.FinalMatches | src/cpip/index/candidate_evaluators.py:112-159 | a final release passes exactly when the clauses admit it, whatever the policy |
| CandidateChoice.PrereleaseMatches | src/cpip/index/candidate_evaluators.py:112-159 | a prerelease passes exactly when the clauses admit it and the policy asks for prereleases, or, without a policy, a clause names one or no final release matches |
| CandidateChoice.DigestsApplicable | src/cpip/index/candidate_filters.py:38-91 | a right digest is never discarded, and with one present exactly the wrong digests are |
| CandidateChoice.AskEach | src/cpip/index/candidate_evaluators.py:117-157 | a comprehension that asks the memoising specifier set about each candidate keeps exactly those the plain conjunction admits, and leaves the tables right, if they were right and no `===` clause canonically names an admitted version |
| CandidateChoice.GetApplicable | src/cpip/index/candidate_evaluators.py:108-165 | under the same condition the method on the mutable tables returns the applicable candidates the other results are about |
| CandidateChoice.SortKeyTotalOrder | src/cpip/index/candidate_evaluators.py:348-428 | sort keys are totally ordered |
| CandidateChoice.FirstSpec | src/cpip/index/candidate_evaluators.py:339-346 | the choice is the leftmost of the greatest: strictly above everything to its left, not below anything to its right |
| CandidateChoice.BestMeaning | src/cpip/index/candidate_evaluators.py:329-428 | there is a best candidate exactly when one is applicable; it has a right digest if any matching candidate has, then is unyanked if possible, then of the highest version, then of the preferred kind of file, then of the highest build tag, then leftmost |
| CandidateChoice.PreferBinaryIdle | src/cpip/index/candidate_evaluators.py:415-428 | `prefer_binary` changes no choice, on any candidates |
| CandidateChoice.BuildTagMeans | src/cpip/core/wheel.py:1245-1263 | a build tag is the number of its leading digits and the rest as text |
| WheelMetadata.FastAgrees | src/cpip/core/wheel_metadata.py:54-78 | whenever the fast loop does not give up, its dictionary, value order included, is the one the full loop builds |
| WheelMetadata.RegionSuffices | src/cpip/core/wheel_metadata.py:36-53 | splitting only the header region changes neither loop: what follows it starts with a blank line |
| WheelMetadata.FastLoop | src/cpip/core/wheel_metadata.py:54-76 | the first loop computes the bail-out reading |
| WheelMetadata.FullLoop | src/cpip/core/wheel_metadata.py:79-102 | the second loop computes the folding, case-insensitive reading |
| WheelMetadata.ParseMetadataHeaders | src/cpip/core/wheel_metadata.py:45-102 | the result is the full reading of the whole document, on every text |
| WheelMetadata.SplitAtBreak | src/cpip/core/wheel_metadata.py:53-79 | a line ends exactly at a line feed, carriage return, both together, or one of the other ASCII line boundaries of `str.splitlines` |
| WheelMetadata.ParseRendered | src/cpip/core/wheel_metadata.py:79-102 | on every document of well-formed fields and any body, the result is each resolver field's values in order, continuation lines attached, whatever the case of the names |
| Catalogs.CollectFacts | src/cpip/index/catalog_cache.py:460-474 | the loop ors the kinds of the artifacts per pair of constraints, in order of first occurrence |
| Catalogs.MaskBits | src/cpip/index/catalog_cache.py:460-474 | a kind's bit is set for a pair of constraints exactly when some artifact has that kind and pair |
| Catalogs.FactsExact | src/cpip/index/catalog_cache.py:460-474 | any question on kind, required Python and yanking is answered alike by the facts and by the artifacts |
| Catalogs.CompileLinks | src/cpip/index/catalog_cache.py:420-442 | the loop groups the parsed links by name and version and lists the others |
| Catalogs.GroupedContents | src/cpip/index/catalog_cache.py:423-432 | each release has one group, with exactly its artifacts in page order |
| Catalogs.RecordsPreserved | src/cpip/index/catalog_cache.py:85-457 | saving links and loading records gives a permutation of the records |
| Catalogs.CompiledIsValid | src/cpip/index/catalog_cache.py:307-457 | what links compile to passes the reader's version check |
| Catalogs.SummarySpec | src/cpip/index/catalog_cache.py:493-512 | the summary is a permutation of the groups, sorted by version key, ties in catalog order |
| Catalogs.SummaryAnswers | src/cpip/index/catalog_cache.py:420-512 | from links to sorted summary: any question about a release is answered by the summary as by the links of the page |
| CatalogCache.RememberSpec | src/cpip/index/catalog_cache.py:123-133 | the handoff keeps the newest catalog, drops at most the oldest, and stays within its limit |
| CatalogCache.Handoff.Put | src/cpip/index/catalog_cache.py:123-133 | the loop trims the handoff from its oldest entry |
| CatalogCache.Handoff.Take | src/cpip/index/catalog_cache.py:100-107 | a handed-over catalog is given out once |
| CatalogCache.StepLegit | src/cpip/index/catalog_cache.py:167-486 | any file access of any process, or a lost file, keeps: choice files are the last saved, and choices in a summary were saved under that summary's generation |
| CatalogCache.RunLegit | src/cpip/index/catalog_cache.py:167-486 | the same over any interleaving from an empty cache |
| CatalogCache.ChoicesMatchGeneration | src/cpip/index/catalog_cache.py:215-304 | in every run, choices read are those last saved for the page and profile, and only for their generation; embedded choices belong to their summary's generation |
| CatalogCache.RunDescribed | src/cpip/index/catalog_cache.py:100-512 | as long as no outdated handoff is used, every summary describes a catalog that was saved for its page, under that catalog's generation |
| CatalogCache.StampExact | src/cpip/index/catalog_cache.py:177-195 | in every reachable state, where no other catalog saved for the page has the digest of its file, the summary made from a handed-over catalog describes a catalog saved for the page exactly when the file holds one with the same summary |
| CatalogCache.LoadsExactly | src/cpip/index/catalog_cache.py:100-133 | from a state in which `load_catalog` would return what the file holds, every action keeps it so except exactly one that loses the file or puts another catalog into it while the process holds a handoff for the page |
| CatalogCache.LoadsStored | src/cpip/index/catalog_cache.py:100-133 | in every run without such an action, `load_catalog` returns what the page's catalog file holds |
| CatalogCache.OutdatedLoad | src/cpip/index/catalog_cache.py:100-133 | otherwise it need not: for any two states of a page there is a run after which the second is saved and the same process loads the first |
| CatalogCache.OutdatedHandoff | src/cpip/index/catalog_cache.py:100-195 | for any two states of a page there is a run of one process, saving just these, that stores the first state's groups under the second's generation |
| CatalogCache.SummaryMisdescribes | src/cpip/index/catalog_cache.py:100-195 | if the two states have different digests and different summaries, the summary stored describes neither |
| CatalogCache.EmptyThenUnparsed | src/cpip/index/catalog_cache.py:493-508 | an empty page and a page with one link that is no archive have different summaries |
| CatalogOperations.SaveLinksAlone | src/cpip/index/catalog_cache.py:420-457 | undisturbed, `save_links` writes the catalog of the links and its summary, without choices, under the catalog's digest, and touches no other file |
| CatalogOperations.SummaryIsRead | src/cpip/index/catalog_cache.py:167-176 | `load_summary` leaves everything as it is where there is a summary |
| CatalogOperations.SummaryIsCompiled | src/cpip/index/catalog_cache.py:177-195 | otherwise it writes the summary of the catalog file and hands the catalog over |
| CatalogOperations.SummaryIsStamped | src/cpip/index/catalog_cache.py:177-195 | a catalog handed over before is summarized instead, under the digest of the file |
| CatalogOperations.NothingToSummarize | src/cpip/index/catalog_cache.py:177-195 | with neither it changes nothing |
| CatalogOperations.SaveChoicesAlone | src/cpip/index/catalog_cache.py:249-304 | undisturbed, `save_choices` files the choices, and puts them into the summary exactly if that is of their generation |
| CatalogOperations.LoadChoicesAlone | src/cpip/index/catalog_cache.py:215-304 | undisturbed, `load_choices` returns what is filed under the generation, and puts it into the summary of that generation |

## Left out

- Argument parsing, configuration, environment variables, printing and logging.
- Network sessions, downloads, version control, build backends and zip reading: parsed wheels, links and metadata are inputs.
- The main resolver and `wheel_transaction`.
- Marker evaluation and the splitting of requirement lines in `packaging.py`; `parse_requirement` of the minimal resolver is modelled.
- The text form of specifier sets: splitting at commas, interning by text, printing.
- Python's limit on the digits of `int`, Unicode digits, whitespace and case folding.
- `get_plan`, `put_plan` and cached install trees: a plan is always computed.
- Rollback after a failed write in the installer, and file modes. A write fails where a file stands in the way of a directory or the other way round, or the name ends in `.`; other failures of the file system are not modelled.
- The retry of `SqliteBackedCache` on a corrupt database, and other processes writing the metadata database: the database changes by this process's flushes.
- Sorting of extras in stored metadata records: they are modelled as a set.
- `store_path` and materialization of cached artifacts.
- Two consumers of one stream at work at once, and the laziness of the stream `prefer` returns: one consumer at a time is modelled, stopped after any number of items.
- Reading a link's file name into a wheel or an archive identity: the identity is an input of `Catalogs` and of `CandidateChoice`.
- Shape checks of unmarshalled catalogs and choices: a file that fails them is absent; the reading of `is_version_wire` is modelled.
- `ReleaseControl.allows_prereleases` and `Hashes`: the policy and the set of allowed digests are inputs.
- DependencyGroups.ResolveGroup: takes a number of turns after which it gives up watching, because a method has to end and the loop need not.
- CandidateChoice.BestMeaning: containment is the unmemoised one; `CandidateChoice.GetApplicable` says when the memoising set gives the same candidates.
- ArtifactCache.EveryReceiptNamesBody: assumes that different contents supplied in the run have different digests; without it a receipt still names a present body (`ArtifactCache.RunKept`). `ArtifactCache.FinishedStaysFound` assumes the same, and that different URLs of the run have different keys.
