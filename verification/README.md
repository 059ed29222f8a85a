# depman core in Dafny

A model of the dependency-health core of depman, a Node.js command-line tool that
inspects a project's installed dependencies, grades how far behind each one is,
works out which Node.js versions the whole dependency tree supports, and applies
updates or replacements to `package.json` with rollback on failure.

The model covers five areas:

- **Node.js range resolution** (`src/lib/node-env.js`): the candidate table of
  Node.js versions, the resolver that intersects `engines.node` constraints over
  that table, the project range, upgrade options and the outlier analysis that
  names the dependencies which narrow the project range (modules `NodeEnv`,
  `SemVer`, `Comparators`, `RangeText`, `VersionLists`, `Text`).
- **Lockfile reading** (`getLockfileDependencies` in
  `src/lib/dependency-manager.js`): which `packages` entries become dependency
  records and with what name, dev and optional flags (module `Lockfile`).
- **Update classification** (`getDependencyUpdateInfo`): the newer versions on
  offer after the engine filter, the health tier from the version gap and the
  release dates, and the engine-mismatch check (module `DependencyManager`).
- **Applying changes** (`packman/src/lib/update-executor.js`): the manifest
  section of a package, the two `package.json` edits with indent detection, the
  npm command texts, and the update and replacement queues with their rollback,
  as a state machine over an abstract two-file store (module `UpdateExecutor`).
- **Prompt filtering** (`filterDependenciesByType` in `src/lib/cli-display.js`)
  (module `CliDisplay`).

The modules `NodeEnvExamples`, `OutlierExamples`, `UpgradeExamples`,
`DependencyExamples`, `ExecutorExamples` and the `ProductionOnly` lemma restate
the cases of the repository's own test suites against the model.

Conventions of the model:

- A version is `major.minor.patch` with an optional single numeric prerelease
  identifier (`1.2.3-4`); precedence is semver's, with a prerelease below its
  release. Version text is canonical decimal, and `ParseVersion`/`FormatVersion`
  are proved mutual inverses.
- A range (`engines.node`) is a space-separated conjunction of comparators
  `>=v`, `<=v`, `>v`, `<v`, `=v` or `v`, with full `N.N.N` versions and single
  spaces. The model treats every other text as invalid. semver accepts more
  (`>=18`, `^18.0.0`, `>= 18.0.0`, doubled or surrounding spaces); see
  "## Left out" for what follows from that. `semver.intersects` is decided
  by a computed witness and proved equivalent to "some version satisfies both".
- Where semver throws (an invalid installed version in `semver.gt`, an invalid
  range in `semver.intersects`) the model returns a `Failure`, in the order the
  source evaluates its calls, because the asynchronous classifier rejects there.
- JavaScript objects iterated in key order are sequences of keyed entries.
- The file system, `JSON.parse`/`JSON.stringify` and `npm` are parameters: a
  `Codec` of two functions for the JSON text, and an `Env` that says whether the
  write attempted as the i-th event succeeds, what a file holds after a failed
  write (the old text, nothing, or a torn part, since `fs.writeFileSync`
  truncates before it writes), and what the command run as the i-th event does
  to the files.
- The project's own `engines.node`, the registry answer, the release dates and the
  alternatives are inputs. Dates are integer milliseconds.

## Model

| member | source | states |
|---|---|---|
| NodeEnv.SynthesizedVersions | src/lib/node-env.js:77-80 | the synthesized candidates are exactly the releases `major.minor.0` with major 16..22 and minor 0..4 |
| NodeEnv.TestNodeVersions | src/lib/node-env.js:75-82 | the candidate table holds exactly the known LTS releases of line 9 and the synthesized versions |
| NodeEnv.TestNodeVersionsAscending | src/lib/node-env.js:76-81 | the candidate table is strictly ascending, so the set removes duplicates and the sort orders by precedence |
| NodeEnv.ValidOnly | src/lib/node-env.js:40 | keeps exactly the constraints that read as a range |
| NodeEnv.ValidOnlyAppend | src/lib/node-env.js:40 | the selection works piece by piece, so the kept constraints stay in their order |
| NodeEnv.Compatible | src/lib/node-env.js:62-64 | keeps exactly the candidates that satisfy every valid constraint |
| NodeEnv.Resolve | src/lib/node-env.js:36-73 | no minimum means the all-null answer; with a minimum there is a maximum and the range text is `>=min <=max`, or the single version when they coincide |
| NodeEnv.ResolveMeaning | src/lib/node-env.js:36-73 | a range is found iff some constraint is valid and some candidate satisfies all valid ones; then min is the least and max the greatest such candidate |
| NodeEnv.ResolveIs | src/lib/node-env.js:65-72 | the least and greatest admitted candidates determine the whole answer |
| NodeEnv.ResolveDeterminedBySets | src/lib/node-env.js:40-66 | the answer depends only on the set of candidates and the set of valid constraints, not on order, repetition or invalid constraints |
| NodeEnv.ResolveNarrows | src/lib/node-env.js:62-68 | adding constraints never lowers the minimum nor raises the maximum |
| NodeEnv.AvailableUpgradeOptions | src/lib/node-env.js:86-98 | empty without a supported minimum; otherwise ascending, exactly the listed versions above the current one, at least min and at most max when max is given, each as often as the filter keeps it |
| NodeEnv.UpgradeCandidates | src/lib/node-env.js:89-96 | the filter keeps exactly the versions above current and within the bounds |
| NodeEnv.UpgradeCandidatesCount | src/lib/node-env.js:89-96 | a kept version occurs as often as in the list, a dropped one not at all |
| NodeEnv.UpgradeCandidatesAppend | src/lib/node-env.js:89-96 | the filter keeps list order: filtering a concatenation concatenates the filtered parts |
| NodeEnv.ConstraintsFromEnriched | src/lib/node-env.js:23-33 | no table gives no constraints; otherwise exactly the `engines.node` of non-root records that declare one |
| NodeEnv.EnginesExcept | src/lib/node-env.js:151-160 | exactly the declared engines of non-root records at any path other than the skipped one |
| NodeEnv.NodeCompatibilityRangeMeaning | src/lib/node-env.js:234-253 | with no governing constraint the answer is `>=0.0.0` from 0.0.0 with no max; otherwise the resolver's answer for any listing of the project's and the dependencies' constraints |
| NodeEnv.OutlierFor | src/lib/node-env.js:144-229 | a report is only made for an examined record and carries its name and constraint |
| NodeEnv.OutlierForMeaning | src/lib/node-env.js:161-229 | an examined record whose removal leaves no range is always reported as sole or essential; otherwise it is reported exactly when its removal admits older or newer versions, as `Widens` with those two flags and the range without it |
| NodeEnv.OutlierReported | src/lib/node-env.js:161-229 | for an examined record whose removal leaves a range, a report exists iff that range admits older or newer versions and is then `Widens(older, newer)` carrying it; a sole report carries the empty range and an essential one the range without the record |
| NodeEnv.OutlierKept | src/lib/node-env.js:173-189 | an examined record that is not reported leaves a range behind |
| NodeEnv.OutlierRequired | src/lib/node-env.js:161-189 | an examined record whose removal leaves no range is reported as the sole or an essential constraint |
| NodeEnv.OutlierWidens | src/lib/node-env.js:191-228 | a widening report carries the range without the record; "older" iff its min is below the project's, "newer" iff the project has a max and the range without it has none or a higher one |
| NodeEnv.NodeOutliers | src/lib/node-env.js:130-131 | no reports without a table, a project range or its minimum, and never more reports than records |
| NodeEnv.NodeOutliersMembers | src/lib/node-env.js:144-229 | every record with a report has it listed, and every listed report belongs to a record of the table |
| NodeEnv.ReportsMembers | src/lib/node-env.js:144-229 | the reports of a list of records are exactly their individual reports |
| NodeEnv.ReportsAppend | src/lib/node-env.js:144-229 | reports come out in record order: those of a concatenation are the reports of its parts, concatenated |
| NodeEnv.AllConstraintsSplit | src/lib/node-env.js:151-160 | with distinct paths, the constraints without one record plus that record's are the project's constraints |
| NodeEnv.OutlierIffChanges | src/lib/node-env.js:191-228 | when the project range is the resolver's answer for all constraints, a record is reported iff leaving it out changes min or max |
| NodeEnv.NarrowerProject | src/lib/node-env.js:195-217 | a range with one constraint more lies inside the range without it, so "admits older or newer" means "a bound moved" |
| NodeEnv.WidensIffChanges | src/lib/node-env.js:195-217 | for a project range inside another, one bound is strictly wider iff the bounds differ |
| SemVer.LessTransitive | src/lib/node-env.js:66 | precedence is transitive |
| SemVer.LessTotal | src/lib/node-env.js:66 | any two versions are comparable |
| SemVer.LessAsymmetric | src/lib/node-env.js:66 | precedence is asymmetric and irreflexive |
| SemVer.Succ | src/lib/dependency-manager.js:171 | the successor is above `v` and nothing lies strictly between, so `>v` is `>=Succ(v)` |
| SemVer.DiffOfReleases | src/lib/dependency-manager.js:185-188 | between releases `diff` is symmetric and names the most significant differing component |
| SemVer.DiffDefined | src/lib/dependency-manager.js:183-185 | `diff` answers exactly for versions of different precedence |
| Comparators.MaxLowerSatisfies | src/lib/dependency-manager.js:171 | when a conjunction is satisfiable, its greatest lower witness satisfies it and lies below every satisfying version |
| Comparators.SatisfiesAllAppend | src/lib/node-env.js:63 | satisfying a joined list is satisfying both parts |
| Comparators.IntersectsSound | src/lib/dependency-manager.js:171 | the intersection test answers true iff some version satisfies both conjunctions |
| RangeText.ParseFormatVersion | src/lib/node-env.js:67-69 | a printed version reads back as itself |
| RangeText.FormatParseVersion | src/lib/dependency-manager.js:179-180 | a version text that reads prints back as the same text |
| RangeText.ParseFormatConstraint | src/lib/node-env.js:69 | a printed conjunction reads back as the same comparators |
| RangeText.SatisfiesParsed | src/lib/node-env.js:63 | a range text is satisfied exactly where all its comparators hold |
| RangeText.IntersectsTextMeaning | src/lib/dependency-manager.js:171 | `intersects` answers iff both texts are valid ranges, and answers true iff some version satisfies both |
| RangeText.RangeExpressionMeaning | src/lib/node-env.js:69 | the printed range is valid and admits exactly the versions from min to max |
| Text.ParseNatToString | src/lib/node-env.js:78-79 | printing then parsing a number gives it back |
| Text.NatToStringOfParseNat | src/lib/node-env.js:78-79 | parsing then printing a canonical numeral gives the text back |
| VersionLists.SortAsc | src/lib/node-env.js:66 | the ascending sort is ascending and a permutation of its input |
| VersionLists.SortDesc | src/lib/dependency-manager.js:175 | the descending sort is descending and a permutation of its input |
| VersionLists.Dedup | src/lib/node-env.js:76-81 | removing repeats from an ascending list keeps its members and leaves it strictly ascending |
| VersionLists.SortDescStrict | src/lib/dependency-manager.js:175 | sorting a list without repeats in descending order gives a strictly descending list |
| VersionLists.AscendingBounds | src/lib/node-env.js:67-68 | the first and last of an ascending list are its least and greatest |
| Lockfile.EntryFor | src/lib/dependency-manager.js:84-114 | an entry becomes a record iff it is the root key or a `node_modules/` key with a version; the root is keyed `/`, named by its `name` or the project directory, versioned by its `version` or `N/A`, neither dev nor optional; other records keep their key as path and their version, are named by a truthy `name` or else by the name derived from the key, and carry dev (flag or root devDependency) and optional |
| Lockfile.Records | src/lib/dependency-manager.js:84-115 | the records are exactly those of the entries that produce one |
| Lockfile.RecordsAppend | src/lib/dependency-manager.js:84-115 | records come out in lockfile order: those of a concatenation are the records of its parts, concatenated |
| Lockfile.GetLockfileDependencies | src/lib/dependency-manager.js:69-117 | a table exactly when a lockfile with `packages` was read; every record is the root at `/` or a non-root at its own `node_modules/` key |
| Lockfile.ScopedNameFromPath | src/lib/dependency-manager.js:100-103 | a scoped key is named `@scope/name`, also when nested |
| Lockfile.PlainNameFromPath | src/lib/dependency-manager.js:100-103 | an unscoped key is named by its first segment |
| DependencyManager.MismatchMessageExtends | src/lib/dependency-manager.js:204-206 | a mismatch message keeps the earlier message in front |
| DependencyManager.Above | src/lib/dependency-manager.js:167-168 | keeps exactly the registry versions above the installed one |
| DependencyManager.EngineFilterMeaning | src/lib/dependency-manager.js:169-174 | the filter keeps exactly the versions whose test answers yes, and rejects with an invalid range exactly when some test throws |
| DependencyManager.EngineKeepsMeaning | src/lib/dependency-manager.js:169-173 | a version with its own engine is kept iff that engine meets the project range; one without is kept iff the installed one declares none or its engine meets the range |
| DependencyManager.AvailableUpdatesMeaning | src/lib/dependency-manager.js:166-176 | the updates are descending, empty without registry versions or a project range, and exactly the newer versions the engine filter keeps |
| DependencyManager.AboveDistinct | src/lib/dependency-manager.js:166-167 | the newer-than-installed filter keeps registry versions distinct |
| DependencyManager.EngineFilterDistinct | src/lib/dependency-manager.js:168-173 | the engine filter keeps registry versions distinct |
| DependencyManager.AvailableUpdatesStrict | src/lib/dependency-manager.js:166-176 | with the registry's versions distinct, as the keys of its `versions` object are, no update is offered twice: the list is strictly descending |
| DependencyManager.AvailableUpdatesInvalidVersion | src/lib/dependency-manager.js:166-168 | the call rejects on the installed version iff there is a registry version to compare and the installed text is not a version |
| DependencyManager.BaseTierOfReleases | src/lib/dependency-manager.js:183-188 | between different releases the tier is Red for a new major, Orange for a new minor, Yellow for a new patch |
| DependencyManager.EscalateNeverLowers | src/lib/dependency-manager.js:189-194 | age never lowers the tier; it leaves it alone up to six months, turns Yellow into Orange and every other tier into Red between six and twelve months, and forces Red beyond twelve |
| DependencyManager.GreenIffLatest | src/lib/dependency-manager.js:182-183 | the tier is Green exactly when the installed version is the latest one, whatever the dates |
| DependencyManager.BaseTierOfPrereleases | src/lib/dependency-manager.js:185-188 | two prereleases of one release give Yellow; prereleases of different releases, or a newer prerelease over an installed release, give Unknown; a newer release over an installed prerelease gives Red, Orange or Yellow |
| DependencyManager.EscalateMonotone | src/lib/dependency-manager.js:189-194 | an older installed release never gives a less severe tier |
| DependencyManager.EngineCheckMeaning | src/lib/dependency-manager.js:204-208 | a mismatch raises the tier to Orange unless Red and extends the message; without a mismatch nothing changes |
| DependencyManager.EngineCheckFails | src/lib/dependency-manager.js:204 | the engine check rejects exactly when it runs on an invalid range or engine |
| DependencyManager.IncompleteDependency | src/lib/dependency-manager.js:147-154 | a missing, root or nameless dependency gets the Unknown record with no updates or alternatives and the incomplete message |
| DependencyManager.UpdateInfoFields | src/lib/dependency-manager.js:210-214 | the record carries the name, installed and latest versions, the filtered descending updates and the alternatives or `[]` |
| DependencyManager.UpdateInfoHealth | src/lib/dependency-manager.js:178-208 | the health is the tier from the latest version, or Unknown without one, raised to Orange (unless Red) exactly on an engine mismatch |
| DependencyManager.NoLatestMessage | src/lib/dependency-manager.js:196-202 | without a latest version the message names a failed lookup or an empty version list |
| UpdateExecutor.GetDependencyTypeMeaning | packman/src/lib/update-executor.js:27-37 | the type is that of the first non-root record with the name, dev winning over optional, and `dependencies` when none matches |
| UpdateExecutor.UpdateEdit | packman/src/lib/update-executor.js:42-43 | an edit happens iff the section lists the name with a non-empty version; it sets that version and changes nothing else |
| UpdateExecutor.ReplaceEdit | packman/src/lib/update-executor.js:56-62 | the alternative is listed in `dependencies`, the original is dropped from its section when listed, the names in both sections are exactly the old ones minus the original plus the alternative, and other entries and sections are unchanged |
| UpdateExecutor.IndentAtMeaning | packman/src/lib/update-executor.js:44 | at each position the indent pattern captures at most one indent |
| UpdateExecutor.FirstIndentMeaning | packman/src/lib/update-executor.js:44 | the scan finds the first position where the pattern captures |
| UpdateExecutor.DetectIndentMeaning | packman/src/lib/update-executor.js:63 | the indent is that of the first match, 2 when none, never 0 |
| UpdateExecutor.ModifyForUpdateMeaning | packman/src/lib/update-executor.js:39-51 | a new text exactly when the text parses and lists the package; with a faithful codec it reads back as the edited manifest |
| UpdateExecutor.ModifyForReplacementMeaning | packman/src/lib/update-executor.js:53-68 | a new text for every text that parses; it reads back as the replacement edit |
| UpdateExecutor.CommandsDetermineType | packman/src/lib/update-executor.js:106-109 | the install and uninstall commands tell the three dependency types apart |
| UpdateExecutor.RunCommands | packman/src/lib/update-executor.js:173-178 | a reported failure points at one of the commands |
| UpdateExecutor.RunCommandsTrace | packman/src/lib/update-executor.js:173-178 | the commands run in order, and none after the first that fails |
| UpdateExecutor.AttemptSucceeds | packman/src/lib/update-executor.js:98-115 | a successful operation wrote the manifest once, then ran its commands, and wrote nothing else |
| UpdateExecutor.AttemptFailsBeforeWrite | packman/src/lib/update-executor.js:99-103 | a rejected edit attempts nothing; after a failed manifest write nothing is run or rolled back, the lockfile is untouched, and the manifest holds what the failed write left |
| UpdateExecutor.AttemptRollsBack | packman/src/lib/update-executor.js:120-127 | after a command failure the manifest is restored, a non-empty lockfile snapshot is restored, and a lockfile the commands created is emptied rather than removed |
| UpdateExecutor.RollbackReportsCommand | packman/src/lib/update-executor.js:117-133 | a failed rollback write is not reported: the failure is the command that failed |
| UpdateExecutor.QueueHalts | packman/src/lib/update-executor.js:89-137 | the successes are a prefix of the queue, at most one operation fails and it is the next one |
| UpdateExecutor.QueueStops | packman/src/lib/update-executor.js:134-135 | nothing after the failing operation runs, and its reason is its own step's failure |
| UpdateExecutor.QueueWrites | packman/src/lib/update-executor.js:89-137 | when every step writes once on success, a fully successful queue writes once per operation |
| UpdateExecutor.StepsWriteOnce | packman/src/lib/update-executor.js:102 | a successful update or replacement writes the manifest exactly once |
| UpdateExecutor.ApplyUpdate | packman/src/lib/update-executor.js:94 | a missing `package.json` fails the update with nothing written or run, and only a missing one fails it for that reason |
| UpdateExecutor.ApplyReplacement | packman/src/lib/update-executor.js:153 | a missing `package.json` fails the replacement with nothing written or run, and only a missing one fails it for that reason |
| UpdateExecutor.ApplyUpdatesMeaning | packman/src/lib/update-executor.js:83-139 | `applyUpdates` halts at the first failure and, when all succeed, has written once per update |
| UpdateExecutor.ApplyReplacementsMeaning | packman/src/lib/update-executor.js:142-204 | `applyReplacements` halts at the first failure and, when all succeed, has written once per replacement |
| CliDisplay.Filter | src/lib/cli-display.js:81-97 | keeps exactly the table's records that pass the type test, never more than the table has |
| CliDisplay.FilterDependenciesByType | src/lib/cli-display.js:79-98 | no table gives no records; otherwise exactly the non-root records of a selected type |
| CliDisplay.SelectedMeaning | src/lib/cli-display.js:84-95 | the root is never kept; a record is kept iff the section its manifest type names is selected, or either flagged section for a dev-and-optional record |
| CliDisplay.FilterAppend | src/lib/cli-display.js:81-97 | the filter works piece by piece, so it keeps key order |
| CliDisplay.FilterIdempotent | src/lib/cli-display.js:81-97 | filtering twice with the same selection changes nothing |
| CliDisplay.FilterMonotone | src/lib/cli-display.js:84-95 | a smaller selection keeps a sub-list of what a larger one keeps |
| CliDisplay.SelectionExtremes | src/lib/cli-display.js:84-95 | selecting nothing keeps nothing, and selecting all three sections keeps every non-root record |
| CliDisplay.ProductionOnly | tests/cli-display.test.js:81-88 | the production record is kept and the root dropped |
| NodeEnvExamples.SimpleOverlap | tests/node-env.test.js:46-57 | `>=18.0.0` and `<=18.19.1` resolve to 18.0.0 .. 18.19.1 with the range text `>=18.0.0 <=18.19.1` |
| NodeEnvExamples.NoOverlap | tests/node-env.test.js:59-66 | `<16.0.0` and `>18.0.0` give the all-null answer on any candidate table |
| NodeEnvExamples.EmptyOrInvalid | tests/node-env.test.js:99-102 | no constraints, and only `invalid` and `>`, give the all-null answer |
| UpgradeExamples.TightUpgradeOptions | tests/node-env.test.js:118-123 | from 16.18.0 with the range 18.18.0 .. 18.19.1 the LTS options are 18.18.0 and 18.19.1 |
| OutlierExamples.SpyOutliers | tests/node-env.test.js:148-187 | on the test's table the project range is 18.0.0 .. 18.9.9 and exactly depA (newer, max 20.0.0) and depB (older, min 16.0.0) are reported |
| OutlierExamples.RealProjectRange | tests/node-env.test.js:148-166 | on the module's own table the same constraints resolve to 18.0.0 .. 18.4.0 |
| NodeEnvFixtures.TestNodeVersionsIsRealTable | src/lib/node-env.js:75-82 | the module's candidate table is drawn from exactly the LTS and synthesized versions |
| DependencyExamples.MinorBumpIsOrange | packman/tests/dependency-manager.test.js:138-142 | installed 1.0.0 with latest 1.1.0 one month later is Orange, with 1.1.0 on offer |
| DependencyExamples.NoEngineIsOffered | packman/tests/dependency-manager.test.js:144-160 | a newer version without an engine is offered and no message is set |
| DependencyExamples.IncompatibleIsWithheld | packman/tests/dependency-manager.test.js:162-175 | a newer version needing Node 22 is not offered against the range up to 20.9.0 |
| DependencyExamples.TestSuiteCases | packman/tests/dependency-manager.test.js:120-175 | on the tests' own texts: Orange with 1.1.0 offered; 1.2.0 offered with no message; nothing offered when the newer version needs Node 22 |
| ExecutorExamples.ProductionType | packman/tests/update-executor.test.js:27-30 | a production record gives `dependencies` |
| ExecutorExamples.UpdateSetsVersion | packman/tests/update-executor.test.js:36-40 | the update edit sets `pkg-a` to 1.1.0 |
| ExecutorExamples.ReplacementSwapsNames | packman/tests/update-executor.test.js:46-52 | the replacement edit drops `old-pkg` and lists `new-pkg` at 2.0.0 |
| ExecutorExamples.OptionalInstall | packman/tests/update-executor.test.js:70-78 | an optional record is installed with `--save-optional` |
| ExecutorExamples.OptionalReplacementCommands | packman/tests/update-executor.test.js:115-131 | an optional original is uninstalled with `--save-optional` and the alternative installed with `--save` |
| ExecutorExamples.NoLockfileUpdate | packman/tests/update-executor.test.js:80-91 | with the test's manifest and no lockfile, a successful update makes one write, to `package.json`, and never writes the lockfile |
| ExecutorExamples.NoLockfileReplacement | packman/tests/update-executor.test.js:133-143 | with the test's manifest and no lockfile, a successful replacement makes one write, to `package.json`, and never writes the lockfile |

## Left out

- File and process I/O (`fs`, `child_process.exec`, `process.version`) and console output: the files are an abstract store, npm and write outcomes come from the `Env` parameter, and the current Node.js version is an input.
- `JSON.parse` and `JSON.stringify`: the `Codec` parameter stands for them. Non-object values in `package.json` sections and the clamp of the indent to 10 are not modelled.
- `getProjectNodeVersionConstraint`, `updatePackageJsonEngines`, `getDirectDependencies`, `crawlNodeModules`, the registry client and the CLI: they read or write files. Their results are inputs: a record's `engines.node` and whether its `package.json` was read are fields of the record.
- semver's caret, tilde, x-range, hyphen and `||` grammar; partial versions such as `>=18`; a space between operator and version, doubled or surrounding spaces; the `v` prefix and `semver.clean`; build metadata; alphanumeric or multi-part prerelease identifiers. Ranges are conjunctions of plain comparators, and a prerelease is one number.
- NodeEnv.ValidOnly: a constraint semver reads but the model does not (such as `>=18`) counts as invalid, so the resolver and the outlier analysis ignore it where the source would apply it.
- DependencyManager.EngineCheckFails: for an engine text semver reads but the model does not, the classifier returns `Failure` where `semver.intersects` would give an answer.
- Date parsing: the registry's release dates are ISO date strings, always truthy when present. The model takes them already converted to integer milliseconds, with `None` for a missing date.
- Registry version keys and `dist-tags.latest` are already-parsed versions. The release date of the latest version is looked up under its printed text.
- The unreachable `if (!maxVersion)` in `calculateSupportedNodeVersions`: the list is non-empty there. The unused `allInitialConstraints` in `identifyNodeOutliers`. The `lockfileVersion` test in `getLockfileDependencies`, which has no effect.
- The impact text of an outlier report: a datatype records which clauses apply (sole, essential, older and/or newer).
- Error message texts of the executor: a `Reason` datatype records why an operation failed.
- `formatDependencyChoice` and `getHealthIndicator` of `src/lib/cli-display.js`: display formatting only.
- The asynchronous `Promise.all` of the registry lookups: the answers are inputs.

Notes on behaviour the model follows:

- tests/node-env.test.js expects `null` for constraints with no overlap (line 64). The code returns the all-null object, and the model follows the code.
- tests/node-env.test.js replaces `generateTestNodeVersions` through `jest.spyOn`. The module calls its own local binding, so the replacement has no effect. With the module's table, the outlier scenario's project range ends at 18.4.0, not 18.9.9 (`OutlierExamples.RealProjectRange`). `OutlierExamples.SpyOutliers` states the outcome on the table the test intends.
- packman/tests/dependency-manager.test.js lines 138-142 expect Yellow for a minor update. The code maps `minor` to Orange, and the model follows the code (`DependencyExamples.MinorBumpIsOrange`).
- The indent pattern's `\s` matches line terminators, so a capture can span blank lines. The model's `IsSpace` is JavaScript's `\s`.
- During rollback, a lockfile that the failed command created is written back with the empty snapshot, so it stays as an empty file (`UpdateExecutor.AttemptRollsBack`).
- A record flagged both dev and optional passes the prompt filter under either section. The executor treats it as a dev dependency (`CliDisplay.SelectedMeaning`).
