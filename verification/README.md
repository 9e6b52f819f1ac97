# cargo-unleash, modelled in Dafny

cargo-unleash is a Cargo subcommand that releases the crates of a Rust
workspace. It picks packages with a selection predicate, rewrites their
versions or names, and updates every local (`path`) dependency on them. It
also drops unused or dev-only dependencies, sets manifest fields, orders the
selected crates so that dependencies come first, runs pre-flight checks,
publishes with paced uploads, and finds features that are used in code but not
exposed.

This project models the decision logic of that tool. Everything around it is
an abstract input or an oracle:

- manifests are ordered TOML trees (`Toml`, `Assoc`);
- the set of manifest files is a store from path to tree (`Store`);
- Cargo's workspace, packages and dependencies are records (`Cargo`);
- regex, ripgrep, git, the file system, Cargo packing, compiling,
  publishing, owner changes and semver requirement matching are
  function-typed parameters.

Where a modelled function can panic on its input (`expect`, `unwrap`, `unreachable!`, an empty fold), the model returns an `Err`. The exceptions are listed under "Left out".

One module per concern:

| module | file | models |
|---|---|---|
| `Assoc`, `Toml` | assoc.dfy, toml.dfy | the `toml_edit` table: ordered keys, get, index-assign, `get_or_insert`, remove |
| `Util` | util.rs → util.dfy | `edit_each_dep`: the dependency walk, the count, removal and `features` pruning |
| `Store` | util.rs → store.dfy | `edit_each`: the fail-fast per-manifest driver |
| `WorkspaceView` | util.rs → workspace_view.dfy | `members_deep` and `changed_packages` |
| `Cascade` | version.rs, rename.rs → cascade.dfy | the two-pass structure that `set_version` and `rename` share |
| `VersionCmd`, `RenameCmd` | version_cmd.dfy, rename_cmd.dfy | the `check_for_update` visitors and the two commands |
| `CleanDeps`, `DeDevDeps`, `SetField` | clean_deps.dfy, de_dev_deps.dfy, set_field.dfy | the whole-manifest edits |
| `ToRelease` | to_release.dfy | the release order |
| `CheckCmd` | check_cmd.dfy | metadata and dependency checks, the check pipeline, `inject_replacement` |
| `Release`, `AddOwner` | release.dfy, add_owner.dfy | the publishing schedule as a trace of events |
| `Selection`, `Mappers` | selection.dfy, mappers.dfy | `make_pkg_predicate` and the version mappers of `cli.rs` |
| `Matchers` | matcher.dfy | the matcher expression language |
| `HiddenFeatures` | hidden_features.dfy | hidden-feature detection |

Behaviour that is modelled as written:

- On `Remove`, `edit_each_dep` deletes the key equal to the dependency's TRUE
  name, not its alias.
- Feature pruning compares against that same name.
- Inline entries get the space-prefixed keys `" version"` or `" package"`
  through `get_or_insert`, which never overwrites.
- Table entries are overwritten.
- `rename` skips entries without `path`.
- `set_version`'s target lookup at the root is modelled in
  `VersionCmd.UpdateDeps` and `VersionCmd.SetVersionAsWritten`; see Findings.

## Model

| member | source | states |
|---|---|---|
| Util.Resolve | src/util.rs:166-198 | An entry with a `package` string is visited under that name with the key as alias. Without the field it is visited under the key with no alias. A non-string `package` is an error, as the `expect` panics. |
| Util.CandidateKeys | src/util.rs:147-161 | Exactly the keys whose items are tables or inline tables are visited; plain values are skipped. |
| Util.Step | src/util.rs:165-212 | One key makes at most one visit, counted iff its answer is not Untouched. A removed name is absent afterwards, and no key is added. |
| Util.WalkKeys | src/util.rs:164-213 | Over one section, the count is the number of non-Untouched visits, at most one per key. Every visit belongs to this section and is reflected in the table (a removed name is gone). No key is added. |
| Util.WalkSection | src/util.rs:146-213 | An absent section is skipped without visits. Otherwise only that section's table can change, it stays a table, and every visit is reflected in it. Root keys are kept. |
| Util.WalkSections | src/util.rs:145-214 | Over the three sections in order: only the section tables can change and root keys are kept. The count is the number of non-Untouched visits, and each visit is reflected in its own section. |
| Util.CountChangedPositive | src/util.rs:210-212 | The counter is positive iff some visit answered other than Untouched. |
| Util.PruneArray | src/util.rs:220-237 | A feature list loses exactly the strings whose trimmed text before the first '/' is a removed name: each other value keeps its multiplicity, each such value drops to zero, and the rest keep their order (subsequence). |
| Util.PruneFeatureTable | src/util.rs:217-240 | Every array-valued feature becomes exactly the pruned list of its original array. All other feature entries and the feature keys are kept, and nothing left mentions a removed name. |
| Util.PruneFeatures | src/util.rs:216-241 | Only `features` changes, and it becomes exactly the pruned feature table of the original, so it mentions no removed name. A manifest without `features` is left alone. |
| Util.EditEachDep | src/util.rs:139-243 | The walk keeps every root key. Keys other than the sections and `features` keep their items, and the returned count is the number of non-Untouched answers. |
| Util.EditEachDepRemoves | src/util.rs:206-209 | Every name answered Remove is absent from its section afterwards. |
| Util.EditEachDepKeepsFeatures | src/util.rs:216 | With nothing removed, `features` is untouched. |
| Util.EditEachDepPrunesFeatures | src/util.rs:216-241 | With something removed, `features` becomes exactly the original feature table pruned of the removed names, so it mentions none of them. |
| Util.NoSectionsNoWalk | src/util.rs:148-160 | A manifest without dependency sections is returned unchanged, with count 0 and no visits. |
| Util.WalkKeysWritesAnswers | src/util.rs:164-198 | Without removals, the keys are visited once each in table order. Each visit is the visitor's answer on the original entry, that answer's entry is what the key then holds, and other keys keep their items. |
| Util.WalkSectionWritesAnswers | src/util.rs:145-213 | The same holds for a whole section, over exactly its table-like keys. |
| Util.CandidateKeysVisitable | src/util.rs:147-161 | In a table without duplicate keys, the visited keys are distinct, present and table-like, and are exactly those. |
| Util.EditEachDepPassive | src/util.rs:139-243 | A visitor that always answers Untouched with the entry it got leaves the manifest as it was, with count 0. |
| Util.EditEachDepKeeps | src/util.rs:139-243 | A visitor that never removes and hands entries back unchanged leaves the manifest as it was. |
| Util.EditEachDepActs | src/util.rs:180-197 | Every recorded action is the visitor's answer for that name and alias. |
| Util.EditEachDepNoRemovals | src/util.rs:206-216 | A visitor that never answers Remove removes nothing and leaves `features` alone. |
| Store.EditEach | src/util.rs:82-96 | Packages are handled in order. No file appears, and non-manifest files are untouched. On success there is one result per package, and every manifest existed. |
| Store.EditEachAppend | src/util.rs:88-95 | Running on `a + b` is running on `a`, then, unless that failed, on `b` from the store `a` left. |
| Store.EditEachPerManifest | src/util.rs:88-95 | With one package per manifest, a successful run leaves each manifest as its edit made it from the original, and the i-th result is that edit's result. |
| Store.EditEachStops | src/util.rs:90-92 | A failed run failed at some package, with that package's error (unreadable manifest or the edit's error). That manifest and every later one are as they were. |
| Store.EditEachAtShared | src/util.rs:88-95 | With an idempotent edit, and packages sharing a manifest being the same package, a successful run leaves each manifest as one edit of the original made it, and each result is that edit's result. |
| Store.EditEachOk | src/util.rs:88-95 | With one package per manifest, the run succeeds iff every manifest exists and every edit succeeds on it. |
| Store.EditEachReadOnly | src/util.rs:92-93 | An edit that never changes a tree leaves every file as it was, although each is written back. |
| Store.EditEachResultsBy | src/util.rs:92 | Results that depend only on the package are exactly that function of each package, in order. |
| WorkspaceView.OutsidePathDeps | src/util.rs:66-75 | Lists exactly the packages that a path dependency points at and that are not members, in order. |
| WorkspaceView.MembersDeep | src/util.rs:62-79 | A package is listed iff it is a member, or a non-member that some member's path dependency points at. |
| WorkspaceView.PathDepsCovered | src/util.rs:66-75 | Every path dependency of a member is covered: its package, or the member with its id, is listed. |
| WorkspaceView.MembersDeepRepeats | src/util.rs:63-78 | The list is not deduplicated: a non-member reached from two members is listed twice. |
| WorkspaceView.ChangedDirs | src/util.rs:37-42 | A changed file stands for its parent directory and anything else for itself, joined onto the workspace root. Deltas without a path are skipped. |
| WorkspaceView.Touched | src/util.rs:48-56 | A package is taken iff some changed directory lies under its root, component-wise. |
| WorkspaceView.ChangedPackages | src/util.rs:11-59 | A git error is the result. Otherwise the result is exactly the `members_deep` packages with a changed directory under their root. |
| Cascade.SetPackageField | src/commands/version.rs:108-109 | `doc["package"][field] = value` sets the field in a `package` table or inline table, and creates `package` when missing. Other root keys and sibling fields are kept. A plain value under `package` panics (Err). |
| Cascade.Filter | src/commands/version.rs:103-104 | The selection holds exactly the listed packages the predicate accepts, in their order (a subsequence) and each as often as in the list. |
| Cascade.FirstPass | src/commands/version.rs:103-115 | The first pass over the selected packages; no file appears or disappears. |
| Cascade.RenameStep | src/commands/version.rs:104-111 | A package the mapper answers None for is left alone. Otherwise its `package` field is written, and the pair (old name, new value) is reported. |
| Cascade.SetPackageFieldIdempotent | src/commands/version.rs:108-109 | Writing the same `package` field value a second time gives the same document. |
| Cascade.RenameEditIdempotent | src/commands/version.rs:104-111 | The first pass's per-package edit is idempotent, so a package visited twice leaves its manifest as one visit did. |
| Cascade.CollectUpdates | src/commands/version.rs:112-115 | The update map's names are exactly the reported names. |
| Cascade.CollectUpdatesLastWins | src/commands/version.rs:112-115 | For a repeated name, the last reported value wins, as in `collect::<HashMap>`. |
| Cascade.FirstPassWrites | src/commands/version.rs:103-112 | When packages that share a manifest are the same package, as the repeats `members_deep` yields are, a successful first pass leaves each selected manifest holding the mapped value, or untouched when the mapper answered None. |
| Cascade.FirstPassUpdates | src/commands/version.rs:103-115 | The update map holds exactly the names of selected packages with a new value. |
| Cascade.WalkTables | src/commands/rename.rs:82-87 | Walking named sub-tables keeps every key, and keys outside the list are untouched. |
| Cascade.WalkTablesWalksEach | src/commands/rename.rs:82-87 | Each listed standard table is replaced by its own dependency walk; other listed keys are untouched. |
| Cascade.TableKeys | src/commands/rename.rs:77-80 | The platform keys are exactly those holding standard tables. |
| Cascade.WalkTarget | src/commands/rename.rs:76-88 | Only `target` can change. |
| Cascade.SecondPass | src/commands/rename.rs:70-99 | The second pass over one manifest keeps every key. Keys other than the dependency sections, `features` and `target` keep their items. |
| Cascade.SecondPassReachesTargets | src/commands/rename.rs:76-87 | Every standard table under `target` comes out as the dependency walk made it. |
| Cascade.SecondPassPassive | src/commands/rename.rs:70-99 | A visitor that never changes anything leaves the manifest unchanged, with count 0. |
| VersionCmd.ReqMatches | src/commands/version.rs:32-65 | Fails iff the `version` field is missing, is not a string, or does not parse as a requirement. |
| VersionCmd.CheckForUpdate | src/commands/version.rs:11-87 | Never Remove. Mutated iff the name has an update, the entry has `path`, and either the requirement is forced or does not match, or the requirement is missing outside dev-dependencies. A mutated inline entry without `version` gets `" version"` only when absent. Otherwise `version` is set, and every other field is kept. |
| VersionCmd.SectionRewritten | src/commands/version.rs:122-124 | In a section with distinct keys, each table-like entry ends as `check_for_update` rewrote its original contents. |
| VersionCmd.UpdateDeps | src/commands/version.rs:118-141 | The second pass as written keeps every key. It can only change the sections, `features`, and root keys named like a platform table under `target`. |
| VersionCmd.TargetDepsNotRewritten | src/commands/version.rs:126-139 | As written, `target` itself comes out of the second pass unchanged. |
| VersionCmd.TargetDepsExample | src/commands/version.rs:134 | A concrete manifest whose platform path dependency keeps a stale requirement. |
| VersionCmd.SetVersionAsWritten | src/commands/version.rs:91-154 | `set_version` as written: both passes over `members_deep`, and no file appears or disappears. |
| VersionCmd.SetVersion | src/commands/version.rs:91-154 | `set_version` with the platform tables looked up inside `target`; no file appears or disappears. |
| VersionCmd.SetVersionNoOp | src/commands/version.rs:103-151 | A mapper that never gives a new version changes no file. |
| RenameCmd.CheckForRename | src/commands/rename.rs:7-39 | Never Remove. Mutated iff the name is renamed and the entry has `path`. A table entry gets `package` overwritten. An inline entry gets `" package"` only when absent. Every other field is kept. |
| RenameCmd.Rename | src/commands/rename.rs:43-102 | The two passes over `members_deep`; no file appears or disappears. |
| RenameCmd.RenameCommand | src/cli.rs:567-572 | The `rename` command over packages whose trimmed name is the old name; no file appears or disappears. |
| RenameCmd.RenameSetsNames | src/commands/rename.rs:50-59 | When packages that share a manifest are the same package, as the repeats `members_deep` yields are, a successful first pass gives every selected manifest `package.name` set to the new name. |
| RenameCmd.RenameUpdatesSelected | src/commands/rename.rs:50-62 | The rename map's keys are exactly the names of the selected packages. |
| RenameCmd.RenameNoMatch | src/commands/rename.rs:64-67 | When no package has the old name, nothing is written and the result is Ok. |
| CleanDeps.Ident | src/commands/clean_deps.rs:26-30 | The searched identifier is the alias, or else the name, with every '-' turned into '_'. |
| CleanDeps.DecideAsWritten | src/commands/clean_deps.rs:36-46 | An unfound dependency is removed outside check-only mode. Everything else is Untouched, including an unfound one in check-only mode. |
| CleanDeps.Visitor | src/commands/clean_deps.rs:25-47 | The visitor never fails and hands every entry back unchanged. Its answer is the decision rule applied to whether the identifier is found in the package's directory. |
| CleanDeps.CleanManifest | src/commands/clean_deps.rs:21-48 | The walk over one manifest keeps every root key. |
| CleanDeps.Clean | src/commands/clean_deps.rs:10-57 | `clean_up_unused_dependencies` over the workspace members the predicate selects, with the decision rule as a parameter; no file appears or disappears. |
| CleanDeps.CleanAsWritten | src/commands/clean_deps.rs:10-57 | The command with the decision rule as written. |
| CleanDeps.CleanIntended | src/commands/clean_deps.rs:10-57 | The command with the corrected decision rule. |
| CleanDeps.CleanRemovesUnused | src/commands/clean_deps.rs:36-46 | Outside check-only mode, a visited dependency is removed iff its identifier is not found, and it is then gone from its section. |
| CleanDeps.CheckOnlyKeepsManifests | src/commands/clean_deps.rs:37-39 | In check-only mode no manifest changes. |
| CleanDeps.AsWrittenCountsNothing | src/commands/clean_deps.rs:37-48 | As written, every check-only count is 0. |
| CleanDeps.CheckOnlyNeverAborts | src/commands/clean_deps.rs:50-56 | As written, check-only mode fails only with an error of the walk itself. |
| CleanDeps.CheckOnlyMissesUnused | src/commands/clean_deps.rs:36-54 | A manifest with an unused `foo` passes the check-only run. |
| CleanDeps.DecideIntended | src/commands/clean_deps.rs:36-46 | The corrected rule: an unfound dependency is removed, or in check-only mode reported as Mutated. |
| CleanDeps.IntendedCountsUnused | src/commands/clean_deps.rs:25-48 | With the corrected rule, a manifest's check-only count is positive iff its walk met an unused dependency. |
| CleanDeps.IntendedCheckFails | src/commands/clean_deps.rs:48-56 | With the corrected rule, the check-only run fails iff some selected manifest has an unused dependency. |
| CleanDeps.SumPositive | src/commands/clean_deps.rs:48-51 | The summed count is positive iff some manifest's count is. |
| CleanDeps.SumFindsUnused | src/commands/clean_deps.rs:48 | When each count is positive iff its manifest has an unused dependency, the sum is positive iff some manifest has one. |
| DeDevDeps.Deactivate | src/commands/de_dev_deps.rs:9 | `dev-dependencies` is gone, and every other root key keeps its item. |
| DeDevDeps.DeactivateIdempotent | src/commands/de_dev_deps.rs:9 | Deactivating twice is deactivating once. |
| DeDevDeps.DeactivateAll | src/commands/de_dev_deps.rs:5-11 | No file appears. The run succeeds iff every manifest exists. |
| DeDevDeps.MissingManifestFails | src/commands/de_dev_deps.rs:5-11 | The edit loop fails iff some manifest to edit is missing. |
| DeDevDeps.DeactivateAllRemoves | src/commands/de_dev_deps.rs:9 | After a successful run, no edited manifest has `dev-dependencies`, and all its other root keys are kept. |
| DeDevDeps.DeactivateAllAbsent | src/commands/de_dev_deps.rs:9 | Manifests without the section are rewritten as they were. |
| DeDevDeps.DeactivateAllIdempotent | src/commands/de_dev_deps.rs:5-11 | A second run changes nothing. |
| DeDevDeps.DeactivateAllStops | src/util.rs:88-94 | A failed run stopped at a missing manifest, and the manifests from there on are as they were. |
| SetField.SetIn | src/commands/set_field.rs:17-31 | A missing root key becomes an empty table first. Anything there other than a standard table fails with the package's name. On success the table holds `key = value`. |
| SetField.SetInFrame | src/commands/set_field.rs:19-30 | Other root keys are kept. The root key is appended only when it was missing. |
| SetField.SetInKeepsSiblings | src/commands/set_field.rs:19-30 | Other keys of that table are kept. A created table holds only the new field. |
| SetField.SetInIdempotent | src/commands/set_field.rs:17-31 | Setting the same field twice is setting it once. |
| SetField.SetFieldAsWritten | src/commands/set_field.rs:7-34 | As written, the command reports Ok whatever happened. |
| SetField.SetFieldReporting | src/commands/set_field.rs:7-34 | The command with `edit_each`'s result passed on; no file appears or disappears. |
| SetField.AsWrittenHidesNotATable | src/commands/set_field.rs:16-33 | A manifest whose `package` is a string is left without the field, and the command still reports Ok. |
| SetField.ReportingOk | src/commands/set_field.rs:16-32 | With the result reported, the run succeeds iff every manifest is readable and settable, and then every manifest holds the field. |
| SetField.ReportingFails | src/commands/set_field.rs:16-32 | A failed reporting run names the first failing package. That manifest and later ones are unchanged. |
| SetField.TypedValue | src/cli.rs:549-557 | "true" or "false" becomes a bool, else a 64-bit integer when it parses as one, else the string itself. |
| SetField.ParseBool | src/cli.rs:549-551 | Parses exactly "true" and "false", to the matching bool. |
| SetField.ParseI64 | src/cli.rs:552-553 | A parsed integer lies in the 64-bit signed range and comes from text that starts with a sign or digit. |
| SetField.ParseI64OfIntToString | src/cli.rs:552 | Every 64-bit integer parses back from its decimal text. |
| SetField.TypedValueOfInt | src/cli.rs:549-557 | The decimal text of a 64-bit integer becomes that integer. |
| SetField.SetCommand | src/cli.rs:544-566 | The field `name` is refused with the rename hint, and nothing is written. Any other field is set through `set_field` as written, so the command reports success whatever the edits did. |
| SetField.SetCommandReporting | src/commands/set_field.rs:7-34 | The corrected command writes exactly what the command as written writes. It fails wherever that one does, and beyond that only when an edit failed. |
| SetField.SetCommandSkipsUnselected | src/cli.rs:559-565 | A manifest of no selected member is not touched. |
| ToRelease.FirstDuplicate | src/commands/to_release.rs:22-32 | None iff the selected names are distinct; otherwise a name that occurs twice. |
| ToRelease.Edges | src/commands/to_release.rs:34-44 | An edge a→b exists iff both are selected names and a member named a declares a dependency on package b. |
| ToRelease.Sort | src/commands/to_release.rs:62-68 | Either a permutation of the packages in which dependencies come first, or a non-empty stuck group of waiting packages. |
| ToRelease.PackagesToRelease | src/commands/to_release.rs:12-70 | Duplicate selected names give the "found more than once" error. A success is a permutation of the selected members in dependency-first order. |
| ToRelease.SortOkIffAcyclic | src/commands/to_release.rs:62-63 | The sort succeeds iff the graph has no cycle. |
| ToRelease.ReleaseOkIffAcyclic | src/commands/to_release.rs:12-70 | With distinct names, the command succeeds iff the selected members' dependency graph has no cycle. |
| ToRelease.DepsFirstAcyclic | src/commands/to_release.rs:62-68 | A dependency-first order rules out cycles. |
| ToRelease.SelfDependencyFails | src/commands/to_release.rs:40-63 | A selected package that depends on itself makes the command fail. |
| ToRelease.SelfLoopStuck | src/commands/to_release.rs:62-63 | An edge from a package to itself is a cycle. |
| ToRelease.CycleNamesStuckPackage | src/commands/to_release.rs:62-63 | The cycle error names a package of a stuck group of selected packages. |
| CheckCmd.BadFields | src/commands/check.rs:160-181 | Each problem is reported iff its condition holds: description or repository missing or empty; license and license_file both set; no usable license; more than 5 keywords. |
| CheckCmd.CheckMetadataOk | src/commands/check.rs:160-187 | `check_metadata` passes iff the metadata is publishable. |
| CheckCmd.CheckMetadata | src/commands/check.rs:182-186 | Fails iff at least one problem was found. |
| CheckCmd.GitUnversioned | src/commands/check.rs:140-156 | Lists exactly the git-sourced dependencies with an unconstrained requirement. |
| CheckCmd.CheckDependencies | src/commands/check.rs:140-156 | Fails iff some dependency is git-sourced without a version requirement. |
| CheckCmd.SoftErrors | src/commands/check.rs:229-240 | Each failing metadata or dependency check contributes its error (`CheckCmd.SoftErrorsOnly` gives the converse). The length, which the bail message reports, is the number of failing metadata checks plus the number of failing dependency checks, at most two per package. It is empty iff every package passes both. The two checks are parameters, and `CheckCmd.Check` passes `check_metadata` and `check_dependencies`. |
| CheckCmd.ReadmeErrors | src/commands/check.rs:244-257 | One line "<name>: Checking Readme file failed with: <error>" for each package whose readme check fails, and nothing else. The length, which the bail message reports, is the number of failing packages. |
| CheckCmd.SoftErrorsOnly | src/commands/check.rs:229-236 | Every listed soft error is the error of some package's metadata or dependency check. |
| CheckCmd.PackOne | src/commands/check.rs:259-280 | A package packs iff its metadata passes and packing yields exactly one tarball. |
| CheckCmd.PackFailures | src/commands/check.rs:259-284 | Every package is packed. The failure count is 0 iff every package packs. |
| CheckCmd.VerifyAll | src/commands/check.rs:295-312 | Package i is verified with the map that the first i verifications built, starting from the known map. The first error stops the loop. |
| CheckCmd.GivenHoldsEarlier | src/commands/check.rs:295-312 | When each verification adds its own package, the map given to package i holds exactly packages 0..i-1. |
| CheckCmd.Check | src/commands/check.rs:200-314 | Soft errors stop the run before packing, with their count. Nothing is verified unless every package packed. The run succeeds iff every stage passes. |
| CheckCmd.PackThenVerify | src/commands/check.rs:259-312 | Packing always runs. Verification gets a map only when every package packed, and the stage succeeds iff nothing failed to pack and every verification passed. |
| CheckCmd.InjectEntry | src/commands/check.rs:37-52 | Mutated iff the name is in the map. A table entry gets `path` overwritten, an inline entry keeps an existing `path`, and other fields are kept. |
| CheckCmd.InjectReplacement | src/commands/check.rs:27-55 | Only dependency sections and `features` can change. |
| CheckCmd.InjectReplacementVisits | src/commands/check.rs:37-52 | Exactly the names in the map are mutated, and `features` is untouched. |
| CheckCmd.InjectNothing | src/commands/check.rs:27-55 | An empty map leaves the manifest as it was. |
| Release.Delay | src/commands/release.rs:36-44 | Up to 29 packages get no delay. Beyond that the delay is the least whole number of seconds for which the 30 waits among any 31 consecutive uploads exceed 10 minutes, so at most 30 go out in any 10 minutes. |
| Release.Options | src/commands/release.rs:17-34 | Publishing runs without verification, allowing a dirty tree, with the given dry-run flag and token. |
| Release.RunFrom | src/commands/release.rs:47-62 | The trace is a prefix of the planned trace. It is the whole plan on success, and on failure it ends with the failed publish or owner call. |
| Release.RunFromOk | src/commands/release.rs:47-62 | The run succeeds iff every publish and every owner call does. |
| Release.ReleaseAll | src/commands/release.rs:9-64 | The same for the whole release, with the delay and options above. |
| Release.IdealPublishesInOrder | src/commands/release.rs:47-58 | The plan publishes the packages in the given order. There is one wait before each package but the first when the delay is positive, and none otherwise. |
| Release.StepsCounts | src/commands/release.rs:48-58 | Each step publishes its package once, preceded by a wait exactly when it is not the first and the delay is positive. |
| Release.OwnerFollowsPublish | src/commands/release.rs:59-61 | With an owner, each publish is immediately followed by that package's owner call. |
| AddOwner.RequestFor | src/commands/add_owner.rs:15-23 | The request names the crate, adds only the new owner, removes nothing, does not list owners, and carries the token. |
| AddOwner.AddOwner | src/commands/add_owner.rs:7-36 | Ok iff the call succeeds or its error ends with "is already an owner". Any other error is returned as is. |
| AddOwner.AlreadyOwnerAccepted | src/commands/add_owner.rs:25-35 | An "already an owner" error is accepted. |
| Selection.MakePredicate | src/cli.rs:406-447 | The option conflicts are refused in source order, with their messages: packages with skip or ignore-pre; packages with changed-since; changed-since with skip or ignore-pre. A git error is passed on. Otherwise the changed set is the diff's `changed_packages`. |
| Selection.Accepts | src/cli.rs:430-476 | The publish gate comes first. With a changed set, accept iff the package is in it or is a pre-release pulled in by include-pre-deps. The same holds for the package list. Otherwise reject iff a skip regex matches the name or the pre-release is ignored. |
| Selection.NoOptionsTakesPublishable | src/cli.rs:449-476 | Without selection options exactly the publishable packages are taken. |
| Mappers.Patch | src/cli.rs:621-634 | bump-patch raises the version: patch + 1, pre cleared, build kept. |
| Mappers.Minor | src/cli.rs:635-649 | bump-minor raises the version: minor + 1, patch 0, pre cleared, build kept. |
| Mappers.Major | src/cli.rs:650-665 | bump-major raises the version: major + 1, lower fields 0, pre cleared, build kept. |
| Mappers.Breaking | src/cli.rs:666-693 | bump-breaking gives the lowest release above the version that its caret requirement does not accept. Build metadata is kept, except that a 0.0.x version loses it. |
| Mappers.ToDev | src/cli.rs:694-724 | bump-to-dev gives the breaking release's core with the tag as pre. With a tag it lies strictly between the old version and the breaking release. Build metadata is kept, except that a 0.0.x version loses it. |
| Mappers.Apply | src/cli.rs:575-766 | Each sub-command dispatches to its mapper: `set` gives the given version, and bump-patch/minor/major/breaking give the bumped version. bump-to-dev gives `ToDev` with the tag. set-pre and set-build replace only the pre-release or only the build metadata. These three fail iff their text is not a valid SemVer identifier list, and every other sub-command succeeds. Only `set` can lower the major. `release` keeps the core, clears pre and build, and raises precedence iff there was a pre-release. bump-pre is the as-written bump with the wrapping `u32` increment, and on a valid pre-release it changes only the pre-release. |
| Mappers.SetPreRestores | src/cli.rs:725-738 | set-pre with a valid pre-release installs exactly that pre-release, and setting the old one back restores the version. |
| Mappers.SetBuildRestores | src/cli.rs:739-752 | set-build with valid metadata installs exactly that metadata, and setting the old one back restores the version. |
| Mappers.ApplyIntended | src/cli.rs:584-620 | With the increment that does not wrap, bump-pre changes only the pre-release. It raises a pre-release and gives a release a pre-release that ranks below it; every other sub-command is as written. |
| VersionCmd.CommandMapper | src/cli.rs:575-766 | Each `version` sub-command's mapper: `set` gives every package the same version, only set-pre, set-build and bump-to-dev can fail, and `release` always yields a release with the package's core. |
| Mappers.BumpPreAsWritten | src/cli.rs:589-617 | bump-pre as written changes only the pre-release, and a release gets "1". |
| Mappers.PreFrom | src/cli.rs:600-616 | A joined identifier list is accepted iff it is a valid pre-release. |
| Mappers.BumpPreTotal | src/cli.rs:584-620 | bump-pre of a valid pre-release always yields a valid one. |
| Mappers.BumpPreRaises | src/cli.rs:584-620 | Corrected bump-pre: a pre-release moves to a higher pre-release. An empty pre becomes "1", which ranks below the release itself. |
| Mappers.BumpPreWrapLowers | src/cli.rs:593-606 | As written, pre 4294967295 becomes 0, which ranks lower. |
| Mappers.BumpPreNextNoWrap | src/cli.rs:593-606 | The corrected increment gives 4294967296, which ranks higher. |
| Mappers.IncU32 | src/cli.rs:606 | The as-written `u32` increment: one more below the maximum, 0 at the maximum, always in range. |
| Mappers.BumpToDevExamples | tests/version_bumps.rs:63-65 | 0.1.0 → 0.2.0-dev, 2.0.0 → 3.0.0-dev, 3.1.0 → 4.0.0-dev. |
| Mappers.SetPreExamples | tests/version_bumps.rs:31-33 | set-pre dev gives 0.1.0-dev and 2.0.0-dev. |
| Matchers.Lex | src/matcher.rs:62-123 | `lex` never fails. Its output never has two tokens in a row, and tokens are non-empty and contain no operator, parenthesis or space. |
| Matchers.LexRender | src/matcher.rs:62-123 | Lexing items written back as text gives the same items. |
| Matchers.Traverse | src/matcher.rs:138-157 | Grouping returns a group and consumes part of the input. |
| Matchers.TraverseFlat | src/matcher.rs:141-156 | Parenthesis-free items become one flat group of entries. |
| Matchers.ParseFlat | src/matcher.rs:222-226 | A parenthesis-free expression parses as the translation of its flat group of entries. |
| Matchers.TranslateTriple | src/matcher.rs:177-195 | A group `x op y` translates to the And or Or of the two translations. |
| Matchers.TraverseStopsAtClose | src/matcher.rs:144-146 | A ')' closes the current group, and the rest is returned unconsumed. |
| Matchers.ParsedTreeGrouped | src/matcher.rs:147-196 | The tree holds no parenthesis entries, so the `unreachable!` arm is never taken. |
| Matchers.ParseToken | src/matcher.rs:228-253 | "version=" gives Version, or the "Could not parse version" error. A word starting "name" followed by one of `^=`, `$=`, `!=`, `==`, `=` gives Name with the text after the operator; a "name" word with none of them is "Could not parse name match". A word that starts with neither is "Unknown Token". |
| Matchers.ParseComparatorText | src/matcher.rs:236-243 | Every comparator word parses back to its comparator. |
| Matchers.SingleEqualsIsEq | src/matcher.rs:242-245 | "name=" is Eq. "name==" is tried first, so "name=" followed by "=x" is Eq x. |
| Matchers.FoldAnd | src/matcher.rs:205-215 | The fold matches iff every folded matcher matches. |
| Matchers.NeqNegatesEq | src/matcher.rs:24-33 | Name comparators are matched against the package name; `!=` matches exactly the names `==` does not. |
| Matchers.NoPrecedence | src/matcher.rs:177-195 | `a op1 b op2 c` is (a op1 b) op2 c: left-associative with no precedence. |
| Matchers.Juxtaposed | src/matcher.rs:199-212 | A word followed by a group is their conjunction. |
| Matchers.LeadingOperator | src/matcher.rs:178-188 | A leading operator fails with "no item before". |
| Matchers.TrailingOperator | src/matcher.rs:180-191 | A trailing operator fails with "missing item after". |
| Matchers.DoubledOperator | src/matcher.rs:161-182 | Two operators in a row fail with "Item not supported". |
| Matchers.EmptyExpression | src/matcher.rs:214 | An empty expression or "()" is an error where the source panics. |
| Matchers.IgnoredAfterClose | src/matcher.rs:138-157 | Everything after an unmatched ')' is ignored. |
| Matchers.SingleWord | src/matcher.rs:222-226 | A single word parses as its token. |
| Matchers.ShowParses | src/matcher.rs:159-226 | Any matcher written with its operands in parentheses parses back to itself. |
| Matchers.TranslateShow | src/matcher.rs:159-219 | `translate` of the tree of a parenthesised rendering gives the matcher back. |
| Matchers.Parse | src/matcher.rs:222-226 | Text without a single token is an error, where the program panics on the empty fold. |
| Matchers.SimpleParseTest | src/matcher.rs:259-267 | The test's version, prefix and `==` words parse, and they match pallet-aura 1.0.0. |
| Matchers.SimpleParseTestNames | src/matcher.rs:268-270 | The test's `=`, `!=` and `$=` words parse, and they match pallet-aura. |
| Matchers.GroupTest | src/matcher.rs:276-288 | The grouped test expression parses to Or(And(version, prefix), name) and matches pallet-aura 1.0.0. |
| HiddenFeatures.Insert | src/commands/hidden_features.rs:48-62 | A set holds one feature per name. Inserting a name already present changes nothing. |
| HiddenFeatures.Union | src/commands/hidden_features.rs:123-125 | Adding used features keeps the first feature of each name. |
| HiddenFeatures.Difference | src/commands/hidden_features.rs:292-301 | The difference has exactly the names of the first set not in the second. |
| HiddenFeatures.NewFinder | src/commands/hidden_features.rs:154-165 | A fresh finder maps no crate and passes the check. |
| HiddenFeatures.FindAssociatedCargo | src/commands/hidden_features.rs:168-181 | A result is the Cargo.toml of a directory where a crate is mapped or a manifest exists. |
| HiddenFeatures.FindAssociatedCargoNearest | src/commands/hidden_features.rs:168-181 | The nearest such directory, starting at the path itself, is chosen. |
| HiddenFeatures.FindAssociatedCargoNone | src/commands/hidden_features.rs:168-181 | None iff no ancestor up to the top has one. |
| HiddenFeatures.AddFeature | src/commands/hidden_features.rs:237-263 | Succeeds iff the feature has a path with a parent and a Cargo.toml is found for it. Each failure has its own error. |
| HiddenFeatures.AddFeatureEffect | src/commands/hidden_features.rs:241-262 | The feature is filed under that Cargo.toml. The crate is created when new, and other crates are untouched. |
| HiddenFeatures.AddFeatureInvariants | src/commands/hidden_features.rs:241-262 | Crates stay keyed by their path, with one feature per name, and ignored names stay out. |
| HiddenFeatures.WalkRootVisible | src/commands/hidden_features.rs:129-197 | The walk yields no ignored path and nothing under a dot-named entry below the root. |
| HiddenFeatures.LineFeatures | src/commands/hidden_features.rs:207-227 | The features of a line are names extracted from it that are not ignored, carrying its path and line number. |
| HiddenFeatures.FileFeatures | src/commands/hidden_features.rs:204-227 | The features of a file are used features that are not ignored, and carry its path. |
| HiddenFeatures.Collect | src/commands/hidden_features.rs:190-232 | Only used features from `.rs` files, never an ignored name. |
| HiddenFeatures.CollectedAreVisible | src/commands/hidden_features.rs:189-232 | Every collected feature comes from a visible `.rs` file and has a name that is not ignored. |
| HiddenFeatures.FindUsedKeepsIgnoredOut | src/commands/hidden_features.rs:185-234 | Ignored names are never recorded as used. |
| HiddenFeatures.FindUsed | src/commands/hidden_features.rs:185-234 | The ignore lists stay as they were, and no crate is dropped. A walk or open error leaves the finder as it was, and that error is the result. |
| HiddenFeatures.FindExposed | src/commands/hidden_features.rs:266-289 | Fails iff some crate's manifest cannot be read. Each crate's exposed set is its manifest's features minus the ignored ones, and nothing else changes. |
| HiddenFeatures.FindHidden | src/commands/hidden_features.rs:292-302 | Each crate's hidden set is exactly its used features not exposed, compared by name. |
| HiddenFeatures.NothingHidden | src/commands/hidden_features.rs:297-311 | A crate's hidden set is empty iff every used name is exposed. |
| HiddenFeatures.CheckHidden | src/commands/hidden_features.rs:305-333 | Ok iff every crate's hidden set is empty. |
| HiddenFeatures.CheckAfterFindHidden | src/commands/hidden_features.rs:292-333 | After `find_hidden_features`, the check passes iff every crate exposes all the features it uses. |
| HiddenFeatures.FindAndCheckVerdict | src/commands/hidden_features.rs:349-354 | Once both finds succeed, `find_and_check` passes iff every crate exposes what it uses. |
| HiddenFeatures.FindAndCheck | src/commands/hidden_features.rs:349-354 | Passes only when both finds succeed. An error of the first find is the result. |
| HiddenFeatures.RootIgnored | src/commands/hidden_features.rs:425-437 | With the root path ignored the run passes. |
| HiddenFeatures.AllNamesIgnored | src/commands/hidden_features.rs:411-423 | When every feature name is ignored, the run passes iff collecting the files succeeds. |

## Left out

- I/O and external programs are oracles, not models: file reading and writing (a missing manifest is the one read failure), TOML parsing, git, ripgrep, regex, `Version::parse`, `VersionReq::matches`, Cargo packing and compiling (`run_check`), `publish`, `modify_owners`, `Path::is_file`/`exists`, and the WalkDir traversal (a tree oracle).
- Shell status lines, logging, `trace!`/`warn!`, the done-messages with counts, and `clickable_path` only print.
- toml_edit decoration and formatting (`decorated(" ", "")`) are not modelled; manifests are key/value trees.
- `HashMap`/`HashSet` iteration order is not modelled: maps and sets are unordered, and feature sets are maps keyed by name.
- `thread::sleep` is a `Wait` event; time itself is not modelled.
- Counters are unbounded `nat`s; `u32` overflow of a dependency count is not modelled.
- `Mappers.Patch`, `Mappers.Minor`, `Mappers.Major`, `Mappers.Breaking` and `Mappers.ToDev` work on unbounded version numbers; the `u64` overflow of `+= 1` at `u64::MAX` (src/cli.rs:629, 643, 658, 675-713) is not modelled.
- `Mappers.Apply` models the release-build wrap of the bump-pre `num + 1` (src/cli.rs:594, 606); the debug-build overflow panic is not modelled.
- `WorkspaceView.MembersDeep` assumes `to_file_path().expect(..)` and `root_package().expect(..)` (src/util.rs:69-71) succeed: every path dependency's directory has a root package. Those panics are not modelled.
- src/semverver.rs, src/commands/readme.rs and src/commands/gen_readme.rs are not part of this model: they drive external generators and processes.
- src/cli.rs argument parsing, `get_token`, `verify_readme_feature`, the `maybe_patch` re-reading of the workspace, the `gen-readme` and `em-dragons` commands, the empty-selection handling of `to-release` and `check`, and the `add-owner` command's loop over members (one call per member, stopping at the first error) are not modelled.
- The dot-graph output of `to-release` and the non-selected-dependency warnings (src/commands/to_release.rs:45-58) only log and are not modelled.
- `hidden_features()` (src/commands/hidden_features.rs:338-347) is a test-only accessor and is not modelled.
- `ToRelease.CycleNamesStuckPackage`: petgraph's choice of the cycle node it reports is not modelled; the message names a package of a stuck group (every member depends on another member), not necessarily one on a cycle.
- `ToRelease.Sort`: the order is a dependencies-first permutation; petgraph's exact order is not reproduced.
- `RenameCmd.Rename`, `RenameCmd.RenameCommand`, `VersionCmd.SetVersion` and `VersionCmd.SetVersionAsWritten` only state that no file appears or disappears; what they write is stated per pass by the lemmas above (`Cascade.FirstPassWrites`, `Cascade.SecondPassReachesTargets`, `RenameCmd.RenameSetsNames`, `VersionCmd.SetVersionNoOp`).
- `Cascade.FirstPass` states only that no file appears or disappears; what it writes and collects is in `Cascade.FirstPassWrites` and `Cascade.FirstPassUpdates`.
- `CleanDeps.Clean`, `CleanDeps.CleanAsWritten` and `CleanDeps.CleanIntended` state only that no file appears or disappears; their outcome is in `CleanDeps.CheckOnlyKeepsManifests`, `CleanDeps.CheckOnlyNeverAborts` and `CleanDeps.IntendedCheckFails`.
- `SetField.SetFieldReporting` states only that no file appears or disappears; its outcome is in `SetField.ReportingOk` and `SetField.ReportingFails`.
- `SetField.ParseI64` states range and shape only; its exact values are in `SetField.ParseI64OfIntToString`.
- `CleanDeps.CleanManifest` and `CheckCmd.InjectReplacement` state only their frame; what they do to entries is in `CleanDeps.CleanRemovesUnused` and `CheckCmd.InjectReplacementVisits`.
- `Matchers.Traverse` states only its shape; its grouping is stated by `Matchers.TraverseFlat`, `Matchers.TraverseStopsAtClose` and `Matchers.ShowParses`.
- `HiddenFeatures.FindAssociatedCargo`: paths are component sequences; `Path::parent` stops at the root or at the empty path.
- A `package` entry that is not a string and an empty matcher expression panic in the source; the model returns `Err`.

## Findings

| source | as written | input that shows it | evidently intended | confidence | as-written member | corrected member |
|---|---|---|---|---|---|---|
| src/commands/clean_deps.rs:37-39 | in check-only mode an unused dependency is answered `Untouched`, so the count stays 0 and the run never aborts | a member whose only dependency `foo` is never mentioned in its sources, run with `--check-only` | report it as a change so that the summed count is positive and the run fails | high, not executed | CleanDeps.CheckOnlyMissesUnused | CleanDeps.IntendedCheckFails |
| src/cli.rs:593-606 | bump-pre computes `num + 1` on a `u32`, which wraps in release builds | pre-release `4294967295` becomes `0`, a lower version | a strictly higher pre-release | medium, not executed | Mappers.BumpPreWrapLowers | Mappers.BumpPreRaises |
| src/commands/set_field.rs:16 | `let _ =` drops the result of `edit_each`, so a failed edit is reported as success | a manifest whose `package` is a string, set `package.edition` | pass the error on | high, not executed | SetField.AsWrittenHidesNotATable | SetField.ReportingFails |
| src/commands/version.rs:134 | the platform tables under `target` are looked up at the manifest root (`root` is shadowed only inside the branch) | `[target.'cfg(unix)'.dependencies] a = { path = "../a", version = "1.0.0" }` when `a` moves to 2.0.0 | look them up inside `target`, as src/commands/rename.rs:83 does | high, not executed | VersionCmd.TargetDepsExample | Cascade.SecondPassReachesTargets |
