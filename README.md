# ottoia core, modelled in Dafny

This project models the in-memory bookkeeping of the ottoia monorepo
package manager (`OttoiaManager`) and proves properties of it. The model
covers:

- the package registry and its alias table: case-insensitive lookup,
  `@@alias` lookup, `reload`, `createPackage` and `getPackage`;
- the dependency reference counter: `add`, `remove`, `generateMap` and
  `isDependingOn`. Owners are `Global | Pkg(name)`, so the global bucket
  cannot collide with any package name;
- the edits `install` and `uninstall` make to the runtime, development and
  peer dependency records, including the recursive-dependency check;
- the release rewrite: choosing the base version, `_setupDependencies`,
  resolving dependency versions, stripping npm's hook scripts, naming
  backup files, and building the publish arguments;
- the built-in version namer and the built-in version comparator;
- the manifest helpers: `read`, `readMaster`, the package-name check,
  template entries, the generated `package.json`, `save` and `_scan`;
- the pure parts of the npm gateway: building argument lists, collecting
  per-package versions, choosing a version from `dist-tags`, and computing
  link paths.

Effects are modelled as follows:

- The file system is a value, `Disk.Disk`: a map from path to directory,
  file or link. Operations on it return the new disk and an outcome.
- Shell commands the npm gateway would run (`npm install`, `npm un`,
  `npm publish`, `bash -c <script>`, `ln -s`) are appended to a log of
  `Command`s on the `Npm` object and are not executed. `rm -rf
  node_modules` is a removal on the disk.
- Whether a command fails is an input: `Npm.failing` is the set of
  commands that exit with a non-zero status or print to stderr only.
  `execAt` rejects exactly those (`NpmHelper.Exec`), and the failure ends
  the operation that ran the command, as an `await` does.
- Registry HTTP replies are inputs: a status code and the `dist-tags`
  entries.

Modules follow the source files:

| file | module | source |
|---|---|---|
| errors.dfy | `Errors` | `src/lib/Errors.ts`: error kinds as constructors |
| text.dfy | `Text` | JavaScript string helpers: `toLowerCase`, `split`, `join`, `parseInt`, `Set` dedup, `filter` |
| json.dfy | `Json` | JSON values and truthiness |
| disk.dfy | `Disk` | `src/lib/_internal/FileUtils.ts` as a state over a path map |
| version_namer.dfy | `VersionNamer` | `src/lib/_internal/VersionNamer.ts` |
| internal.dfy | `Internal` | `builtInCmpSemVersion` in `src/lib/_internal/Internal.ts` |
| dependency_counter.dfy | `DependencyCounter` | `src/lib/_internal/DependencyCounter.ts` |
| package_utils.dfy | `PackageUtils` | `src/lib/_internal/PackageUtils.ts` |
| npm_helper.dfy | `NpmHelper` | `src/lib/_internal/NPMHelper.ts` |
| registry.dfy | `Registry` | the pure parts of `src/lib/Manager.ts` |
| release.dfy | `Release` | the release part of `src/lib/Manager.ts`, as functions |
| manager.dfy | `Manager` | the `OttoiaManager` class: fields and methods |

The source mutates state in `DependencyCounter`, `Npm` (its `cwd`),
`Utils`, `FileSystem` and `Manager`. These are modelled as classes with
`modifies` clauses. Each method is proved against a function of its
inputs and old state. The lemmas state properties of those functions.

Record key order: JavaScript visits record keys that look like array
indices first, in ascending numeric order, and the other keys in insertion
order. A Dafny `map` has no order. The model keeps these orders:

- the registry's package order is kept in `names`;
- keys of dependency records and counter buckets are visited in
  lexicographic order (`Text.SortedKeys`).

Where the source's files disagree:

- `Manager.ts` passes plain strings to `install`, which is typed for
  `IDependency` and takes `v.expr` of each. For a string, `v.expr` is
  `undefined`, and `execAt` would then throw a `TypeError` at `v.includes`,
  so every install of a remote dependency would fail. The model abstracts
  this: the strings themselves are the arguments of `npm install`.
- `read` never sets `noRelease` or `privateAccess`, so a package read
  from disk has both flags false.
- `readMaster` throws `E_INVALID_MASTER_PACKAGE`, which `Errors.ts` does
  not declare. The model keeps it as an error constructor.
- Only `release` backs up and restores manifests; `install` and
  `uninstall` do not.
- `release` ignores an explicit version and the no-clean option. The
  base version is the newest published one, or `0.0.0`.

## Model

| member | source | states |
|---|---|---|
| `DependencyCounter.DependencyCounter.Add` | src/lib/_internal/DependencyCounter.ts:25-40 | the new table is `AfterAdd(old table, owner, deps)` and stays valid |
| `DependencyCounter.AddCounts` | src/lib/_internal/DependencyCounter.ts:25-40 | each name's count in the owner's bucket rises by its number of occurrences in `deps`; a package owner's increase is mirrored in the global bucket; no other bucket changes |
| `DependencyCounter.IncCounts` | src/lib/_internal/DependencyCounter.ts:31-34 | the loop of `add` raises a count by one per occurrence, so a duplicated name counts twice |
| `DependencyCounter.DependencyCounter.Remove` | src/lib/_internal/DependencyCounter.ts:42-70 | the new table is `AfterRemove(old table, owner, deps)` and stays valid; no bucket stores a zero count |
| `DependencyCounter.Dec` | src/lib/_internal/DependencyCounter.ts:51-64 | a name's count drops by its number of occurrences, stopping at zero; a name reaching zero is deleted; no stored count is zero; no name is added |
| `DependencyCounter.RemoveFloors` | src/lib/_internal/DependencyCounter.ts:42-70 | `remove` lowers the owner's and the global counts, stopping at zero. The global bucket is lowered even for names the owner never held. No other bucket changes |
| `DependencyCounter.AddKeepsConsistent` | src/lib/_internal/DependencyCounter.ts:25-40 | `add` on a package keeps the global bucket equal to the sum of the package buckets |
| `DependencyCounter.RemoveConsistency` | src/lib/_internal/DependencyCounter.ts:42-70 | `remove` keeps "global equals the sum" exactly when, for each name, the package held at least as many counts as the list removes, or the package held all of the global count |
| `DependencyCounter.TotalBounds` | src/lib/_internal/DependencyCounter.ts:36-39 | no package bucket holds more of a name than the sum over all package buckets |
| `DependencyCounter.StepDecreases` | src/lib/_internal/DependencyCounter.ts:99-101 | each recursive step adds to the path an owner not yet on it, so the number of unvisited owners falls; `generateMap` terminates on any table, cyclic or not |
| `DependencyCounter.DependencyCounter.GenerateInto` | src/lib/_internal/DependencyCounter.ts:86-104 | `_generateMap` adds `Reach(table, owner, path, d)` to each `stack[d]`; it recurses only into owners that are not on the path |
| `DependencyCounter.DependencyCounter.VisitKey` | src/lib/_internal/DependencyCounter.ts:95-103 | one key adds its direct count, then the flattening of that key's owner when the owner is not on the path |
| `DependencyCounter.DependencyCounter.GenerateMap` | src/lib/_internal/DependencyCounter.ts:77-84 | the result maps each name to its transitive count `Reach`; it holds exactly the names with positive count; an unknown owner gives an empty map; the method modifies nothing |
| `DependencyCounter.ReachAtLeastDirect` | src/lib/_internal/DependencyCounter.ts:88-97 | for a known owner, each direct dependency is reached at least as many times as the owner counts it |
| `DependencyCounter.ReachUnlisted` | src/lib/_internal/DependencyCounter.ts:86-104 | a name that no bucket lists is never reached |
| `DependencyCounter.DependencyCounter.IsDependingOn` | src/lib/_internal/DependencyCounter.ts:72-75 | true exactly when the flattened count of `dep` from the owner is non-zero |
| `VersionNamer.SegmentValue` | src/lib/_internal/VersionNamer.ts:13-20 | a segment is its `parseInt` value when that is a safe integer, and 0 otherwise, including `NaN` |
| `VersionNamer.Components` | src/lib/_internal/VersionNamer.ts:13 | at most the first three dot segments are read, each with `SegmentValue` |
| `VersionNamer.BumpIndex` | src/lib/_internal/VersionNamer.ts:22-33 | breaking changes bump component 0; otherwise new features bump component 1; otherwise component 2. No patch flag is consulted |
| `VersionNamer.Bump` | src/lib/_internal/VersionNamer.ts:22-33 | only the chosen component changes, by +1; the others are kept, not reset. Bumping past the end leaves holes and `NaN` |
| `VersionNamer.NextOfThreeSegments` | src/lib/_internal/VersionNamer.ts:13-35 | for an input of at least three segments, the result reads back as three numbers: the chosen one is one more, the other two are unchanged, whatever the environment name |
| `VersionNamer.NextOfShortVersion` | src/lib/_internal/VersionNamer.ts:13-35 | an input with too few segments yields empty segments and `NaN` at the bumped index (`"7"` with a patch bump gives `"7..NaN"`) |
| `Internal.PadTo` | src/lib/_internal/Internal.ts:230-232 | the shorter list is padded with zeros to the longer one's length and keeps its prefix |
| `Internal.BuiltInCmpSemVersion` | src/lib/_internal/Internal.ts:225-241 | the padding and the early-return loop compute `CmpSemVersion(x, y)` |
| `Internal.ScanSegments` | src/lib/_internal/Internal.ts:234-240 | the index loop returns the difference at the first differing index, and 0 when there is none |
| `Internal.CmpReflexive` | src/lib/_internal/Internal.ts:234-240 | a numeric version compares 0 with itself; a version with a `NaN` segment compares `NaN` with itself |
| `Internal.CmpAntisymmetric` | src/lib/_internal/Internal.ts:225-241 | `cmp(x, y) == -cmp(y, x)` for all inputs, `NaN` staying `NaN` |
| `Internal.CmpTrailingZero` | src/lib/_internal/Internal.ts:230-232 | zero padding makes `x` and `x + ".0"` compare 0, e.g. `"1.2"` and `"1.2.0"` |
| `Internal.CmpIsLexicographic` | src/lib/_internal/Internal.ts:225-241 | on numeric versions the result is 0 exactly when the padded lists are equal, and negative exactly when the padded lists are lexicographically smaller |
| `Internal.CmpTransitive` | src/lib/_internal/Internal.ts:225-241 | on numeric versions "not older" is transitive |
| `Internal.CmpTotal` | src/lib/_internal/Internal.ts:225-241 | of any two numeric versions, one is not older than the other |
| `Internal.GreatestIsNewest` | src/lib/Manager.ts:69 | no listed numeric version is newer than the one the sort-and-take-last picks |
| `PackageUtils.ToPackage` | src/lib/_internal/PackageUtils.ts:51-62 | the package takes the root, the lowercased name, the alias from `ottoia:alias`, the version, `scripts` defaulting to `{}`, and the raw manifest; a dependency record is present exactly when the manifest has it |
| `PackageUtils.Read` | src/lib/_internal/PackageUtils.ts:42-62 | a missing or non-JSON manifest fails with the file error; a manifest failing the shape check fails; otherwise the result is `ToPackage` |
| `PackageUtils.ReadMaster` | src/lib/_internal/PackageUtils.ts:30-39 | read errors pass through; a missing or empty version, or a missing or falsy `ottoia` field, gives `INVALID_MASTER_PACKAGE` |
| `PackageUtils.NameMatchesIff` | src/lib/_internal/PackageUtils.ts:67-72 | the unanchored name pattern matches exactly the names containing some `[a-z0-9]` character |
| `PackageUtils.TemplatePairs` | src/lib/_internal/PackageUtils.ts:107-122 | a string entry is used as both input and output; a pair entry is (input, output) |
| `PackageUtils.GeneratedManifestFields` | src/lib/_internal/PackageUtils.ts:151-158 | for an object template, the manifest has the given `name`, `private: false` and `ottoia:alias` only when an alias is given; every other template field is kept and nothing else is added |
| `PackageUtils.GeneratedManifestReads` | src/lib/_internal/PackageUtils.ts:151-158 | for a lowercase name, the generated manifest passes the shape check when the template does, and reads back as a non-private package with that name and alias |
| `PackageUtils.CreateFile` | src/lib/_internal/PackageUtils.ts:127-160 | writing `package.json` from the template either passes or leaves the disk unchanged; copying another file may fail after its directory was made |
| `PackageUtils.CreateRefusals` | src/lib/_internal/PackageUtils.ts:65-103 | a name without `[a-z0-9]` is `INVALID_PACKAGE_NAME`; an existing target directory is `DUP_PACKAGE`; a missing template file or a list of the wrong shape is `INVALID_TEMPLATE`; each check leaves the disk unchanged |
| `PackageUtils.Utils.Create` | src/lib/_internal/PackageUtils.ts:65-125 | the disk and the result are those of `CreateSpec` |
| `PackageUtils.Utils.CreateFileAt` | src/lib/_internal/PackageUtils.ts:127-160 | the disk and outcome are those of `CreateFile` |
| `PackageUtils.ScanDirSound` | src/lib/_internal/PackageUtils.ts:171-196 | everything `_scan` collects is a directory below the root that holds `package.json` and whose name does not end in `.` |
| `PackageUtils.ScanDirFindsChild` | src/lib/_internal/PackageUtils.ts:171-196 | every directory directly under the root that holds `package.json` and does not end in `.` is collected |
| `PackageUtils.ScanDirComplete` | src/lib/_internal/PackageUtils.ts:171-196 | at every depth, a directory that holds `package.json`, does not end in `.`, and is reached only through directories the scan descends into (no `package.json`, not ending in `.`) is collected |
| `PackageUtils.Utils.ScanInto` | src/lib/_internal/PackageUtils.ts:171-196 | the recursion appends `ScanDir` to the stack, or fails when the root cannot be listed |
| `PackageUtils.Utils.VisitItem` | src/lib/_internal/PackageUtils.ts:175-195 | one entry is skipped, collected without descending, or descended into, as `ScanItem` says |
| `PackageUtils.Utils.Scan` | src/lib/_internal/PackageUtils.ts:162-169 | the result is `ScanDir` of the root |
| `PackageUtils.SaveThenRead` | src/lib/_internal/PackageUtils.ts:198-211 | after `save`, reading the package back gives the stored manifest with the three dependency records replaced by copies of the package's records (`{}` where the package has none) |
| `PackageUtils.SaveKeepsOtherFields` | src/lib/_internal/PackageUtils.ts:198-211 | `save` writes only the package's manifest, and in it only the three dependency records change |
| `PackageUtils.Utils.Save` | src/lib/_internal/PackageUtils.ts:198-212 | the disk and the result are those of `SaveSpec` |
| `NpmHelper.InstallArgs` | src/lib/_internal/NPMHelper.ts:74-86 | the arguments are the dependency expressions in order, then `--peer` if `peer`, then `--save-dev` if `dev` |
| `NpmHelper.Exec` | src/lib/_internal/FileUtils.ts:45-91 | a command fails exactly when it is one of the failing commands, and the failure names the command |
| `NpmHelper.RunAllMeaning` | src/lib/_internal/FileUtils.ts:45-91 | commands awaited in turn pass exactly when none fails, and then all run; otherwise they run up to and including the first failing one, whose failure is the outcome |
| `NpmHelper.Npm.Install` | src/lib/_internal/NPMHelper.ts:67-89 | an empty list runs nothing and passes; otherwise one `npm install` with `InstallArgs` runs in the current directory, and the call fails exactly when that command fails |
| `NpmHelper.UninstallArgs` | src/lib/_internal/NPMHelper.ts:197-207 | the arguments are the names, then `--peer`, then `-D` |
| `NpmHelper.Npm.Uninstall` | src/lib/_internal/NPMHelper.ts:190-210 | an empty list runs nothing and passes; otherwise one `npm un` runs with `UninstallArgs`, and the call fails exactly when that command fails. The caller's list is a value and is not extended |
| `NpmHelper.Npm.Publish` | src/lib/_internal/NPMHelper.ts:131-136 | one `npm publish` with the given arguments runs in the current directory, and the call fails exactly when that command fails |
| `NpmHelper.RunSpec` | src/lib/_internal/NPMHelper.ts:122-129 | a script runs only when the manifest has it as a string, as `bash -c` in the current directory; a run that passes ran exactly that command, and the run fails when the command does or when the manifest cannot be read |
| `NpmHelper.Npm.Run` | src/lib/_internal/NPMHelper.ts:122-129 | commands and outcome are those of `RunSpec` |
| `NpmHelper.SelectVersionMeaning` | src/lib/_internal/NPMHelper.ts:164-187 | a 404 gives `PACKAGE_NOT_RELEASED`; another non-200 status gives `NPM_ERROR`; a set tag gives its version; otherwise the result is a listed version, and no listed numeric version is newer |
| `NpmHelper.CollectVersionsMeaning` | src/lib/_internal/NPMHelper.ts:97-119 | the result has key `names[i]` exactly when task `i` succeeded, holding its version; not-released failures are skipped; the first other failure by index is the error |
| `NpmHelper.Npm.GetCurrentVersionSet` | src/lib/_internal/NPMHelper.ts:91-120 | the loop returns `CollectVersions` of the settled replies and runs no command |
| `NpmHelper.ParentPathMeaning` | src/lib/_internal/NPMHelper.ts:216 | an unscoped name has an empty parent path; a scoped name is its parent path, a `/` and its last segment |
| `NpmHelper.LinkIdempotent` | src/lib/_internal/NPMHelper.ts:212-229 | linking a second time finds the link, runs nothing and changes nothing |
| `NpmHelper.Npm.Link` | src/lib/_internal/NPMHelper.ts:212-229 | the node_modules and scope directories are made, then `ln -s` runs only when nothing exists at the link path; a failing `ln -s` fails the call and makes no link |
| `NpmHelper.UnlinkSpec` | src/lib/_internal/NPMHelper.ts:231-239 | an existing link is removed; a missing one is left alone |
| `NpmHelper.Npm.Unlink` | src/lib/_internal/NPMHelper.ts:231-239 | the disk and the outcome are those of `UnlinkSpec` |
| `Registry.LookupMeaning` | src/lib/Manager.ts:527-554 | lookup lowercases its input; a plain name is found exactly when registered; `@@x` goes through the alias table; an unknown name or alias is absent without `assert` and `PACKAGE_NOT_FOUND` with it. The only exception is the `"?"` fallback of the non-asserting alias miss |
| `Registry.CheckPackages` | src/lib/Manager.ts:598-606 | passes exactly when every name is found; otherwise `UNKNOWN_SUB_PACKAGE` lists exactly the names not found |
| `Registry.GetPackage` | src/lib/Manager.ts:507-525 | the asserting lookup's error passes through; otherwise the copy has the package's name, flags, alias, scripts and the same entries in each dependency record (`{}` for a missing one) |
| `Registry.ExtractDepsMeaning` | src/lib/Manager.ts:918-927 | with `productionOnly`, exactly the runtime names; otherwise the runtime and peer names and never a development-only name; no duplicates |
| `Registry.ExtractLocalDeps` | src/lib/Manager.ts:913-916 | the declared names that are registered packages |
| `Registry.ExternalEditMeaning` | src/lib/Manager.ts:641-660 | after one external turn the dependency is in no record if `isDev`, else only in the peer record if `isPeer`, else only in the runtime record, always as `-`; every other entry and field is kept |
| `Registry.ExternalPassPlaces` | src/lib/Manager.ts:637-662 | after the external branch, every remote dependency is placed that way in every target, and only dependency records changed |
| `Registry.LocalStepMeaning` | src/lib/Manager.ts:666-705 | a self-reference is skipped; `RECURSIVE_DEP` is raised exactly when a record of the dependency names the target or the dependency is on the path; unless `noSave`, the dependency ends up in exactly one record, chosen by precedence peer > dev > runtime, as `-` |
| `Registry.RecursiveMeaning` | src/lib/Manager.ts:677-685 | the recursion test holds exactly when one of the dependency's three records names the target, or the path holds the dependency |
| `Registry.LocalEditMeaning` | src/lib/Manager.ts:687-705 | the saved local edit puts the dependency in the one record `SavedInto` picks and keeps everything else |
| `Registry.LocalPassPlaces` | src/lib/Manager.ts:664-721 | after the local branch, each local dependency is recorded in every target other than itself, in the record `SavedInto` picks |
| `Registry.LocalPassQuiet` | src/lib/Manager.ts:687-705 | with `noSave`, the local branch records nothing |
| `Registry.QuietInstall` | src/lib/Manager.ts:712-717 | a nested or bootstrap install of registered packages without saving leaves the registry unchanged |
| `Registry.UnrecordMeaning` | src/lib/Manager.ts:745-747 | the three deletes leave the name in no record and keep everything else |
| `Registry.RemotePassClears` | src/lib/Manager.ts:739-754 | after the remote phase of `uninstall`, no target's records mention a removed dependency |
| `Registry.LocalRemovePassClears` | src/lib/Manager.ts:772-792 | after the local phase, no target's records mention a removed local package other than the target itself |
| `Registry.ReloadValid` | src/lib/Manager.ts:445-500 | a successful `reload` yields a consistent index: names listed once, lowercase keys, each key the stored package's name, and lowercase aliases that name registered packages |
| `Registry.AdmitRegisters` | src/lib/Manager.ts:466-485 | each admitted package is stored under its name; its lowercased alias leads to it; aliases taken earlier keep their owners |
| `Registry.ReloadRefusesSharedAlias` | src/lib/Manager.ts:472-482 | two directories declaring the same alias, up to case, make `reload` fail when the first of them has a non-empty name; when every directory loads and its alias is absent, falsy or a string, the failure is `DUP_PACKAGE_ALIAS` |
| `Registry.ReloadCountsBeforeAliasCheck` | src/lib/Manager.ts:466-482 | the counter is given a package's dependencies before its alias is checked, so a failing `reload` has already counted the failing package |
| `Manager.Manager.Reload` | src/lib/Manager.ts:445-500 | the counter becomes the fold of `add` over every package read; registry, names and aliases become the new index only on success and are unchanged on failure |
| `Manager.Manager.LoadPackages` | src/lib/Manager.ts:462-496 | the loop hands each package to the counter and stops at the first error, as `ReloadOver` says |
| `Manager.AddAllConsistent` | src/lib/Manager.ts:468 | counting every package read keeps the counter valid and keeps global equal to the sum of the packages |
| `Manager.CreatePackageMeaning` | src/lib/Manager.ts:556-596 | a registered lowercase name is `INVALID_PACKAGE`; a held alias is `DUP_PACKAGE_ALIAS` naming its holder; both leave the disk unchanged. On success only `_packages[name]` is added, under a name that was not registered; the alias table is untouched |
| `Manager.Manager.CreatePackage` | src/lib/Manager.ts:556-596 | disk, registry and outcome are those of `CreatePackageSpec` |
| `Manager.Manager.ExternalBranch` | src/lib/Manager.ts:637-662 | the registry ends as `ExternalPass` computes, or the loop fails with its error; the counter is not touched |
| `Manager.Manager.RecordLocal` | src/lib/Manager.ts:666-705 | the registry part of one local turn follows `LocalStep` |
| `Manager.Manager.LocalBranch` | src/lib/Manager.ts:664-721 | the registry ends as `LocalPass` computes whenever the loop passes, and the loop fails whenever `LocalPass` does |
| `Manager.Manager.Install` | src/lib/Manager.ts:608-735 | an unknown target fails with the registry, the disk, npm's directory and the commands run unchanged; otherwise the registry ends as `InstallEdits` computes whenever `install` passes. `fuel` bounds the nested installs. The counter is never touched |
| `Manager.Manager.SaveAll` | src/lib/Manager.ts:723-726 | the registry is unchanged; saving passes only when every target name was found |
| `Manager.Manager.BootstrapLocal` | src/lib/Manager.ts:903-911 | the nested installs run without saving, so the registry keeps its keys and, when the bootstrap passes, is unchanged |
| `Manager.RemoveEach` | src/lib/Manager.ts:741-753 | one round of the inner loop, which removes the whole list from every target's bucket, keeps the table valid (no zero counts, a global bucket) |
| `Manager.UninstallDropsSharedDependency` | src/lib/Manager.ts:737-767 | because each round removes the whole list, uninstalling `a` and `b` from `p` takes `a`'s global count to 0 although `q` still holds `a`; the table is no longer consistent |
| `Manager.UninstallRemote` | src/lib/Manager.ts:813-818 | the remote names `uninstall` handles are exactly the requested names no package answers to whose global flattened count is non-zero at entry |
| `Manager.UninstallLocal` | src/lib/Manager.ts:819 | the local names are the found packages' names whose global flattened count is non-zero |
| `Manager.TargetNames` | src/lib/Manager.ts:821 | each target name is replaced by its package's name; the first name that finds nothing throws `PACKAGE_NOT_FOUND` |
| `Manager.Unreferenced` | src/lib/Manager.ts:759-766 | the `npm un` list is exactly the names whose global flattened count is zero after the decrements |
| `Manager.Manager.UninstallRemoteDeps` | src/lib/Manager.ts:737-768 | a failing edit fails with its error and runs nothing; otherwise the registry ends as `RemotePass` says, the counter becomes `RemoteCounts` (each round removes the whole list), one `npm un` runs at the root for the unreferenced names, or none, and the call fails exactly when that command fails |
| `Manager.Manager.DropTarget` | src/lib/Manager.ts:774-801 | the target's records and counts are dropped; every name its flattened map reached before and not after is unlinked from the target's root |
| `Manager.UnlinkAllClears` | src/lib/Manager.ts:798-801 | when every unlink succeeds, none of the names is left linked and only links were removed |
| `Manager.RemoveTreesMeaning` | src/lib/Manager.ts:842-851 | removing each `node_modules` tree leaves exactly the paths outside all of them |
| `Manager.CleanTreesMeaning` | src/lib/Manager.ts:842-851 | the `rm -rf` loop passes exactly when none of its commands fails, and then leaves the disk `RemoveTrees` describes; a failure is the command's |
| `Manager.Manager.CleanNodeModules` | src/lib/Manager.ts:842-851 | disk and outcome are those of `CleanTrees` |
| `Manager.Manager.UninstallLocalDeps` | src/lib/Manager.ts:770-809 | the call fails whenever `LocalRemovePass` does, and when it passes the registry is what `LocalRemovePass` computes and the counter has removed each (target, dependency) pair of `LocalPairs` |
| `Manager.UninstallEditsClear` | src/lib/Manager.ts:811-840 | after `uninstall`'s edits, no target's records mention a removed remote dependency, or a removed local package other than itself; only dependency records changed |
| `Manager.Manager.Uninstall` | src/lib/Manager.ts:811-840 | an unknown target fails with the registry, the counter, the disk, npm's directory and the commands run unchanged; on success the counter is `UninstallCounts` and the registry is `UninstallPlan` |
| `Release.ReleaseConfig` | src/lib/Manager.ts:44-49 | a missing or falsy `releases[env]` is `RELEASE_CONFIG_NOT_FOUND`; otherwise it is the configuration |
| `Release.BaseVersion` | src/lib/Manager.ts:58-77 | `0.0.0` when no package has a published version; otherwise one of the published versions |
| `Release.BaseVersionIsNewest` | src/lib/Manager.ts:64-70 | when every published version is numeric, none is newer than the base version |
| `Release.ChooseVersion` | src/lib/Manager.ts:79-89 | a configured versioner's answer is used as given; otherwise the built-in namer's `next` of the base version |
| `Release.PublishArgs` | src/lib/Manager.ts:132-145 | `--dry-run` is present iff not confirmed; `--access=public` iff the package has no published version and is not `privateAccess` |
| `Release.PublishCommandsMeaning` | src/lib/Manager.ts:119-148 | every releasable package is published from its directory, and nothing else is |
| `Release.HookCommandsCover` | src/lib/Manager.ts:99-117 | a hook loop that passes has run the hook in every releasable package that defines it |
| `Release.DependencyVersion` | src/lib/Manager.ts:176-200 | a releasable local sibling resolves to `"^" + version`; a `noRelease` sibling is `PRIVATE_DEPENDENCY`; an external dependency takes the root's truthy runtime entry, or fails `DEP_NOT_LOCKED` |
| `Release.ResolveSucceeds` | src/lib/Manager.ts:230-238 | resolution passes exactly when every listed dependency has a release range |
| `Release.ResolveContents` | src/lib/Manager.ts:230-238 | a successful resolution maps every listed dependency to its release range and leaves other entries as they were |
| `Release.ResolveFails` | src/lib/Manager.ts:230-238 | a failed resolution reports the error of the first listed dependency without a range, and the record is left as the successful resolution of the dependencies before it: those rewritten, the rest as they were |
| `Release.SetupKeepsPartialRewrite` | src/lib/Manager.ts:219-253 | when a package's runtime record stops at a dependency without a range, the loop fails with that error, writes nothing, and the registry keeps the package stamped with the entries resolved so far |
| `Release.StripHooksMeaning` | src/lib/Manager.ts:8-15 | after stripping, no truthy script named `prepublish`, `prepare`, `prepublishOnly`, `prepack`, `postpack` or `publish` remains, and every other script is kept |
| `Release.StampAllMeaning` | src/lib/Manager.ts:207-217 | the first loop gives every releasable package the new version and leaves the others as they were |
| `Release.SetupPinsSiblings` | src/lib/Manager.ts:205-254 | at any point of the second loop, every releasable sibling resolves to `"^" + version`, because every version is set before any dependency is resolved |
| `Release.BackupName` | src/lib/Manager.ts:273 | the backup file name replaces every `/` of the package name with `-`, adds `.json`, and contains no `/` |
| `Release.BackupNamesCollide` | src/lib/Manager.ts:273 | `scope/name` and `scope-name` share one backup file |
| `Release.PublishingStopsAtFailure` | src/lib/Manager.ts:119-165 | once the pre-publish hooks pass, a failing `npm publish` ends the publishing: the publishes after it and every post-publish hook are not run, and its failure is the outcome |
| `Release.ReleaseRunsPublishing` | src/lib/Manager.ts:42-174 | after the backup and the rewrite, a release runs exactly the publishing's commands, fails when the publishing fails, and restores the manifests in every case |
| `Release.ReleasePublishesEveryPackage` | src/lib/Manager.ts:42-174 | a successful release leaves every releasable package at the new version, published once from its directory; a failed backup publishes nothing |
| `Manager.Manager.BackupManifests` | src/lib/Manager.ts:256-276 | disk and outcome are those of `Backup` |
| `Manager.Manager.StampVersions` | src/lib/Manager.ts:207-217 | the registry becomes `StampAll` of the old one |
| `Manager.Manager.PrepareManifests` | src/lib/Manager.ts:219-253 | the second loop follows `SetupRest`: each releasable manifest is stamped, resolved, stripped of hooks and written; a package whose rewrite fails stays in the registry as far as it was rewritten |
| `Manager.Manager.PublishAll` | src/lib/Manager.ts:119-148 | the publish loop runs the publish commands until one fails, as `RunAll` says |
| `Manager.Manager.PublishOne` | src/lib/Manager.ts:128-147 | appends one `npm publish` with `PublishArgs` in the package's root, and fails exactly when that command fails |
| `Manager.Manager.CleanBackup` | src/lib/Manager.ts:278-310 | disk and outcome are those of `Clean`: with a backup directory, each existing backup is copied back over its manifest and removed |
| `Manager.Manager.Release` | src/lib/Manager.ts:42-174 | a missing configuration or a fatal version lookup fails with nothing changed; otherwise disk, registry, commands and outcome are those of `ReleaseRun`, with the restore always run |

## Left out

- Command-line parsing, help text, console output and `process.exit` (`src/cli/`): not part of the core.
- `initialize`, `ensureRootPackagePath`, `run`, `clean`, `bootstrap`: shell, npm and file-system orchestration outside the modelled core. Their npm calls are not modelled. The model starts from a known root package and packages root.
- The user versioner loaded with `require`: foreign code. Its answer is the `custom` parameter of `Manager.Manager.Release`.
- `JSON.stringify`/`JSON.parse`: a written manifest is stored as a JSON value, not as text. Text that fails to parse is modelled as a separate file content.
- `multiTasks` (AsyncUtils.ts): the concurrency is not modelled. Its output is a sequence of per-index settled results. For an empty task list the source never resolves; the model returns an empty map.
- The HTTP client and `close()`: network I/O. The status code and the `dist-tags` entries are inputs.
- `exists`, `init`, `bootstrapCI`, `unpublish` and the output text of `run`/`publish`: npm calls not used by the modelled operations, or output printed only.
- Insertion order of JavaScript records: dependency records and counter buckets are visited in lexicographic key order. The registry's order is kept in `names`.
- Disk.ReadDir: directory entries are listed in lexicographic order, not in the order `readdir` gives. The registry order `names` follows it, and so do the default targets of `install`, the order in which `release` hooks and publishes, and which package `DUP_PACKAGE_ALIAS` names when two share an alias.
- NpmHelper.Npm.Link, NpmHelper.Npm.Unlink, PackageUtils.Utils.Scan: the model does not follow symbolic links, while `fs.stat` does. A dangling link therefore counts as existing: `link` then runs nothing and passes where the source's `ln -s` fails, and `unlink` removes it where the source keeps it. `_scan` descends into a link to a directory; the model skips it.
- Text.ToLower: only `A`-`Z` are folded. JavaScript's `toLowerCase` folds every Unicode letter, so a name such as `Ä1` is registered under a different key.
- Internal.BuiltInCmpSemVersion: `parseInt` yields a double in the source and an unbounded integer in the model. Segments beyond 2^53 that the source rounds to equal values, such as `9007199254740993` and `9007199254740992`, compare equal there and unequal here.
- `execAt` also fails with `E_INVALID_PATH` when its working directory does not exist. The model does not check the directory: a command fails only when it is in `Npm.failing`.
- Which commands fail is fixed for a whole run: the same command, in the same directory, fails every time or never.
- Manager.Manager.Install: the nested install (src/lib/Manager.ts:712-717) has no decreasing measure when local production dependencies form a cycle. The model bounds it with `fuel` and fails with `FuelExhausted` when fuel runs out, where the source would recurse without end.
- Manager.Manager.Install: its claims about the registry assume no registry key starts with `@@`. Such a key is looked up as an alias, and nested installs then edit it as an external dependency.
- Manager.Manager.LocalBranch: passing the loop implies the registry `LocalPass` computes, but a nested install or the file system may fail where `LocalPass` passes.
- Registry.LookupMeaning: a name that `Object.prototype` provides (`constructor`, `__proto__`) is stated as absent, while the source's `_packages[key]` and `_aliases[key]` find the inherited value; see the next line.
- Registry.Find, Registry.Lookup, Registry.Admit, DependencyCounter, Release.DependencyVersion: records are maps without inherited keys. In the source they are plain `{}` objects, and `constructor` and `__proto__` survive `toLowerCase` and find a truthy inherited value. So `install(["constructor"])` treats the name as local and throws a `TypeError` reading its records, where the model runs `npm install constructor` and records it in every target; `uninstall(["constructor"])` skips the name; `_getDependencyVersion("constructor")` gives `^undefined` where the model reads the root's entry; an alias `constructor` fails with `DUP_PACKAGE_ALIAS` at its first declaration; and the counter's `(bucket[d] ?? 0) + 1` concatenates onto the inherited function.
- Disk.Concat: paths are joined with `/`, not resolved as `path.resolve` does, so a segment holding `.`, `..` or a leading `/` names a different key than the source's path. A package name such as `../x` passes the unanchored name check; with packages under `/r/packages`, the source tests `/r/x` for `DUP_PACKAGE`, while the `DUP_PACKAGE` clause of `PackageUtils.CreateRefusals` and `PackageUtils.Utils.Create` tests the key `/r/packages/../x`. A template entry `./package.json` is looked up as `<tpl>/./package.json`, which the model does not find, so `create` fails with a file-not-found error where the source reads or copies the file. For names and entries made of plain segments the two agree.
- PackageUtils.GeneratedManifest, PackageUtils.GeneratedManifestFields: the claim holds for an object template only. For an array or string template the source's spread `{...template, name, …}` also keeps the index keys (`[1,2]` gives `"0"` and `"1"`, `"ab"` gives `"0": "a"` and `"1": "b"`); the model takes no fields from it.
- Manager.Manager.SaveAll: the disk after the saves is not stated, only that the registry is kept and that every target was found. Each single save is stated by `PackageUtils.Utils.Save`.
- Manager.Manager.BootstrapLocal, Manager.Manager.LocalBranch, Manager.Manager.UninstallLocalDeps, Manager.Manager.Uninstall: their registry claims also assume no registry key starts with `@@`, for the same reason as `install`.
- Manager.Manager.DropTarget: the unlinked names are stated as a set through a ghost out-parameter, so the order of the `unlink` calls is not stated.
- PackageUtils.Read: a manifest without a dependency record gives a package whose record is absent. The source leaves it `undefined`; later reads of its keys are modelled as `TypeError`.
- Restoring manifests after a failed publish: the restore loop is modelled (`Release.Clean`), but there is no proof that it restores every manifest. Backup names can collide (`Release.BackupNamesCollide`), so that only holds when they do not.
