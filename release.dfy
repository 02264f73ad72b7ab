/** The pure side of `release` (src/lib/Manager.ts): the release
    configuration of an environment, the version to release, the arguments
    of `npm publish`, the rewrite of every releasable manifest
    (`_setupDependencies`, `_getDependencyVersion`, stripping npm's own
    hook scripts) and the backup of the manifests around it. */
module Release {
  import opened Errors
  import opened Text
  import opened Json
  import opened Disk
  import opened PackageUtils
  import opened Registry
  import opened Internal
  import opened NpmHelper
  import VersionNamer

  /** npm's own lifecycle scripts, which a release must not trigger. */
  const NpmHooks: seq<string> := ["prepublish", "prepare", "prepublishOnly", "prepack", "postpack", "publish"]

  /** The version written when no package has been published yet. */
  const FirstVersion := "0.0.0"

  // ---------------------------------------------------------------------
  // Configuration and version

  /** `ottoiaOptions.releases[env]`, the options being the root manifest's
      `ottoia` field. Reading through an undefined or null value is a
      TypeError; a missing or falsy entry is `RELEASE_CONFIG_NOT_FOUND`. */
  function ReleaseConfig(root: Package, env: string): (r: Result<Json>)
    ensures r.Ok? ==> Truthy(r.value)
    ensures ("ottoia" in root.raw && Field(root.raw["ottoia"], "releases").Some? &&
             Field(root.raw["ottoia"], "releases").value.JObj?) ==>
              var releases := Field(root.raw["ottoia"], "releases").value.fields;
              (r.Ok? <==> env in releases && Truthy(releases[env])) &&
              (r.Ok? ==> r.value == releases[env]) &&
              (r.Err? ==> r.error == ReleaseConfigNotFound(env))
  {
    if "ottoia" !in root.raw || root.raw["ottoia"].JNull? then Err(TypeError("ottoiaOptions"))
    else
      var releases := Field(root.raw["ottoia"], "releases");
      if releases.None? || releases.value.JNull? then Err(TypeError("releases"))
      else
        var cfg := Field(releases.value, env);
        if cfg.None? || !Truthy(cfg.value) then Err(ReleaseConfigNotFound(env)) else Ok(cfg.value)
  }

  /** The dist-tag to read published versions under: the configured
      string, `latest` when none is configured. */
  function ReleaseTag(cfg: Json): string {
    match Field(cfg, "tag")
    case Some(JStr(t)) => t
    case _ => "latest"
  }

  /** A truthy `versioner` names a user module that picks the version. */
  predicate UsesCustomVersioner(cfg: Json) {
    Field(cfg, "versioner").Some? && Truthy(Field(cfg, "versioner").value)
  }

  /** `Object.values(pkgVersions)`: the versions in the order of the names
      they were recorded under. */
  function ValuesInOrder(names: seq<string>, versions: map<string, string>): (r: seq<string>)
    ensures |r| <= |names|
    ensures forall v :: v in r <==> exists n :: n in names && n in versions && versions[n] == v
  {
    if names == [] then []
    else
      var rest := ValuesInOrder(names[1..], versions);
      assert forall n :: n in names[1..] ==> n in names;
      assert forall n :: n in names ==> n == names[0] || n in names[1..];
      (if names[0] in versions then [versions[names[0]]] else []) + rest
  }

  /** The version the next one is computed from: the greatest published
      version under the comparator (the last of the greatest, in list
      order), or `0.0.0` when nothing was published. */
  function BaseVersion(names: seq<string>, versions: map<string, string>): (r: string)
    ensures (forall n :: n in names ==> n !in versions) ==> r == FirstVersion
    ensures (exists n :: n in names && n in versions) ==> exists n :: n in names && n in versions && versions[n] == r
  {
    var vs := ValuesInOrder(names, versions);
    if vs == [] then
      assert forall n :: n in names && n in versions ==> versions[n] in vs;
      FirstVersion
    else
      assert Greatest(vs) in vs;
      Greatest(vs)
  }

  /** When every published version is numeric, no published version is
      newer than the base version. */
  lemma BaseVersionIsNewest(names: seq<string>, versions: map<string, string>)
    requires exists n :: n in names && n in versions
    requires forall n :: n in names && n in versions ==> IsNumeric(versions[n])
    ensures forall n :: n in names && n in versions ==> !Older(BaseVersion(names, versions), versions[n])
  {
    var vs := ValuesInOrder(names, versions);
    var n0 :| n0 in names && n0 in versions;
    assert versions[n0] in vs;
    forall i | 0 <= i < |vs| ensures IsNumeric(vs[i]) {
      assert vs[i] in vs;
    }
    GreatestIsNewest(vs);
    forall n | n in names && n in versions ensures !Older(BaseVersion(names, versions), versions[n]) {
      assert versions[n] in vs;
    }
  }

  /** The version to release: the user versioner's answer (`custom`) when
      one is configured, the built-in namer's otherwise. */
  function ChooseVersion(cfg: Json, base: string, env: string, withBreakingChanges: bool, withNewFeatures: bool,
                         custom: string): (r: string)
    ensures UsesCustomVersioner(cfg) ==> r == custom
    ensures !UsesCustomVersioner(cfg) ==> r == VersionNamer.Next(base, env, withBreakingChanges, withNewFeatures)
  {
    if UsesCustomVersioner(cfg) then custom else VersionNamer.Next(base, env, withBreakingChanges, withNewFeatures)
  }

  // ---------------------------------------------------------------------
  // npm publish

  /** `pkgVersions[pkgName]` is truthy. */
  predicate Published(versions: map<string, string>, key: string) {
    key in versions && versions[key] != ""
  }

  /** The extra arguments of `npm publish`. */
  function PublishArgs(confirmed: bool, published: bool, privateAccess: bool): (r: seq<string>)
    ensures ("--dry-run" in r <==> !confirmed) && ("--access=public" in r <==> !published && !privateAccess)
    ensures |r| <= 2 && forall a :: a in r ==> a == "--dry-run" || a == "--access=public"
    ensures |r| == 2 ==> r == ["--dry-run", "--access=public"]
  {
    (if !confirmed then ["--dry-run"] else []) + (if !published && !privateAccess then ["--access=public"] else [])
  }

  /** The `npm publish` of one package, run in its directory. */
  function PublishCommand(pkg: Package, key: string, versions: map<string, string>, confirmed: bool): Command {
    Command(pkg.root, ["npm", "publish"] + PublishArgs(confirmed, Published(versions, key), pkg.privateAccess))
  }

  /** One `npm publish` in the directory of every releasable package, in
      registry order. */
  function PublishCommands(ps: Packages, keys: seq<string>, versions: map<string, string>, confirmed: bool): (r: seq<Command>)
    requires forall k :: k in keys ==> k in ps
    ensures |r| <= |keys|
    decreases |keys|
  {
    if keys == [] then []
    else
      (if ps[keys[0]].noRelease then [] else [PublishCommand(ps[keys[0]], keys[0], versions, confirmed)]) +
      PublishCommands(ps, keys[1..], versions, confirmed)
  }

  lemma PublishCommandsStep(ps: Packages, keys: seq<string>, versions: map<string, string>, confirmed: bool, i: nat)
    requires forall k :: k in keys ==> k in ps
    requires i < |keys|
    ensures PublishCommands(ps, keys[i..], versions, confirmed) ==
              (if ps[keys[i]].noRelease then [] else [PublishCommand(ps[keys[i]], keys[i], versions, confirmed)]) +
              PublishCommands(ps, keys[i + 1..], versions, confirmed)
  {
    assert keys[i..][1..] == keys[i + 1..];
  }

  /** Every releasable package is published, and nothing else is. */
  lemma {:induction false} PublishCommandsMeaning(ps: Packages, keys: seq<string>, versions: map<string, string>, confirmed: bool)
    requires forall k :: k in keys ==> k in ps
    ensures var r := PublishCommands(ps, keys, versions, confirmed);
            (forall k :: k in keys && !ps[k].noRelease ==> PublishCommand(ps[k], k, versions, confirmed) in r) &&
            (forall c :: c in r ==> exists k :: k in keys && !ps[k].noRelease && c == PublishCommand(ps[k], k, versions, confirmed))
    decreases |keys|
  {
    if keys != [] {
      var k0 := keys[0];
      var head := if ps[k0].noRelease then [] else [PublishCommand(ps[k0], k0, versions, confirmed)];
      var rest := PublishCommands(ps, keys[1..], versions, confirmed);
      var r := PublishCommands(ps, keys, versions, confirmed);
      assert r == head + rest;
      PublishCommandsMeaning(ps, keys[1..], versions, confirmed);
      forall k | k in keys && !ps[k].noRelease ensures PublishCommand(ps[k], k, versions, confirmed) in r {
        if k != k0 {
          assert k in keys[1..];
        }
      }
      forall c | c in r ensures exists k :: k in keys && !ps[k].noRelease && c == PublishCommand(ps[k], k, versions, confirmed) {
        if c !in head {
          assert c in rest;
          assert exists k :: k in keys[1..] && !ps[k].noRelease && c == PublishCommand(ps[k], k, versions, confirmed);
          var k :| k in keys[1..] && !ps[k].noRelease && c == PublishCommand(ps[k], k, versions, confirmed);
          assert k in keys;
        }
      }
    }
  }

  /** A package whose `hook` script a hook loop runs. */
  predicate RunsHook(pkg: Package, hook: string) {
    !pkg.noRelease && hook in pkg.scripts && pkg.scripts[hook] != ""
  }

  /** The `ottoia:` hook of every releasable package that defines it
      (truthily), run in the package's directory, in registry order; the
      first failure stops the loop. */
  function HookCommands(d: Disk, failing: set<Command>, ps: Packages, keys: seq<string>, hook: string): (r: (seq<Command>, Outcome))
    requires forall k :: k in keys ==> k in ps
    decreases |keys|
  {
    if keys == [] then ([], Pass)
    else
      var pkg := ps[keys[0]];
      if pkg.noRelease || !(hook in pkg.scripts && pkg.scripts[hook] != "") then HookCommands(d, failing, ps, keys[1..], hook)
      else
        var (now, o) := RunSpec(d, failing, pkg.root, hook);
        if o.Fail? then (now, o)
        else
          var (more, o') := HookCommands(d, failing, ps, keys[1..], hook);
          (now + more, o')
  }

  /** A hook loop that passes has run a `bash -c` command in the directory
      of every releasable package defining the hook. */
  lemma {:induction false} HookCommandsCover(d: Disk, failing: set<Command>, ps: Packages, keys: seq<string>, hook: string)
    requires forall k :: k in keys ==> k in ps
    ensures var r := HookCommands(d, failing, ps, keys, hook);
            r.1.Pass? ==> forall k :: k in keys && RunsHook(ps[k], hook) ==>
              exists c :: c in r.0 && c.cwd == ps[k].root && |c.argv| == 3 && c.argv[0] == "bash" && c.argv[1] == "-c"
    decreases |keys|
  {
    if keys != [] {
      var pkg := ps[keys[0]];
      HookCommandsCover(d, failing, ps, keys[1..], hook);
      assert forall x :: x in keys ==> x == keys[0] || x in keys[1..];
      if RunsHook(pkg, hook) {
        var (now, o) := RunSpec(d, failing, pkg.root, hook);
        if o.Pass? {
          var (more, o') := HookCommands(d, failing, ps, keys[1..], hook);
          assert now[0] in now + more;
        }
      }
    }
  }

  /** Every command a hook loop runs is in the directory of a releasable
      package of the loop. */
  lemma {:induction false} HookCommandsPlaces(d: Disk, failing: set<Command>, ps: Packages, keys: seq<string>, hook: string)
    requires forall k :: k in keys ==> k in ps
    ensures forall c :: c in HookCommands(d, failing, ps, keys, hook).0 ==> exists k :: k in keys && !ps[k].noRelease && c.cwd == ps[k].root
    decreases |keys|
  {
    if keys != [] {
      var pkg := ps[keys[0]];
      HookCommandsPlaces(d, failing, ps, keys[1..], hook);
      assert forall x :: x in keys[1..] ==> x in keys;
      if RunsHook(pkg, hook) {
        var (now, o) := RunSpec(d, failing, pkg.root, hook);
        assert forall c :: c in now ==> c.cwd == pkg.root;
      }
    }
  }

  lemma HookCommandsStep(d: Disk, failing: set<Command>, ps: Packages, keys: seq<string>, hook: string, i: nat)
    requires forall k :: k in keys ==> k in ps
    requires i < |keys|
    ensures var tail := HookCommands(d, failing, ps, keys[i..], hook);
            var next := HookCommands(d, failing, ps, keys[i + 1..], hook);
            var run := RunSpec(d, failing, ps[keys[i]].root, hook);
            (!RunsHook(ps[keys[i]], hook) ==> tail == next) &&
            (RunsHook(ps[keys[i]], hook) && run.1.Fail? ==> tail == run) &&
            (RunsHook(ps[keys[i]], hook) && run.1.Pass? ==> tail == (run.0 + next.0, next.1))
  {
    assert keys[i..][1..] == keys[i + 1..];
  }

  // ---------------------------------------------------------------------
  // _getDependencyVersion

  /** The version range a releasable package is published with for one of
      its dependencies: a sibling is pinned to `^` and its version (`^undefined`
      without one) unless it is never released, in which case the release
      is refused; any other dependency takes the root manifest's entry,
      which must be there and non-empty. */
  function DependencyVersion(ps: Packages, root: Package, depName: string, pkgName: string): (r: Result<string>)
    ensures depName in ps && ps[depName].noRelease ==> r == Err(PrivateDependency(pkgName, depName))
    ensures depName in ps && !ps[depName].noRelease ==>
              r == Ok("^" + if ps[depName].version.Some? then ps[depName].version.value else "undefined")
    ensures depName !in ps && Deps(root, Runtime).Some? ==>
              var locked := Deps(root, Runtime).value;
              (r.Ok? <==> depName in locked && locked[depName] != "") &&
              (r.Ok? ==> r.value == locked[depName]) &&
              (r.Err? ==> r.error == DepNotLocked(pkgName, depName))
    ensures depName !in ps && Deps(root, Runtime).None? ==> r.Err? && r.error.TypeError?
  {
    if depName in ps then
      var local := ps[depName];
      if local.noRelease then Err(PrivateDependency(pkgName, depName))
      else Ok("^" + if local.version.Some? then local.version.value else "undefined")
    else
      match Deps(root, Runtime)
      case None => Err(TypeError("dependencies"))
      case Some(locked) =>
        if depName in locked && locked[depName] != "" then Ok(locked[depName])
        else Err(DepNotLocked(pkgName, depName))
  }

  /** Two registries that agree on names, versions and `noRelease`. */
  predicate SameHeads(ps: Packages, qs: Packages) {
    ps.Keys == qs.Keys &&
    forall k :: k in ps ==> ps[k].version == qs[k].version && ps[k].noRelease == qs[k].noRelease
  }

  lemma SameHeadsVersion(ps: Packages, qs: Packages, root: Package, depName: string, pkgName: string)
    requires SameHeads(ps, qs)
    ensures DependencyVersion(ps, root, depName, pkgName) == DependencyVersion(qs, root, depName, pkgName)
  {
  }

  /** Every entry of a record, in key order, replaced by its release range.
      The record is rewritten in place, so when a dependency has no range
      the entries before it stay rewritten: the result is the record as
      far as it got, and the outcome. */
  function Resolve(ps: Packages, root: Package, pkgName: string, keys: seq<string>, m: map<string, string>)
    : (r: (map<string, string>, Outcome))
    decreases |keys|
  {
    if keys == [] then (m, Pass)
    else
      match DependencyVersion(ps, root, keys[0], pkgName)
      case Err(e) => (m, Fail(e))
      case Ok(v) => Resolve(ps, root, pkgName, keys[1..], m[keys[0] := v])
  }

  /** Resolving succeeds exactly when every listed dependency has a
      release range. */
  lemma {:induction false} ResolveSucceeds(ps: Packages, root: Package, pkgName: string, keys: seq<string>, m: map<string, string>)
    ensures Resolve(ps, root, pkgName, keys, m).1.Pass? <==> forall k :: k in keys ==> DependencyVersion(ps, root, k, pkgName).Ok?
    decreases |keys|
  {
    if keys != [] {
      var v := DependencyVersion(ps, root, keys[0], pkgName);
      assert forall k :: k in keys ==> k == keys[0] || k in keys[1..];
      if v.Ok? {
        ResolveSucceeds(ps, root, pkgName, keys[1..], m[keys[0] := v.value]);
      }
    }
  }

  /** A successful resolution maps every listed dependency to its release
      range and leaves the other entries as they were. */
  lemma {:induction false} ResolveContents(ps: Packages, root: Package, pkgName: string, keys: seq<string>, m: map<string, string>)
    ensures var r := Resolve(ps, root, pkgName, keys, m);
            r.1.Pass? ==> r.0.Keys == m.Keys + (set k | k in keys) &&
                          (forall k :: k in keys ==> DependencyVersion(ps, root, k, pkgName) == Ok(r.0[k])) &&
                          (forall k :: k in m && k !in keys ==> r.0[k] == m[k])
    decreases |keys|
  {
    if keys != [] {
      var v := DependencyVersion(ps, root, keys[0], pkgName);
      if v.Ok? {
        ResolveContents(ps, root, pkgName, keys[1..], m[keys[0] := v.value]);
        var r := Resolve(ps, root, pkgName, keys, m);
        if r.1.Pass? {
          assert forall k :: k in keys ==> k == keys[0] || k in keys[1..];
          assert (set k | k in keys) == {keys[0]} + (set k | k in keys[1..]);
        }
      }
    }
  }

  /** A failed resolution reports the error of the first listed
      dependency without a range, and leaves the record exactly as a
      successful resolution of the dependencies before it would: those
      are rewritten (`ResolveContents`), the rest is as it was. */
  lemma {:induction false} ResolveFails(ps: Packages, root: Package, pkgName: string, keys: seq<string>, m: map<string, string>)
    ensures var r := Resolve(ps, root, pkgName, keys, m);
            r.1.Fail? ==>
              exists i :: 0 <= i < |keys| && DependencyVersion(ps, root, keys[i], pkgName) == Err(r.1.error) &&
                          Resolve(ps, root, pkgName, keys[..i], m) == (r.0, Pass)
    decreases |keys|
  {
    var r := Resolve(ps, root, pkgName, keys, m);
    if keys != [] && r.1.Fail? {
      var v := DependencyVersion(ps, root, keys[0], pkgName);
      if v.Err? {
        assert keys[..0] == [];
      } else {
        var tail := keys[1..];
        ResolveFails(ps, root, pkgName, tail, m[keys[0] := v.value]);
        var i :| 0 <= i < |tail| && DependencyVersion(ps, root, tail[i], pkgName) == Err(r.1.error) &&
                 Resolve(ps, root, pkgName, tail[..i], m[keys[0] := v.value]) == (r.0, Pass);
        assert keys[..i + 1][0] == keys[0] && keys[..i + 1][1..] == tail[..i];
        assert tail[i] == keys[i + 1];
      }
    }
  }

  /** One dependency record of a package rewritten to release ranges, as
      far as the resolution got; an undefined record is left alone (a
      `for … in` over `undefined` does nothing). */
  function ResolveRecord(ps: Packages, root: Package, key: string, pkg: Package, k: DepKind): (r: (Package, Outcome))
    ensures Deps(pkg, k).None? ==> r == (pkg, Pass)
    ensures Deps(pkg, k).Some? ==>
              var m := Deps(pkg, k).value;
              var resolved := Resolve(ps, root, key, SortedKeys(m), m);
              r == (WithDeps(pkg, k, resolved.0), resolved.1)
    ensures r.0 == pkg.(raw := r.0.raw)
  {
    match Deps(pkg, k)
    case None => (pkg, Pass)
    case Some(m) =>
      var (m', o) := Resolve(ps, root, key, SortedKeys(m), m);
      (WithDeps(pkg, k, m'), o)
  }

  /** A script npm would run on publish, defined with a truthy value. */
  predicate IsLiveHook(name: string, value: Json) {
    name in NpmHooks && Truthy(value)
  }

  /** A manifest's `scripts` object without its live npm hooks. */
  function WithoutHooks(s: map<string, Json>): (r: map<string, Json>)
    ensures forall k :: (k in r <==> k in s && !IsLiveHook(k, s[k])) && (k in r ==> r[k] == s[k])
  {
    map k | k in s && !IsLiveHook(k, s[k]) :: s[k]
  }

  /** The same deletions seen through the package's string-valued view of
      `scripts`. */
  function ScriptsWithoutHooks(s: map<string, string>): (r: map<string, string>)
    ensures forall k :: (k in r <==> k in s && !IsLiveHook(k, JStr(s[k]))) && (k in r ==> r[k] == s[k])
  {
    map k | k in s && !IsLiveHook(k, JStr(s[k])) :: s[k]
  }

  /** `delete pkg.raw.scripts[hook]` for each defined npm hook. The
      package's `scripts` is the manifest's own object when the manifest
      has one, so it loses the same entries. */
  function StripHooks(pkg: Package): (r: Package)
    ensures r == pkg.(raw := r.raw, scripts := r.scripts)
    ensures r.raw.Keys == pkg.raw.Keys && forall f :: f in pkg.raw && f != "scripts" ==> r.raw[f] == pkg.raw[f]
    ensures "scripts" in pkg.raw && pkg.raw["scripts"].JObj? ==> r.raw["scripts"] == JObj(WithoutHooks(pkg.raw["scripts"].fields))
    ensures "scripts" in pkg.raw ==> r.scripts == ScriptsWithoutHooks(pkg.scripts)
    ensures "scripts" !in pkg.raw ==> r.raw == pkg.raw && r.scripts == pkg.scripts
  {
    var raw := if "scripts" in pkg.raw && pkg.raw["scripts"].JObj? then
                 pkg.raw["scripts" := JObj(WithoutHooks(pkg.raw["scripts"].fields))]
               else pkg.raw;
    var scripts := if "scripts" in pkg.raw then ScriptsWithoutHooks(pkg.scripts) else pkg.scripts;
    pkg.(raw := raw, scripts := scripts)
  }

  /** Nothing an npm hook could run is left in a stripped manifest, and
      every other script is kept. */
  lemma StripHooksMeaning(pkg: Package, s: string)
    requires "scripts" in pkg.raw && pkg.raw["scripts"].JObj?
    ensures var before, after := pkg.raw["scripts"].fields, StripHooks(pkg).raw["scripts"].fields;
            (s in after <==> s in before && !(s in NpmHooks && Truthy(before[s]))) &&
            (s in after ==> after[s] == before[s])
  {
  }

  /** `pkg.raw.version = pkg.version = version`. */
  function Stamp(pkg: Package, version: string): (r: Package)
    ensures r.version == Some(version) && r.raw == pkg.raw["version" := JStr(version)]
    ensures r == pkg.(version := r.version, raw := r.raw)
  {
    pkg.(version := Some(version), raw := pkg.raw["version" := JStr(version)])
  }

  /** The first loop of `_setupDependencies`: every releasable package
      takes the new version. */
  function StampAll(ps: Packages, keys: seq<string>, version: string): (r: Packages)
    ensures r.Keys == ps.Keys
    decreases |keys|
  {
    if keys == [] then ps
    else
      var k := keys[0];
      var next := if k in ps && !ps[k].noRelease then ps[k := Stamp(ps[k], version)] else ps;
      StampAll(next, keys[1..], version)
  }

  /** Every listed releasable package takes the version; every other
      package is left as it was. */
  lemma {:induction false} StampAllMeaning(ps: Packages, keys: seq<string>, version: string)
    ensures var r := StampAll(ps, keys, version);
            forall k :: k in ps ==> r[k] == if k in keys && !ps[k].noRelease then Stamp(ps[k], version) else ps[k]
    decreases |keys|
  {
    if keys != [] {
      var k := keys[0];
      var next := if k in ps && !ps[k].noRelease then ps[k := Stamp(ps[k], version)] else ps;
      StampAllMeaning(next, keys[1..], version);
      assert forall x :: x in keys ==> x == k || x in keys[1..];
    }
  }

  /** The manifest rewrite of one releasable package: stamped again, its
      runtime and then its peer record resolved, npm's hooks removed. On a
      failure the package is returned as far as the rewrite got. */
  function Prepare(ps: Packages, root: Package, key: string, version: string): (r: (Package, Outcome))
    requires key in ps
    ensures r.0.version == Some(version) && r.0.root == ps[key].root && r.0.name == ps[key].name &&
            r.0.noRelease == ps[key].noRelease
  {
    var pkg := Stamp(ps[key], version);
    var (p1, o1) := ResolveRecord(ps, root, key, pkg, Runtime);
    if o1.Fail? then (p1, o1)
    else
      var (p2, o2) := ResolveRecord(ps, root, key, p1, Peer);
      if o2.Fail? then (p2, o2)
      else (StripHooks(p2), Pass)
  }

  /** The second loop of `_setupDependencies` over the remaining keys: each
      releasable package is prepared and its manifest written back. The
      registry holds the packages themselves, so a package whose rewrite
      fails half-way keeps the entries rewritten so far. */
  function SetupRest(d: Disk, ps: Packages, root: Package, keys: seq<string>, version: string): (r: (Disk, Packages, Outcome))
    requires forall k :: k in keys ==> k in ps
    ensures r.1.Keys == ps.Keys
    decreases |keys|
  {
    if keys == [] then (d, ps, Pass)
    else
      var key := keys[0];
      if ps[key].noRelease then SetupRest(d, ps, root, keys[1..], version)
      else
        var (p, o) := Prepare(ps, root, key, version);
        var ps' := ps[key := p];
        if o.Fail? then (d, ps', o)
        else
          match WriteAt(d, Concat(p.root, ManifestName), JsonText(JObj(p.raw)))
          case Err(e) => (d, ps', Fail(e))
          case Ok(d') => SetupRest(d', ps', root, keys[1..], version)
  }

  /** A rewrite that stops at a dependency without a range keeps, in the
      registry, every dependency of the failing package's record resolved
      before it. */
  lemma SetupKeepsPartialRewrite(d: Disk, ps: Packages, root: Package, keys: seq<string>, version: string)
    requires keys != [] && keys[0] in ps && !ps[keys[0]].noRelease && forall k :: k in keys ==> k in ps
    requires Deps(ps[keys[0]], Runtime).Some?
    ensures var key := keys[0];
            var m := Deps(ps[key], Runtime).value;
            var resolved := Resolve(ps, root, key, SortedKeys(m), m);
            var r := SetupRest(d, ps, root, keys, version);
            resolved.1.Fail? ==>
              r.2 == resolved.1 && r.0 == d && Deps(r.1[key], Runtime) == Some(resolved.0) &&
              r.1[key].version == Some(version)
  {
    var key := keys[0];
    var m := Deps(ps[key], Runtime).value;
    var pkg := Stamp(ps[key], version);
    assert Deps(pkg, Runtime) == Deps(ps[key], Runtime);
    var resolved := Resolve(ps, root, key, SortedKeys(m), m);
    WithDepsMeaning(pkg, Runtime, resolved.0);
  }

  /** `_setupDependencies(version)`. */
  function Setup(d: Disk, ps: Packages, root: Package, keys: seq<string>, version: string): (r: (Disk, Packages, Outcome))
    requires forall k :: k in keys ==> k in ps
    ensures r.1.Keys == ps.Keys
  {
    SetupRest(d, StampAll(ps, keys, version), root, keys, version)
  }

  /** A releasable sibling read through the registry after the first loop
      of `_setupDependencies` is pinned to the new version. */
  lemma SiblingResolves(ps: Packages, keys: seq<string>, root: Package, version: string, sibling: string, pkgName: string)
    requires sibling in keys && sibling in ps && !ps[sibling].noRelease
    ensures DependencyVersion(StampAll(ps, keys, version), root, sibling, pkgName) == Ok("^" + version)
  {
    StampAllMeaning(ps, keys, version);
  }

  /** Every releasable package of the registry carries `version`. */
  predicate Stamped(ps: Packages, keys: seq<string>, version: string)
    requires forall k :: k in keys ==> k in ps
  {
    forall k :: k in keys && !ps[k].noRelease ==> ps[k].version == Some(version)
  }

  /** The second loop keeps every name, version and `noRelease` of the
      stamped registry, so every sibling it resolves, before or after the
      sibling's own turn, resolves to `^` and the new version. */
  lemma {:induction false} SetupKeepsHeads(d: Disk, ps: Packages, root: Package, keys: seq<string>, rest: seq<string>, version: string)
    requires forall k :: k in keys ==> k in ps
    requires forall k :: k in rest ==> k in keys
    requires Stamped(ps, keys, version)
    ensures SameHeads(ps, SetupRest(d, ps, root, rest, version).1)
    decreases |rest|
  {
    if rest != [] {
      var key := rest[0];
      assert forall k :: k in rest[1..] ==> k in rest;
      if !ps[key].noRelease {
        var (p, o) := Prepare(ps, root, key, version);
        var ps' := ps[key := p];
        assert SameHeads(ps, ps');
        assert Stamped(ps', keys, version);
        if o.Pass? {
          match WriteAt(d, Concat(p.root, ManifestName), JsonText(JObj(p.raw)))
          case Err(_) =>
          case Ok(d') =>
            SetupKeepsHeads(d', ps', root, keys, rest[1..], version);
        }
      } else {
        SetupKeepsHeads(d, ps, root, keys, rest[1..], version);
      }
    }
  }

  /** `_setupDependencies` resolves every releasable sibling, at any point
      of its second loop, to `^` and the new version. */
  lemma SetupPinsSiblings(d: Disk, ps: Packages, root: Package, keys: seq<string>, version: string, sibling: string, pkgName: string)
    requires forall k :: k in keys ==> k in ps
    requires sibling in keys && !ps[sibling].noRelease
    ensures var stamped := StampAll(ps, keys, version);
            var after := Setup(d, ps, root, keys, version).1;
            DependencyVersion(stamped, root, sibling, pkgName) == Ok("^" + version) &&
            DependencyVersion(after, root, sibling, pkgName) == Ok("^" + version)
  {
    var stamped := StampAll(ps, keys, version);
    StampAllMeaning(ps, keys, version);
    SiblingResolves(ps, keys, root, version, sibling, pkgName);
    SetupKeepsHeads(d, stamped, root, keys, keys, version);
    SameHeadsVersion(stamped, Setup(d, ps, root, keys, version).1, root, sibling, pkgName);
  }

  // ---------------------------------------------------------------------
  // Backup of the manifests

  /** Where the manifests are kept while a release rewrites them. */
  function BackupDir(root: string): string {
    Concat(root, ".ottoia/tmp/packages.d")
  }

  /** The backup file name of a package: every `/` of its name becomes `-`. */
  function BackupName(name: string): (r: string)
    ensures '/' !in r
    ensures r == ReplaceChar(name, '/', '-') + ".json"
  {
    var base := ReplaceChar(name, '/', '-');
    assert forall i :: 0 <= i < |base| ==> base[i] != '/';
    base + ".json"
  }

  /** A scoped name `scope/name` and the unscoped name `scope-name` share
      one backup file. */
  lemma BackupNamesCollide(scope: string, name: string)
    ensures BackupName(scope + "/" + name) == BackupName(scope + "-" + name)
  {
    var s := scope + "/" + name;
    var t := scope + "-" + name;
    var a := ReplaceChar(s, '/', '-');
    var b := ReplaceChar(t, '/', '-');
    forall i | 0 <= i < |a| ensures a[i] == b[i] {
      if i < |scope| {
        assert s[i] == t[i];
      } else if i > |scope| {
        assert s[i] == name[i - |scope| - 1] == t[i];
      }
    }
    assert a == b;
  }

  /** The backup file of a package. */
  function BackupPath(root: string, pkg: Package): string {
    Concat(BackupDir(root), BackupName(pkg.name))
  }

  function ManifestOf(pkg: Package): string {
    Concat(pkg.root, ManifestName)
  }

  /** The copy loop of `_backupPackageJson`. */
  function BackupFiles(d: Disk, root: string, ps: Packages, keys: seq<string>): (r: (Disk, Outcome))
    requires forall k :: k in keys ==> k in ps
    decreases |keys|
  {
    if keys == [] then (d, Pass)
    else
      var pkg := ps[keys[0]];
      if pkg.noRelease then BackupFiles(d, root, ps, keys[1..])
      else
        match CopyAt(d, ManifestOf(pkg), BackupPath(root, pkg))
        case Err(e) => (d, Fail(e))
        case Ok(d') => BackupFiles(d', root, ps, keys[1..])
  }

  /** `_backupPackageJson()`: the backup directory is created, then every
      releasable manifest is copied into it. */
  function Backup(d: Disk, root: string, ps: Packages, keys: seq<string>): (r: (Disk, Outcome))
    requires forall k :: k in keys ==> k in ps
  {
    match Mkdirs(d, BackupDir(root))
    case Err(e) => (d, Fail(e))
    case Ok(d') => BackupFiles(d', root, ps, keys)
  }

  /** The restore loop of `_cleanPackageJsonBackup`: a releasable package
      whose backup file exists gets it back as its manifest, and the
      backup file is removed. */
  function RestoreFiles(d: Disk, root: string, ps: Packages, keys: seq<string>): (r: (Disk, Outcome))
    requires forall k :: k in keys ==> k in ps
    decreases |keys|
  {
    if keys == [] then (d, Pass)
    else
      var pkg := ps[keys[0]];
      if pkg.noRelease || !IsFile(d, BackupPath(root, pkg)) then RestoreFiles(d, root, ps, keys[1..])
      else
        match CopyAt(d, BackupPath(root, pkg), ManifestOf(pkg))
        case Err(e) => (d, Fail(e))
        case Ok(d1) =>
          match RemoveAt(d1, BackupPath(root, pkg))
          case Err(e) => (d1, Fail(e))
          case Ok(d2) => RestoreFiles(d2, root, ps, keys[1..])
  }

  /** `_cleanPackageJsonBackup()`: nothing without a backup directory. */
  function Clean(d: Disk, root: string, ps: Packages, keys: seq<string>): (r: (Disk, Outcome))
    requires forall k :: k in keys ==> k in ps
    ensures !IsDir(d, BackupDir(root)) ==> r == (d, Pass)
  {
    if !IsDir(d, BackupDir(root)) then (d, Pass) else RestoreFiles(d, root, ps, keys)
  }

  // ---------------------------------------------------------------------
  // release

  /** The version `release` publishes: the versioner's answer for the
      newest published version, or for `0.0.0`. */
  function ReleaseVersion(cfg: Json, names: seq<string>, versions: map<string, string>, env: string,
                          withBreakingChanges: bool, withNewFeatures: bool, custom: string): string
  {
    ChooseVersion(cfg, BaseVersion(names, versions), env, withBreakingChanges, withNewFeatures, custom)
  }

  /** The hooks and publishing of `release`, on the rewritten manifests:
      the `ottoia:prepublish` hooks, then `npm publish`, then the
      `ottoia:postpublish` hooks. */
  function Publishing(d: Disk, failing: set<Command>, ps: Packages, keys: seq<string>, versions: map<string, string>, confirmed: bool): (r: (seq<Command>, Outcome))
    requires forall k :: k in keys ==> k in ps
  {
    var (pre, o3) := HookCommands(d, failing, ps, keys, "ottoia:prepublish");
    if o3.Fail? then (pre, o3)
    else
      var (pub, o) := RunAll(failing, PublishCommands(ps, keys, versions, confirmed));
      if o.Fail? then (pre + pub, o)
      else
        var (post, o4) := HookCommands(d, failing, ps, keys, "ottoia:postpublish");
        (pre + pub + post, o4)
  }

  /** A failing `npm publish` ends the publishing: the packages after it
      are not published, no `ottoia:postpublish` hook runs, and the
      failure is the outcome. */
  lemma PublishingStopsAtFailure(d: Disk, failing: set<Command>, ps: Packages, keys: seq<string>,
                                 versions: map<string, string>, confirmed: bool)
    requires forall k :: k in keys ==> k in ps
    ensures var pre := HookCommands(d, failing, ps, keys, "ottoia:prepublish");
            var planned := PublishCommands(ps, keys, versions, confirmed);
            var (cmds, o) := Publishing(d, failing, ps, keys, versions, confirmed);
            pre.1.Pass? && (exists c :: c in planned && c in failing) ==>
              exists i :: 0 <= i < |planned| && planned[i] in failing && (forall j :: 0 <= j < i ==> planned[j] !in failing) &&
                          cmds == pre.0 + planned[..i + 1] && o == Exec(failing, planned[i])
  {
    RunAllMeaning(failing, PublishCommands(ps, keys, versions, confirmed));
  }

  /** The `try` block of `release` once the manifests are backed up. */
  function SetupAndPublish(d: Disk, failing: set<Command>, ps: Packages, rootPkg: Package, keys: seq<string>, version: string,
                           versions: map<string, string>, confirmed: bool): (r: (Disk, Packages, seq<Command>, Outcome))
    requires forall k :: k in keys ==> k in ps
    ensures r.1.Keys == ps.Keys
  {
    var (d2, ps2, o2) := Setup(d, ps, rootPkg, keys, version);
    if o2.Fail? then (d2, ps2, [], o2)
    else
      var (cmds, o) := Publishing(d2, failing, ps2, keys, versions, confirmed);
      (d2, ps2, cmds, o)
  }

  /** The `try` block of `release` once the version is known: back the
      manifests up, rewrite them, run the hooks and publish. The result is
      the disk, the registry, the commands run and the outcome. */
  function TryRelease(d: Disk, failing: set<Command>, ps: Packages, rootPkg: Package, root: string, keys: seq<string>, version: string,
                      versions: map<string, string>, confirmed: bool): (r: (Disk, Packages, seq<Command>, Outcome))
    requires forall k :: k in keys ==> k in ps
    ensures r.1.Keys == ps.Keys
  {
    var backup := Backup(d, root, ps, keys);
    if backup.1.Fail? then (backup.0, ps, [], backup.1)
    else SetupAndPublish(backup.0, failing, ps, rootPkg, keys, version, versions, confirmed)
  }

  /** `release` once the version is known: the `try` block, then, in every
      case, the backup is restored, and a failure to restore takes the
      place of the block's outcome. */
  function ReleaseRun(d: Disk, failing: set<Command>, ps: Packages, rootPkg: Package, root: string, keys: seq<string>, version: string,
                      versions: map<string, string>, confirmed: bool): (r: (Disk, Packages, seq<Command>, Outcome))
    requires forall k :: k in keys ==> k in ps
    ensures r.1.Keys == ps.Keys
  {
    var tried := TryRelease(d, failing, ps, rootPkg, root, keys, version, versions, confirmed);
    var (d5, o5) := Clean(tried.0, root, tried.1, keys);
    (d5, tried.1, tried.2, if o5.Fail? then o5 else tried.3)
  }

  /** A release that succeeds leaves every releasable package carrying
      the new version, and has published each of them once from its
      directory, with `--dry-run` unless confirmed and `--access=public`
      for a first public release; a release whose backup or rewrite fails
      publishes nothing. */
  lemma ReleasePublishesEveryPackage(d: Disk, failing: set<Command>, ps: Packages, rootPkg: Package, root: string, keys: seq<string>,
                                     version: string, versions: map<string, string>, confirmed: bool)
    requires forall k :: k in keys ==> k in ps
    ensures var (_, after, cmds, o) := ReleaseRun(d, failing, ps, rootPkg, root, keys, version, versions, confirmed);
            (o.Pass? ==>
               Stamped(after, keys, version) &&
               forall k :: k in keys && !ps[k].noRelease ==> PublishCommand(after[k], k, versions, confirmed) in cmds) &&
            (Backup(d, root, ps, keys).1.Fail? ==> cmds == [] && after == ps)
  {
    TryReleaseCovers(d, failing, ps, rootPkg, root, keys, version, versions, confirmed);
    var tried := TryRelease(d, failing, ps, rootPkg, root, keys, version, versions, confirmed);
    var c := Clean(tried.0, root, tried.1, keys);
    assert ReleaseRun(d, failing, ps, rootPkg, root, keys, version, versions, confirmed) ==
             (c.0, tried.1, tried.2, if c.1.Fail? then c.1 else tried.3);
  }

  /** Once the backup and the rewrite are done, `release` runs exactly
      the commands of the publishing (`PublishingStopsAtFailure` says
      where a failing publish ends them), and a publishing that fails
      makes the release fail, after the manifests are restored. */
  lemma ReleaseRunsPublishing(d: Disk, failing: set<Command>, ps: Packages, rootPkg: Package, root: string, keys: seq<string>,
                              version: string, versions: map<string, string>, confirmed: bool)
    requires forall k :: k in keys ==> k in ps
    ensures var b := Backup(d, root, ps, keys);
            var st := Setup(b.0, ps, rootPkg, keys, version);
            var run := ReleaseRun(d, failing, ps, rootPkg, root, keys, version, versions, confirmed);
            var pub := Publishing(st.0, failing, st.1, keys, versions, confirmed);
            b.1.Pass? && st.2.Pass? ==>
              run.2 == pub.0 && run.1 == st.1 && (pub.1.Fail? ==> run.3.Fail?) &&
              run.0 == Clean(st.0, root, st.1, keys).0
  {
  }

  /** The `try` block of `release`: when it passes, every releasable
      package carries the new version and has been published; when the
      backup fails, nothing runs. */
  lemma TryReleaseCovers(d: Disk, failing: set<Command>, ps: Packages, rootPkg: Package, root: string, keys: seq<string>,
                         version: string, versions: map<string, string>, confirmed: bool)
    requires forall k :: k in keys ==> k in ps
    ensures var (_, after, cmds, o) := TryRelease(d, failing, ps, rootPkg, root, keys, version, versions, confirmed);
            (o.Pass? ==>
               Stamped(after, keys, version) &&
               forall k :: k in keys && !ps[k].noRelease ==> PublishCommand(after[k], k, versions, confirmed) in cmds) &&
            (Backup(d, root, ps, keys).1.Fail? ==> cmds == [] && after == ps)
  {
    var (d1, o1) := Backup(d, root, ps, keys);
    if o1.Pass? {
      SetupAndPublishCovers(d1, failing, ps, rootPkg, keys, version, versions, confirmed);
    }
  }

  /** The `try` block once the backup is made: when it passes, every
      releasable package carries the new version and has been published. */
  lemma SetupAndPublishCovers(d: Disk, failing: set<Command>, ps: Packages, rootPkg: Package, keys: seq<string>, version: string,
                              versions: map<string, string>, confirmed: bool)
    requires forall k :: k in keys ==> k in ps
    ensures var (_, after, cmds, o) := SetupAndPublish(d, failing, ps, rootPkg, keys, version, versions, confirmed);
            o.Pass? ==>
              Stamped(after, keys, version) &&
              forall k :: k in keys && !ps[k].noRelease ==> PublishCommand(after[k], k, versions, confirmed) in cmds
  {
    SetupStamps(d, ps, rootPkg, keys, version);
    var (d2, ps2, o2) := Setup(d, ps, rootPkg, keys, version);
    if o2.Pass? {
      PublishingCoversKeys(d2, failing, ps2, keys, versions, confirmed);
    }
  }

  /** After `_setupDependencies` every releasable package carries the new
      version and keeps its `noRelease` flag. */
  lemma SetupStamps(d: Disk, ps: Packages, rootPkg: Package, keys: seq<string>, version: string)
    requires forall k :: k in keys ==> k in ps
    ensures var after := Setup(d, ps, rootPkg, keys, version).1;
            Stamped(after, keys, version) && forall k :: k in keys ==> after[k].noRelease == ps[k].noRelease
  {
    var stamped := StampAll(ps, keys, version);
    StampAllMeaning(ps, keys, version);
    assert Stamped(stamped, keys, version);
    SetupKeepsHeads(d, stamped, rootPkg, keys, keys, version);
  }

  /** When the publishing passes, every releasable package has its publish
      command among the commands run. */
  lemma PublishingCoversKeys(d: Disk, failing: set<Command>, ps: Packages, keys: seq<string>, versions: map<string, string>, confirmed: bool)
    requires forall k :: k in keys ==> k in ps
    ensures var (cmds, o) := Publishing(d, failing, ps, keys, versions, confirmed);
            o.Pass? ==> forall k :: k in keys && !ps[k].noRelease ==> PublishCommand(ps[k], k, versions, confirmed) in cmds
  {
    var (pre, o3) := HookCommands(d, failing, ps, keys, "ottoia:prepublish");
    if o3.Pass? {
      var (post, o4) := HookCommands(d, failing, ps, keys, "ottoia:postpublish");
      var pub := PublishCommands(ps, keys, versions, confirmed);
      PublishCommandsMeaning(ps, keys, versions, confirmed);
      RunAllMeaning(failing, pub);
      forall k | k in keys && !ps[k].noRelease
        ensures PublishCommand(ps[k], k, versions, confirmed) in pre + pub + post
      {
        assert PublishCommand(ps[k], k, versions, confirmed) in pub;
      }
    }
  }
}
