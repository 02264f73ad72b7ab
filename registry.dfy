/** The pure side of the package manager's registry (src/lib/Manager.ts):
    how a name or an `@@alias` is looked up, which dependencies a package
    declares, how `install` and `uninstall` edit the three dependency
    records of a package, and what those edits do over a list of
    dependencies and target packages. */
module Registry {
  import opened Errors
  import opened Text
  import opened Json
  import opened Disk
  import opened PackageUtils

  /** The version written for a dependency until release time. */
  const PlaceHolder := "-"

  /** The registry, keyed by (lowercase) package name. */
  type Packages = map<string, Package>

  /** The alias table: lowercase alias to package name. */
  type Aliases = map<string, string>

  /** `xs.map((v) => v.toLowerCase())`. */
  function LowerAll(xs: seq<string>): (r: seq<string>)
    ensures |r| == |xs|
    ensures forall i :: 0 <= i < |xs| ==> r[i] == ToLower(xs[i])
  {
    seq(|xs|, i requires 0 <= i < |xs| => ToLower(xs[i]))
  }

  /** No registry key looks like an alias reference. */
  predicate NoAliasKeys(packages: Packages) {
    forall k :: k in packages ==> !StartsWith(k, "@@")
  }

  /** Every registry key is its own lowercase form. */
  predicate LowerKeys(packages: Packages) {
    forall k :: k in packages ==> ToLower(k) == k
  }

  // ---------------------------------------------------------------------
  // Lookup (`_getPackage`)

  /** `_getPackage(nameOrAlias, false)`: the key of the package found. An
      `@@` reference whose alias is unknown yields the package registered
      under `"?"`, if there is one. */
  function Find(packages: Packages, aliases: Aliases, nameOrAlias: string): (r: Option<string>)
    ensures r.Some? ==> r.value in packages
  {
    var n := ToLower(nameOrAlias);
    if StartsWith(n, "@@") then
      var a := n[2..];
      if a !in aliases || aliases[a] == "" then (if "?" in packages then Some("?") else None)
      else if aliases[a] in packages then Some(aliases[a]) else None
    else if n in packages then Some(n) else None
  }

  /** `_getPackage(nameOrAlias, true)`: the key of the package found, or
      `PACKAGE_NOT_FOUND` naming the alias or the name that missed. */
  function Lookup(packages: Packages, aliases: Aliases, nameOrAlias: string): (r: Result<string>)
    ensures r.Ok? ==> r.value in packages
  {
    var n := ToLower(nameOrAlias);
    if StartsWith(n, "@@") && (n[2..] !in aliases || aliases[n[2..]] == "") then
      Err(PackageNotFound(n[2..], true))
    else
      var key := if StartsWith(n, "@@") then aliases[n[2..]] else n;
      if key in packages then Ok(key) else Err(PackageNotFound(key, false))
  }

  /** Lookups ignore case; a plain name is found exactly when its
      lowercase form is registered; an `@@` reference goes through the
      alias table. The asserting lookup succeeds exactly when the other
      finds something other than the `"?"` fallback, and then both agree. */
  lemma LookupMeaning(packages: Packages, aliases: Aliases, x: string)
    ensures Find(packages, aliases, ToLower(x)) == Find(packages, aliases, x)
    ensures Lookup(packages, aliases, ToLower(x)) == Lookup(packages, aliases, x)
    ensures !StartsWith(ToLower(x), "@@") ==>
              Find(packages, aliases, x) == (if ToLower(x) in packages then Some(ToLower(x)) else None) &&
              Lookup(packages, aliases, x) == (if ToLower(x) in packages then Ok(ToLower(x)) else Err(PackageNotFound(ToLower(x), false)))
    ensures StartsWith(ToLower(x), "@@") ==>
              var a := ToLower(x)[2..];
              (a in aliases && aliases[a] != "" ==>
                 Find(packages, aliases, x) == (if aliases[a] in packages then Some(aliases[a]) else None)) &&
              (a !in aliases || aliases[a] == "" ==>
                 Lookup(packages, aliases, x) == Err(PackageNotFound(a, true)))
    ensures Lookup(packages, aliases, x).Ok? ==> Find(packages, aliases, x) == Some(Lookup(packages, aliases, x).value)
    ensures Find(packages, aliases, x).None? ==> Lookup(packages, aliases, x).Err?
    ensures Lookup(packages, aliases, x).Err? && Find(packages, aliases, x).Some? ==>
              Find(packages, aliases, x) == Some("?") && StartsWith(ToLower(x), "@@")
  {
    ToLowerIdempotent(x);
  }

  /** Lookups depend on the registry's keys only. */
  lemma LookupKeys(packages: Packages, packages': Packages, aliases: Aliases, x: string)
    requires packages.Keys == packages'.Keys
    ensures Find(packages, aliases, x) == Find(packages', aliases, x)
    ensures Lookup(packages, aliases, x) == Lookup(packages', aliases, x)
  {
  }

  /** A registered key without the `@@` prefix is found as itself. */
  lemma FindKey(packages: Packages, aliases: Aliases, k: string)
    requires k in packages && ToLower(k) == k && !StartsWith(k, "@@")
    ensures Find(packages, aliases, k) == Some(k)
    ensures Lookup(packages, aliases, k) == Ok(k)
  {
  }

  /** `_checkPackages(pkgs)`: every name must be found; otherwise
      `UNKNOWN_SUB_PACKAGE` lists, in order, the names that are not. */
  function CheckPackages(packages: Packages, aliases: Aliases, pkgs: seq<string>): (r: Outcome)
    ensures r.Pass? <==> forall x :: x in pkgs ==> Find(packages, aliases, x).Some?
    ensures r.Fail? ==> (r.error.UnknownSubPackage? && |r.error.packages| > 0 &&
              forall x :: x in r.error.packages <==> x in pkgs && Find(packages, aliases, x).None?)
  {
    var unknown := Filter(pkgs, x => Find(packages, aliases, x).None?);
    if unknown != [] then
      assert unknown[0] in pkgs && Find(packages, aliases, unknown[0]).None?;
      Fail(UnknownSubPackage(unknown))
    else Pass
  }

  /** The packages an operation works on: the given (lowercased) names once
      they pass the check, or every registered name when none is given. */
  function Targets(packages: Packages, aliases: Aliases, names: seq<string>, pkgs: seq<string>): (r: Result<seq<string>>)
    ensures pkgs == [] ==> r == Ok(names)
    ensures pkgs != [] ==> r == (var c := CheckPackages(packages, aliases, pkgs);
                                 if c.Fail? then Err(c.error) else Ok(pkgs))
  {
    if pkgs == [] then Ok(names)
    else
      var c := CheckPackages(packages, aliases, pkgs);
      if c.Fail? then Err(c.error) else Ok(pkgs)
  }

  // ---------------------------------------------------------------------
  // The copy handed out by `getPackage`

  /** The public view of a package: no root, version or manifest, and
      copies of its records (an undefined record is copied as `{}`). */
  datatype PackageInfo = PackageInfo(
    name: string,
    noRelease: bool,
    privateAccess: bool,
    alias: Option<Json>,
    scripts: map<string, string>,
    dependencies: map<string, string>,
    devDependencies: map<string, string>,
    peerDependencies: map<string, string>)

  function Info(pkg: Package): PackageInfo {
    PackageInfo(pkg.name, pkg.noRelease, pkg.privateAccess, pkg.alias, pkg.scripts,
                DepsOrEmpty(pkg, Runtime), DepsOrEmpty(pkg, Dev), DepsOrEmpty(pkg, Peer))
  }

  /** `getPackage(name)`: the package found by the asserting lookup, as a
      copy whose records hold the same entries as the package's. */
  function GetPackage(packages: Packages, aliases: Aliases, name: string): (r: Result<PackageInfo>)
    ensures Lookup(packages, aliases, name).Err? ==> r == Err(Lookup(packages, aliases, name).error)
    ensures Lookup(packages, aliases, name).Ok? ==>
              var p := packages[Lookup(packages, aliases, name).value];
              r.Ok? && r.value.name == p.name && r.value.alias == p.alias && r.value.scripts == p.scripts &&
              r.value.noRelease == p.noRelease && r.value.privateAccess == p.privateAccess &&
              (forall k :: Deps(p, k).Some? ==> Deps(p, k).value == (match k
                                                  case Runtime => r.value.dependencies
                                                  case Dev => r.value.devDependencies
                                                  case Peer => r.value.peerDependencies)) &&
              (forall k :: Deps(p, k).None? ==> (match k
                                                 case Runtime => r.value.dependencies
                                                 case Dev => r.value.devDependencies
                                                 case Peer => r.value.peerDependencies) == map[])
  {
    var key :- Lookup(packages, aliases, name);
    Ok(Info(packages[key]))
  }

  // ---------------------------------------------------------------------
  // Declared dependencies (`_extractDeps`, `_extractLocalDeps`)

  /** `_extractDeps(pkg, productionOnly)`: the runtime keys, and unless
      `productionOnly` the runtime keys again and the peer keys, without
      duplicates. Reading the keys of an undefined record is a TypeError. */
  function ExtractDeps(pkg: Package, productionOnly: bool): (r: Result<seq<string>>)
  {
    var rt := Deps(pkg, Runtime);
    var peer := Deps(pkg, Peer);
    if rt.None? then Err(TypeError("dependencies"))
    else if !productionOnly && peer.None? then Err(TypeError("peerDependencies"))
    else
      var keys := SortedKeys(rt.value);
      Ok(Dedup(keys + (if productionOnly then [] else keys + SortedKeys(peer.value))))
  }

  /** With `productionOnly` the result is exactly the runtime names, and
      otherwise the runtime and peer names; never a development-only name;
      no name twice; a TypeError exactly when a record read is undefined. */
  lemma ExtractDepsMeaning(pkg: Package, productionOnly: bool)
    ensures ExtractDeps(pkg, productionOnly).Err? <==>
              Deps(pkg, Runtime).None? || (!productionOnly && Deps(pkg, Peer).None?)
    ensures var r := ExtractDeps(pkg, productionOnly);
            r.Ok? ==>
              (forall i, j :: 0 <= i < j < |r.value| ==> r.value[i] != r.value[j]) &&
              (productionOnly ==> forall x :: x in r.value <==> x in Deps(pkg, Runtime).value) &&
              (!productionOnly ==> forall x :: x in r.value <==> x in Deps(pkg, Runtime).value || x in Deps(pkg, Peer).value)
  {
  }

  /** `_extractLocalDeps(pkg, productionOnly)`: the declared names that are
      registered packages. */
  function ExtractLocalDeps(packages: Packages, pkg: Package, productionOnly: bool): (r: Result<seq<string>>)
    ensures ExtractDeps(pkg, productionOnly).Err? ==> r == Err(ExtractDeps(pkg, productionOnly).error)
    ensures r.Ok? ==> (ExtractDeps(pkg, productionOnly).Ok? &&
              forall x :: x in r.value <==> x in ExtractDeps(pkg, productionOnly).value && x in packages)
  {
    var deps :- ExtractDeps(pkg, productionOnly);
    Ok(Filter(deps, v => v in packages))
  }

  // ---------------------------------------------------------------------
  // Record edits

  /** The entries of a record other than `dep`. */
  function Others(m: map<string, string>, dep: string): map<string, string> {
    m - {dep}
  }

  /** Only the three dependency records of the manifest differ. */
  predicate SameButRecords(p: Package, q: Package) {
    q == p.(raw := q.raw) &&
    q.raw.Keys == p.raw.Keys &&
    forall key :: key in p.raw && key != RecordKey(Runtime) && key != RecordKey(Dev) && key != RecordKey(Peer) ==>
      q.raw[key] == p.raw[key]
  }

  lemma WithDepsSame(p: Package, k: DepKind, m: map<string, string>)
    requires Deps(p, k).Some?
    ensures SameButRecords(p, WithDeps(p, k, m))
  {
    WithDepsMeaning(p, k, m);
  }

  lemma SameTransitive(p: Package, q: Package, s: Package)
    requires SameButRecords(p, q) && SameButRecords(q, s)
    ensures SameButRecords(p, s)
  {
  }

  lemma OthersOfUpdate(m: map<string, string>, dep: string, v: string)
    ensures Others((m - {dep})[dep := v], dep) == Others(m, dep)
    ensures Others(m - {dep}, dep) == Others(m, dep)
  {
    assert Others((m - {dep})[dep := v], dep) == Others(m, dep);
  }

  /** Three record replacements that each drop `dep` keep every other entry. */
  lemma DropThree(pkg: Package, dep: string, a: DepKind, b: DepKind, c: DepKind)
    requires a != b && b != c && a != c
    requires Deps(pkg, Runtime).Some? && Deps(pkg, Dev).Some? && Deps(pkg, Peer).Some?
    ensures var p := WithDeps(WithDeps(WithDeps(pkg, a, Deps(pkg, a).value - {dep}), b, Deps(pkg, b).value - {dep}),
                              c, Deps(pkg, c).value - {dep});
            SameButRecords(pkg, p) &&
            forall k :: Deps(p, k) == Some(Deps(pkg, k).value - {dep})
  {
    var p1 := WithDeps(pkg, a, Deps(pkg, a).value - {dep});
    var p2 := WithDeps(p1, b, Deps(pkg, b).value - {dep});
    var p3 := WithDeps(p2, c, Deps(pkg, c).value - {dep});
    WithDepsSame(pkg, a, Deps(pkg, a).value - {dep});
    WithDepsSame(p1, b, Deps(pkg, b).value - {dep});
    WithDepsSame(p2, c, Deps(pkg, c).value - {dep});
    SameTransitive(pkg, p1, p2);
    SameTransitive(pkg, p2, p3);
    WithDepsMeaning(pkg, a, Deps(pkg, a).value - {dep});
    WithDepsMeaning(p1, b, Deps(pkg, b).value - {dep});
    WithDepsMeaning(p2, c, Deps(pkg, c).value - {dep});
    forall k ensures Deps(p3, k) == Some(Deps(pkg, k).value - {dep}) {
      if k == c {
      } else if k == b {
      } else {
        assert k == a;
      }
    }
  }

  /** Writing the placeholder into one record of a package whose three
      records have just lost `dep`. */
  lemma PutOne(pkg: Package, p: Package, dep: string, hit: DepKind)
    requires Deps(pkg, Runtime).Some? && Deps(pkg, Dev).Some? && Deps(pkg, Peer).Some?
    requires SameButRecords(pkg, p)
    requires forall k :: Deps(p, k) == Some(Deps(pkg, k).value - {dep})
    ensures var r := WithDeps(p, hit, (Deps(pkg, hit).value - {dep})[dep := PlaceHolder]);
            SameButRecords(pkg, r) && OthersKept(pkg, r, dep) &&
            (forall k :: Deps(r, k).Some? && (dep in Deps(r, k).value <==> k == hit)) &&
            Deps(r, hit).value[dep] == PlaceHolder
  {
    var m := (Deps(pkg, hit).value - {dep})[dep := PlaceHolder];
    var r := WithDeps(p, hit, m);
    WithDepsSame(p, hit, m);
    WithDepsMeaning(p, hit, m);
    SameTransitive(pkg, p, r);
    forall k ensures Deps(r, k).Some? && (dep in Deps(r, k).value <==> k == hit) &&
                     Others(Deps(r, k).value, dep) == Others(Deps(pkg, k).value, dep) {
      OthersOfUpdate(Deps(pkg, k).value, dep, PlaceHolder);
      if k != hit {
        assert Deps(r, k) == Deps(p, k);
      }
    }
  }

  /** Where `install` of an external dependency leaves it: in the peer
      record if `isPeer`, otherwise in the runtime record, always as the
      placeholder, and nowhere at all if `isDev`. */
  predicate Placed(pkg: Package, dep: string, isPeer: bool, isDev: bool) {
    Deps(pkg, Runtime).Some? && Deps(pkg, Dev).Some? && Deps(pkg, Peer).Some? &&
    dep !in Deps(pkg, Dev).value &&
    (dep in Deps(pkg, Peer).value <==> !isDev && isPeer) &&
    (dep in Deps(pkg, Runtime).value <==> !isDev && !isPeer) &&
    (dep in Deps(pkg, Peer).value ==> Deps(pkg, Peer).value[dep] == PlaceHolder) &&
    (dep in Deps(pkg, Runtime).value ==> Deps(pkg, Runtime).value[dep] == PlaceHolder)
  }

  /** The records of `q` are those of `p` apart from the entries of `dep`. */
  predicate OthersKept(p: Package, q: Package, dep: string) {
    forall k :: Deps(p, k).Some? ==> Deps(q, k).Some? && Others(Deps(q, k).value, dep) == Others(Deps(p, k).value, dep)
  }

  /** One (dependency, target) turn of the external branch of `install`:
      delete the name from the peer, development and runtime records (in
      that order; deleting from an undefined record is a TypeError), then
      unless `isDev` write the placeholder into the peer record if
      `isPeer`, else into the runtime record. */
  function ExternalEdit(pkg: Package, dep: string, isPeer: bool, isDev: bool): (r: Result<Package>)
  {
    if Deps(pkg, Peer).None? then Err(TypeError("peerDependencies"))
    else if Deps(pkg, Dev).None? then Err(TypeError("devDependencies"))
    else if Deps(pkg, Runtime).None? then Err(TypeError("dependencies"))
    else
      var peer := Deps(pkg, Peer).value - {dep};
      var dev := Deps(pkg, Dev).value - {dep};
      var rt := Deps(pkg, Runtime).value - {dep};
      var p := WithDeps(WithDeps(WithDeps(pkg, Peer, peer), Dev, dev), Runtime, rt);
      if isDev then Ok(p)
      else if isPeer then Ok(WithDeps(p, Peer, peer[dep := PlaceHolder]))
      else Ok(WithDeps(p, Runtime, rt[dep := PlaceHolder]))
  }

  /** The edit fails exactly when a record is undefined; otherwise the name
      ends up `Placed`, every other entry of every record is kept, and
      nothing but the records changes. */
  lemma ExternalEditMeaning(pkg: Package, dep: string, isPeer: bool, isDev: bool)
    ensures ExternalEdit(pkg, dep, isPeer, isDev).Ok? <==>
              Deps(pkg, Runtime).Some? && Deps(pkg, Dev).Some? && Deps(pkg, Peer).Some?
    ensures var r := ExternalEdit(pkg, dep, isPeer, isDev);
            r.Ok? ==> Placed(r.value, dep, isPeer, isDev) && OthersKept(pkg, r.value, dep) && SameButRecords(pkg, r.value)
  {
    if Deps(pkg, Runtime).Some? && Deps(pkg, Dev).Some? && Deps(pkg, Peer).Some? {
      if isDev {
        DropThree(pkg, dep, Peer, Dev, Runtime);
        forall k ensures Others(Deps(ExternalEdit(pkg, dep, isPeer, isDev).value, k).value, dep) == Others(Deps(pkg, k).value, dep) {
          OthersOfUpdate(Deps(pkg, k).value, dep, PlaceHolder);
        }
      } else {
        DropThree(pkg, dep, Peer, Dev, Runtime);
        PutOne(pkg, WithDeps(WithDeps(WithDeps(pkg, Peer, Deps(pkg, Peer).value - {dep}), Dev, Deps(pkg, Dev).value - {dep}),
                             Runtime, Deps(pkg, Runtime).value - {dep}), dep, if isPeer then Peer else Runtime);
      }
    }
  }

  /** An edit for one name keeps where any other name was placed. */
  lemma ExternalEditKeeps(pkg: Package, dep: string, other: string, isPeer: bool, isDev: bool)
    requires Placed(pkg, other, isPeer, isDev)
    requires ExternalEdit(pkg, dep, isPeer, isDev).Ok?
    ensures Placed(ExternalEdit(pkg, dep, isPeer, isDev).value, other, isPeer, isDev)
  {
    ExternalEditMeaning(pkg, dep, isPeer, isDev);
  }

  /** One (dependency, target) turn of the local branch of `install` when
      the target is saved: delete the dependency's name from the
      development, runtime and peer records, then write the placeholder
      into exactly one of them, peer before development before runtime. */
  function LocalEdit(pkg: Package, dep: string, isPeer: bool, isDev: bool): (r: Result<Package>)
  {
    if Deps(pkg, Dev).None? then Err(TypeError("devDependencies"))
    else if Deps(pkg, Runtime).None? then Err(TypeError("dependencies"))
    else if Deps(pkg, Peer).None? then Err(TypeError("peerDependencies"))
    else
      var dev := Deps(pkg, Dev).value - {dep};
      var rt := Deps(pkg, Runtime).value - {dep};
      var peer := Deps(pkg, Peer).value - {dep};
      var p := WithDeps(WithDeps(WithDeps(pkg, Dev, dev), Runtime, rt), Peer, peer);
      if isPeer then Ok(WithDeps(p, Peer, peer[dep := PlaceHolder]))
      else if isDev then Ok(WithDeps(p, Dev, dev[dep := PlaceHolder]))
      else Ok(WithDeps(p, Runtime, rt[dep := PlaceHolder]))
  }

  /** The record a local dependency is saved into. */
  function SavedInto(isPeer: bool, isDev: bool): DepKind {
    if isPeer then Peer else if isDev then Dev else Runtime
  }

  /** The local edit fails exactly when a record is undefined; otherwise
      the name is in exactly one record, the one `SavedInto` picks, as the
      placeholder, and everything else is kept. */
  lemma LocalEditMeaning(pkg: Package, dep: string, isPeer: bool, isDev: bool)
    ensures LocalEdit(pkg, dep, isPeer, isDev).Ok? <==>
              Deps(pkg, Runtime).Some? && Deps(pkg, Dev).Some? && Deps(pkg, Peer).Some?
    ensures var r := LocalEdit(pkg, dep, isPeer, isDev);
            r.Ok? ==>
              (forall k :: Deps(r.value, k).Some? && (dep in Deps(r.value, k).value <==> k == SavedInto(isPeer, isDev))) &&
              Deps(r.value, SavedInto(isPeer, isDev)).value[dep] == PlaceHolder &&
              OthersKept(pkg, r.value, dep) && SameButRecords(pkg, r.value)
  {
    if Deps(pkg, Runtime).Some? && Deps(pkg, Dev).Some? && Deps(pkg, Peer).Some? {
      DropThree(pkg, dep, Dev, Runtime, Peer);
      PutOne(pkg, WithDeps(WithDeps(WithDeps(pkg, Dev, Deps(pkg, Dev).value - {dep}), Runtime, Deps(pkg, Runtime).value - {dep}),
                           Peer, Deps(pkg, Peer).value - {dep}), dep, SavedInto(isPeer, isDev));
    }
  }

  /** The three `delete`s of `uninstall`: development, runtime, then peer
      record. */
  function Unrecord(pkg: Package, dep: string): (r: Result<Package>)
  {
    if Deps(pkg, Dev).None? then Err(TypeError("devDependencies"))
    else if Deps(pkg, Runtime).None? then Err(TypeError("dependencies"))
    else if Deps(pkg, Peer).None? then Err(TypeError("peerDependencies"))
    else
      Ok(WithDeps(WithDeps(WithDeps(pkg, Dev, Deps(pkg, Dev).value - {dep}),
                           Runtime, Deps(pkg, Runtime).value - {dep}),
                  Peer, Deps(pkg, Peer).value - {dep}))
  }

  /** Removing a name leaves it in no record and keeps everything else. */
  lemma UnrecordMeaning(pkg: Package, dep: string)
    ensures Unrecord(pkg, dep).Ok? <==> Deps(pkg, Runtime).Some? && Deps(pkg, Dev).Some? && Deps(pkg, Peer).Some?
    ensures var r := Unrecord(pkg, dep);
            r.Ok? ==> (forall k :: Deps(r.value, k).Some? && dep !in Deps(r.value, k).value) &&
                      OthersKept(pkg, r.value, dep) && SameButRecords(pkg, r.value)
  {
    if Deps(pkg, Runtime).Some? && Deps(pkg, Dev).Some? && Deps(pkg, Peer).Some? {
      DropThree(pkg, dep, Dev, Runtime, Peer);
      forall k ensures Others(Deps(Unrecord(pkg, dep).value, k).value, dep) == Others(Deps(pkg, k).value, dep) {
        OthersOfUpdate(Deps(pkg, k).value, dep, PlaceHolder);
      }
    }
  }

  /** A record names `target` with a truthy version. */
  predicate Names(m: map<string, string>, target: string) {
    target in m && m[target] != ""
  }

  /** The recursion test of the local branch of `install`: the dependency's
      runtime, development or peer record names the target, or the
      dependency is already on the path. The records are read in that
      order and an undefined one is a TypeError. */
  function Recursive(dep: Package, target: string, depPath: seq<string>): (r: Result<bool>)
  {
    if Deps(dep, Runtime).None? then Err(TypeError("dependencies"))
    else if Names(Deps(dep, Runtime).value, target) then Ok(true)
    else if Deps(dep, Dev).None? then Err(TypeError("devDependencies"))
    else if Names(Deps(dep, Dev).value, target) then Ok(true)
    else if Deps(dep, Peer).None? then Err(TypeError("peerDependencies"))
    else if Names(Deps(dep, Peer).value, target) then Ok(true)
    else Ok(dep.name in depPath)
  }

  /** With all three records defined, the test holds exactly when one of
      them names the target or the path holds the dependency. */
  lemma RecursiveMeaning(dep: Package, target: string, depPath: seq<string>)
    requires Deps(dep, Runtime).Some? && Deps(dep, Dev).Some? && Deps(dep, Peer).Some?
    ensures Recursive(dep, target, depPath).Ok?
    ensures Recursive(dep, target, depPath).value <==>
              (exists k :: Names(Deps(dep, k).value, target)) || dep.name in depPath
  {
    if Names(Deps(dep, Runtime).value, target) {
    } else if Names(Deps(dep, Dev).value, target) {
    } else if Names(Deps(dep, Peer).value, target) {
    } else {
      forall k ensures !Names(Deps(dep, k).value, target) {
        match k
        case Runtime =>
        case Dev =>
        case Peer =>
      }
    }
  }

  /** A local dependency saved into exactly one record, the one `SavedInto`
      picks, as the placeholder. */
  predicate LocalPlaced(pkg: Package, name: string, into: DepKind) {
    (forall k :: Deps(pkg, k).Some? && (name in Deps(pkg, k).value <==> k == into)) &&
    Deps(pkg, into).value[name] == PlaceHolder
  }

  lemma LocalEditKeeps(pkg: Package, dep: string, other: string, isPeer: bool, isDev: bool)
    requires LocalPlaced(pkg, other, SavedInto(isPeer, isDev))
    requires LocalEdit(pkg, dep, isPeer, isDev).Ok?
    ensures LocalPlaced(LocalEdit(pkg, dep, isPeer, isDev).value, other, SavedInto(isPeer, isDev))
  {
    LocalEditMeaning(pkg, dep, isPeer, isDev);
    var r := LocalEdit(pkg, dep, isPeer, isDev).value;
    if other != dep {
      forall k ensures other in Deps(r, k).value <==> other in Deps(pkg, k).value {
        assert other in Others(Deps(r, k).value, dep) <==> other in Others(Deps(pkg, k).value, dep);
      }
      var into := SavedInto(isPeer, isDev);
      assert Others(Deps(r, into).value, dep)[other] == Others(Deps(pkg, into).value, dep)[other];
    }
  }

  /** A name with no entry in any of the three records. */
  predicate Cleared(pkg: Package, name: string) {
    forall k :: Deps(pkg, k).Some? && name !in Deps(pkg, k).value
  }

  lemma UnrecordKeeps(pkg: Package, dep: string, other: string)
    requires Cleared(pkg, other) && Unrecord(pkg, dep).Ok?
    ensures Cleared(Unrecord(pkg, dep).value, other)
  {
    UnrecordMeaning(pkg, dep);
    var r := Unrecord(pkg, dep).value;
    forall k ensures other !in Deps(r, k).value {
      if other != dep {
        assert other !in Others(Deps(pkg, k).value, dep);
      }
    }
  }

  /** Each package of `qs` differs from the one of `ps` under the same key
      in its dependency records at most. */
  predicate Edited(ps: Packages, qs: Packages) {
    qs.Keys == ps.Keys && forall k :: k in ps ==> SameButRecords(ps[k], qs[k])
  }

  lemma EditedTransitive(ps: Packages, qs: Packages, rs: Packages)
    requires Edited(ps, qs) && Edited(qs, rs)
    ensures Edited(ps, rs)
  {
    forall k | k in ps ensures SameButRecords(ps[k], rs[k]) {
      SameTransitive(ps[k], qs[k], rs[k]);
    }
  }

  // ---------------------------------------------------------------------
  // The registry edits of `install`

  /** The requested dependencies that are not local packages. */
  function Remote(packages: Packages, aliases: Aliases, deps: seq<string>): (r: seq<string>)
    ensures forall x :: x in r <==> x in deps && Find(packages, aliases, x).None?
  {
    Filter(deps, x => Find(packages, aliases, x).None?)
  }

  /** The requested dependencies that are local packages. */
  function Local(packages: Packages, aliases: Aliases, deps: seq<string>): (r: seq<string>)
    ensures forall x :: x in r <==> x in deps && Find(packages, aliases, x).Some?
  {
    Filter(deps, x => Find(packages, aliases, x).Some?)
  }

  /** Registered keys are all local: none of them is remote. */
  lemma KeysAreLocal(packages: Packages, aliases: Aliases, deps: seq<string>)
    requires LowerKeys(packages) && NoAliasKeys(packages)
    requires forall d :: d in deps ==> d in packages
    ensures Remote(packages, aliases, LowerAll(deps)) == []
  {
    var r := Remote(packages, aliases, LowerAll(deps));
    if r != [] {
      var x := r[0];
      assert x in LowerAll(deps);
      var i :| 0 <= i < |deps| && LowerAll(deps)[i] == x;
      FindKey(packages, aliases, deps[i]);
      assert false;
    }
  }

  /** The external branch for one dependency, over the targets in order. */
  function ExternalOne(packages: Packages, aliases: Aliases, dep: string, targets: seq<string>,
                       isPeer: bool, isDev: bool): (r: Result<Packages>)
    ensures r.Ok? ==> r.value.Keys == packages.Keys
    decreases |targets|
  {
    if targets == [] then Ok(packages)
    else
      var key :- Lookup(packages, aliases, targets[0]);
      var p :- ExternalEdit(packages[key], dep, isPeer, isDev);
      ExternalOne(packages[key := p], aliases, dep, targets[1..], isPeer, isDev)
  }

  /** The external branch of `install`: each remote dependency in turn,
      over every target. */
  function ExternalPass(packages: Packages, aliases: Aliases, remote: seq<string>, targets: seq<string>,
                        isPeer: bool, isDev: bool): (r: Result<Packages>)
    ensures r.Ok? ==> r.value.Keys == packages.Keys
    decreases |remote|
  {
    if remote == [] then Ok(packages)
    else
      var ps :- ExternalOne(packages, aliases, remote[0], targets, isPeer, isDev);
      ExternalPass(ps, aliases, remote[1..], targets, isPeer, isDev)
  }

  lemma EditOneKey(packages: Packages, key: string, p: Package)
    requires key in packages && SameButRecords(packages[key], p)
    ensures Edited(packages, packages[key := p])
  {
  }

  /** One external edit under one key keeps every placement it found. */
  lemma ExternalStepKeeps(packages: Packages, key: string, dep: string, isPeer: bool, isDev: bool)
    requires key in packages && ExternalEdit(packages[key], dep, isPeer, isDev).Ok?
    ensures var next := packages[key := ExternalEdit(packages[key], dep, isPeer, isDev).value];
            forall k, other :: k in packages && Placed(packages[k], other, isPeer, isDev) ==>
                                 Placed(next[k], other, isPeer, isDev)
  {
    forall k, other | k in packages && Placed(packages[k], other, isPeer, isDev)
      ensures Placed(packages[key := ExternalEdit(packages[key], dep, isPeer, isDev).value][k], other, isPeer, isDev)
    {
      if k == key {
        ExternalEditKeeps(packages[key], dep, other, isPeer, isDev);
      }
    }
  }

  lemma {:induction false} ExternalOnePlaces(packages: Packages, aliases: Aliases, dep: string, targets: seq<string>,
                                             isPeer: bool, isDev: bool)
    requires ExternalOne(packages, aliases, dep, targets, isPeer, isDev).Ok?
    ensures var ps := ExternalOne(packages, aliases, dep, targets, isPeer, isDev).value;
            Edited(packages, ps) &&
            (forall t :: t in targets ==>
                           Lookup(packages, aliases, t).Ok? &&
                           Placed(ps[Lookup(packages, aliases, t).value], dep, isPeer, isDev)) &&
            (forall k, other :: k in packages && Placed(packages[k], other, isPeer, isDev) ==>
                                  Placed(ps[k], other, isPeer, isDev))
    decreases |targets|
  {
    if targets != [] {
      var key := Lookup(packages, aliases, targets[0]).value;
      var p := ExternalEdit(packages[key], dep, isPeer, isDev).value;
      var next := packages[key := p];
      ExternalEditMeaning(packages[key], dep, isPeer, isDev);
      EditOneKey(packages, key, p);
      ExternalStepKeeps(packages, key, dep, isPeer, isDev);
      ExternalOnePlaces(next, aliases, dep, targets[1..], isPeer, isDev);
      var ps := ExternalOne(next, aliases, dep, targets[1..], isPeer, isDev).value;
      assert ExternalOne(packages, aliases, dep, targets, isPeer, isDev).value == ps;
      EditedTransitive(packages, next, ps);
      forall t | t in targets
        ensures Lookup(packages, aliases, t).Ok? && Placed(ps[Lookup(packages, aliases, t).value], dep, isPeer, isDev)
      {
        LookupKeys(packages, next, aliases, t);
        if t != targets[0] {
          assert t in targets[1..];
        }
      }
    }
  }

  /** After the external branch, every remote dependency sits in every
      target package where `Placed` says, and the packages differ from
      before in their dependency records only. */
  lemma {:induction false} ExternalPassPlaces(packages: Packages, aliases: Aliases, remote: seq<string>, targets: seq<string>,
                                              isPeer: bool, isDev: bool)
    requires ExternalPass(packages, aliases, remote, targets, isPeer, isDev).Ok?
    ensures var ps := ExternalPass(packages, aliases, remote, targets, isPeer, isDev).value;
            Edited(packages, ps) &&
            (forall dep, t :: dep in remote && t in targets ==>
                                Lookup(packages, aliases, t).Ok? &&
                                Placed(ps[Lookup(packages, aliases, t).value], dep, isPeer, isDev))
    ensures var ps := ExternalPass(packages, aliases, remote, targets, isPeer, isDev).value;
            forall k, other :: k in packages && Placed(packages[k], other, isPeer, isDev) ==>
                                 Placed(ps[k], other, isPeer, isDev)
    decreases |remote|
  {
    if remote != [] {
      var next := ExternalOne(packages, aliases, remote[0], targets, isPeer, isDev).value;
      ExternalOnePlaces(packages, aliases, remote[0], targets, isPeer, isDev);
      ExternalPassPlaces(next, aliases, remote[1..], targets, isPeer, isDev);
      var ps := ExternalPass(packages, aliases, remote, targets, isPeer, isDev).value;
      EditedTransitive(packages, next, ps);
      forall dep, t | dep in remote && t in targets
        ensures Lookup(packages, aliases, t).Ok? && Placed(ps[Lookup(packages, aliases, t).value], dep, isPeer, isDev)
      {
        LookupKeys(packages, next, aliases, t);
        if dep != remote[0] {
          assert dep in remote[1..];
        }
      }
    }
  }

  /** One (dependency, target) turn of the local branch of `install`, up to
      the nested install: skip a package depending on itself, refuse a
      recursive dependency, and unless `noSave` record the dependency. */
  function LocalStep(packages: Packages, aliases: Aliases, depKey: string, target: string,
                     isPeer: bool, isDev: bool, depPath: seq<string>, noSave: bool): (r: Result<Packages>)
    requires depKey in packages
    ensures r.Ok? ==> r.value.Keys == packages.Keys
  {
    var key :- Lookup(packages, aliases, target);
    var dep := packages[depKey];
    var pkg := packages[key];
    if dep.name == pkg.name then Ok(packages)
    else
      var recursive :- Recursive(dep, pkg.name, depPath);
      if recursive then Err(RecursiveDep(pkg.name, dep.name))
      else if noSave then Ok(packages)
      else
        var p :- LocalEdit(pkg, dep.name, isPeer, isDev);
        Ok(packages[key := p])
  }

  /** A self-reference is skipped; `RECURSIVE_DEP` is raised exactly when a
      record of the dependency names the target or the dependency is on
      the path; a turn that passes records the dependency in the record
      `SavedInto` picks, unless `noSave`, in which case nothing changes. */
  lemma LocalStepMeaning(packages: Packages, aliases: Aliases, depKey: string, target: string,
                         isPeer: bool, isDev: bool, depPath: seq<string>, noSave: bool)
    requires depKey in packages && Lookup(packages, aliases, target).Ok?
    ensures var key := Lookup(packages, aliases, target).value;
            var dep, pkg := packages[depKey], packages[key];
            var r := LocalStep(packages, aliases, depKey, target, isPeer, isDev, depPath, noSave);
            (dep.name == pkg.name ==> r == Ok(packages)) &&
            (dep.name != pkg.name && Deps(dep, Runtime).Some? && Deps(dep, Dev).Some? && Deps(dep, Peer).Some? ==>
               (r == Err(RecursiveDep(pkg.name, dep.name)) <==>
                  (exists k :: Names(Deps(dep, k).value, pkg.name)) || dep.name in depPath)) &&
            (r.Ok? && noSave ==> r.value == packages) &&
            (r.Ok? ==> Edited(packages, r.value)) &&
            (r.Ok? && !noSave && dep.name != pkg.name ==>
               LocalPlaced(r.value[key], dep.name, SavedInto(isPeer, isDev)) &&
               forall k :: k != key ==> k in packages ==> r.value[k] == packages[k])
  {
    LocalStepRecursion(packages, aliases, depKey, target, isPeer, isDev, depPath, noSave);
    LocalStepEdits(packages, aliases, depKey, target, isPeer, isDev, depPath, noSave);
  }

  /** The recursion half of `LocalStepMeaning`. */
  lemma LocalStepRecursion(packages: Packages, aliases: Aliases, depKey: string, target: string,
                           isPeer: bool, isDev: bool, depPath: seq<string>, noSave: bool)
    requires depKey in packages && Lookup(packages, aliases, target).Ok?
    ensures var key := Lookup(packages, aliases, target).value;
            var dep, pkg := packages[depKey], packages[key];
            var r := LocalStep(packages, aliases, depKey, target, isPeer, isDev, depPath, noSave);
            (dep.name == pkg.name ==> r == Ok(packages)) &&
            (dep.name != pkg.name && Deps(dep, Runtime).Some? && Deps(dep, Dev).Some? && Deps(dep, Peer).Some? ==>
               (r == Err(RecursiveDep(pkg.name, dep.name)) <==>
                  (exists k :: Names(Deps(dep, k).value, pkg.name)) || dep.name in depPath))
  {
    var key := Lookup(packages, aliases, target).value;
    var dep, pkg := packages[depKey], packages[key];
    if dep.name != pkg.name && Deps(dep, Runtime).Some? && Deps(dep, Dev).Some? && Deps(dep, Peer).Some? {
      RecursiveMeaning(dep, pkg.name, depPath);
    }
  }

  /** The edit half of `LocalStepMeaning`. */
  lemma LocalStepEdits(packages: Packages, aliases: Aliases, depKey: string, target: string,
                       isPeer: bool, isDev: bool, depPath: seq<string>, noSave: bool)
    requires depKey in packages && Lookup(packages, aliases, target).Ok?
    ensures var key := Lookup(packages, aliases, target).value;
            var dep, pkg := packages[depKey], packages[key];
            var r := LocalStep(packages, aliases, depKey, target, isPeer, isDev, depPath, noSave);
            (r.Ok? && noSave ==> r.value == packages) &&
            (r.Ok? ==> Edited(packages, r.value)) &&
            (r.Ok? && !noSave && dep.name != pkg.name ==>
               LocalPlaced(r.value[key], dep.name, SavedInto(isPeer, isDev)) &&
               forall k :: k != key ==> k in packages ==> r.value[k] == packages[k])
  {
    var key := Lookup(packages, aliases, target).value;
    var dep, pkg := packages[depKey], packages[key];
    var r := LocalStep(packages, aliases, depKey, target, isPeer, isDev, depPath, noSave);
    var rec := Recursive(dep, pkg.name, depPath);
    if dep.name != pkg.name && rec.Ok? && !rec.value && !noSave {
      var e := LocalEdit(pkg, dep.name, isPeer, isDev);
      assert r == if e.Ok? then Ok(packages[key := e.value]) else Err(e.error);
      if e.Ok? {
        LocalEditPlaced(pkg, dep.name, isPeer, isDev);
        EditOneKey(packages, key, e.value);
      }
    } else {
      assert r.Ok? ==> r.value == packages;
    }
  }

  /** A record edit that passes places the dependency and touches only the
      records. */
  lemma LocalEditPlaced(pkg: Package, dep: string, isPeer: bool, isDev: bool)
    requires LocalEdit(pkg, dep, isPeer, isDev).Ok?
    ensures var p := LocalEdit(pkg, dep, isPeer, isDev).value;
            LocalPlaced(p, dep, SavedInto(isPeer, isDev)) && SameButRecords(pkg, p)
  {
    LocalEditMeaning(pkg, dep, isPeer, isDev);
  }

  /** The local branch for one dependency, over the targets in order. */
  function LocalTargets(packages: Packages, aliases: Aliases, depKey: string, targets: seq<string>,
                        isPeer: bool, isDev: bool, depPath: seq<string>, noSave: bool): (r: Result<Packages>)
    requires depKey in packages
    ensures r.Ok? ==> r.value.Keys == packages.Keys
    decreases |targets|
  {
    if targets == [] then Ok(packages)
    else
      var ps :- LocalStep(packages, aliases, depKey, targets[0], isPeer, isDev, depPath, noSave);
      LocalTargets(ps, aliases, depKey, targets[1..], isPeer, isDev, depPath, noSave)
  }

  /** The registry edits of the local branch of `install`: each local
      dependency in turn, looked up first, over every target. */
  function LocalPass(packages: Packages, aliases: Aliases, local: seq<string>, targets: seq<string>,
                     isPeer: bool, isDev: bool, depPath: seq<string>, noSave: bool): (r: Result<Packages>)
    ensures r.Ok? ==> r.value.Keys == packages.Keys
    decreases |local|
  {
    if local == [] then Ok(packages)
    else
      var depKey :- Lookup(packages, aliases, local[0]);
      var ps :- LocalTargets(packages, aliases, depKey, targets, isPeer, isDev, depPath, noSave);
      LocalPass(ps, aliases, local[1..], targets, isPeer, isDev, depPath, noSave)
  }

  lemma {:induction false} LocalTargetsQuiet(packages: Packages, aliases: Aliases, depKey: string, targets: seq<string>,
                                             isPeer: bool, isDev: bool, depPath: seq<string>)
    requires depKey in packages
    requires LocalTargets(packages, aliases, depKey, targets, isPeer, isDev, depPath, true).Ok?
    ensures LocalTargets(packages, aliases, depKey, targets, isPeer, isDev, depPath, true).value == packages
    decreases |targets|
  {
    if targets != [] {
      LocalStepMeaning(packages, aliases, depKey, targets[0], isPeer, isDev, depPath, true);
      LocalTargetsQuiet(packages, aliases, depKey, targets[1..], isPeer, isDev, depPath);
    }
  }

  /** With `noSave` the local branch records nothing. */
  lemma {:induction false} LocalPassQuiet(packages: Packages, aliases: Aliases, local: seq<string>, targets: seq<string>,
                                          isPeer: bool, isDev: bool, depPath: seq<string>)
    requires LocalPass(packages, aliases, local, targets, isPeer, isDev, depPath, true).Ok?
    ensures LocalPass(packages, aliases, local, targets, isPeer, isDev, depPath, true).value == packages
    decreases |local|
  {
    if local != [] {
      var depKey := Lookup(packages, aliases, local[0]).value;
      LocalTargetsQuiet(packages, aliases, depKey, targets, isPeer, isDev, depPath);
      LocalPassQuiet(packages, aliases, local[1..], targets, isPeer, isDev, depPath);
    }
  }

  /** One saved local edit under one key keeps every placement it found. */
  lemma LocalStepKeeps(packages: Packages, aliases: Aliases, depKey: string, target: string,
                       isPeer: bool, isDev: bool, depPath: seq<string>)
    requires depKey in packages
    requires LocalStep(packages, aliases, depKey, target, isPeer, isDev, depPath, false).Ok?
    ensures var next := LocalStep(packages, aliases, depKey, target, isPeer, isDev, depPath, false).value;
            forall k, other :: k in packages && LocalPlaced(packages[k], other, SavedInto(isPeer, isDev)) ==>
                                 LocalPlaced(next[k], other, SavedInto(isPeer, isDev))
  {
    var key := Lookup(packages, aliases, target).value;
    var dep, pkg := packages[depKey], packages[key];
    LocalStepMeaning(packages, aliases, depKey, target, isPeer, isDev, depPath, false);
    if dep.name != pkg.name {
      forall k, other | k in packages && LocalPlaced(packages[k], other, SavedInto(isPeer, isDev))
        ensures LocalPlaced(LocalStep(packages, aliases, depKey, target, isPeer, isDev, depPath, false).value[k],
                            other, SavedInto(isPeer, isDev))
      {
        if k == key {
          LocalEditKeeps(pkg, dep.name, other, isPeer, isDev);
        }
      }
    }
  }

  lemma {:induction false} LocalTargetsPlaces(packages: Packages, aliases: Aliases, depKey: string, targets: seq<string>,
                                              isPeer: bool, isDev: bool, depPath: seq<string>)
    requires depKey in packages
    requires LocalTargets(packages, aliases, depKey, targets, isPeer, isDev, depPath, false).Ok?
    ensures var ps := LocalTargets(packages, aliases, depKey, targets, isPeer, isDev, depPath, false).value;
            Edited(packages, ps) &&
            (forall t :: t in targets ==>
                           Lookup(packages, aliases, t).Ok? &&
                           (packages[depKey].name != packages[Lookup(packages, aliases, t).value].name ==>
                              LocalPlaced(ps[Lookup(packages, aliases, t).value], packages[depKey].name, SavedInto(isPeer, isDev)))) &&
            (forall k, other :: k in packages && LocalPlaced(packages[k], other, SavedInto(isPeer, isDev)) ==>
                                  LocalPlaced(ps[k], other, SavedInto(isPeer, isDev)))
    decreases |targets|
  {
    if targets != [] {
      var next := LocalStep(packages, aliases, depKey, targets[0], isPeer, isDev, depPath, false).value;
      LocalStepMeaning(packages, aliases, depKey, targets[0], isPeer, isDev, depPath, false);
      LocalStepKeeps(packages, aliases, depKey, targets[0], isPeer, isDev, depPath);
      LocalTargetsPlaces(next, aliases, depKey, targets[1..], isPeer, isDev, depPath);
      var ps := LocalTargets(next, aliases, depKey, targets[1..], isPeer, isDev, depPath, false).value;
      assert LocalTargets(packages, aliases, depKey, targets, isPeer, isDev, depPath, false).value == ps;
      EditedTransitive(packages, next, ps);
      forall t | t in targets
        ensures Lookup(packages, aliases, t).Ok? &&
                (packages[depKey].name != packages[Lookup(packages, aliases, t).value].name ==>
                   LocalPlaced(ps[Lookup(packages, aliases, t).value], packages[depKey].name, SavedInto(isPeer, isDev)))
      {
        LookupKeys(packages, next, aliases, t);
        if t != targets[0] {
          assert t in targets[1..];
        }
      }
    }
  }

  /** After the local branch (saving), each local dependency is recorded,
      as the placeholder, in exactly the record `SavedInto` picks of every
      target other than itself. */
  lemma {:induction false} LocalPassPlaces(packages: Packages, aliases: Aliases, local: seq<string>, targets: seq<string>,
                                           isPeer: bool, isDev: bool, depPath: seq<string>)
    requires LocalPass(packages, aliases, local, targets, isPeer, isDev, depPath, false).Ok?
    ensures var ps := LocalPass(packages, aliases, local, targets, isPeer, isDev, depPath, false).value;
            Edited(packages, ps) &&
            (forall d, t :: d in local && t in targets ==>
                              Lookup(packages, aliases, d).Ok? && Lookup(packages, aliases, t).Ok? &&
                              (packages[Lookup(packages, aliases, d).value].name != packages[Lookup(packages, aliases, t).value].name ==>
                                 LocalPlaced(ps[Lookup(packages, aliases, t).value],
                                             packages[Lookup(packages, aliases, d).value].name, SavedInto(isPeer, isDev))))
    ensures var ps := LocalPass(packages, aliases, local, targets, isPeer, isDev, depPath, false).value;
            forall k, other :: k in packages && LocalPlaced(packages[k], other, SavedInto(isPeer, isDev)) ==>
                                 LocalPlaced(ps[k], other, SavedInto(isPeer, isDev))
    decreases |local|
  {
    if local != [] {
      var depKey := Lookup(packages, aliases, local[0]).value;
      var next := LocalTargets(packages, aliases, depKey, targets, isPeer, isDev, depPath, false).value;
      LocalTargetsPlaces(packages, aliases, depKey, targets, isPeer, isDev, depPath);
      LocalPassPlaces(next, aliases, local[1..], targets, isPeer, isDev, depPath);
      var ps := LocalPass(next, aliases, local[1..], targets, isPeer, isDev, depPath, false).value;
      assert LocalPass(packages, aliases, local, targets, isPeer, isDev, depPath, false).value == ps;
      EditedTransitive(packages, next, ps);
      forall d, t | d in local && t in targets
        ensures Lookup(packages, aliases, d).Ok? && Lookup(packages, aliases, t).Ok? &&
                (packages[Lookup(packages, aliases, d).value].name != packages[Lookup(packages, aliases, t).value].name ==>
                   LocalPlaced(ps[Lookup(packages, aliases, t).value],
                               packages[Lookup(packages, aliases, d).value].name, SavedInto(isPeer, isDev)))
      {
        LookupKeys(packages, next, aliases, t);
        LookupKeys(packages, next, aliases, d);
        if d != local[0] {
          assert d in local[1..];
          var dk := Lookup(packages, aliases, d).value;
          assert next[dk].name == packages[dk].name;
        }
      }
    }
  }

  /** Everything `install` does to the registry: lowercase the arguments,
      settle the targets, then the external and the local branch. */
  function InstallEdits(packages: Packages, aliases: Aliases, names: seq<string>, deps: seq<string>, pkgs: seq<string>,
                        isPeer: bool, isDev: bool, depPath: seq<string>, noSave: bool): Result<Packages>
  {
    var targets :- Targets(packages, aliases, names, LowerAll(pkgs));
    InstallBranches(packages, aliases, LowerAll(deps), targets, isPeer, isDev, depPath, noSave)
  }

  /** The external, then the local branch of `install` over settled targets. */
  function InstallBranches(packages: Packages, aliases: Aliases, ds: seq<string>, targets: seq<string>,
                           isPeer: bool, isDev: bool, depPath: seq<string>, noSave: bool): Result<Packages>
  {
    var ps :- ExternalPass(packages, aliases, Remote(packages, aliases, ds), targets, isPeer, isDev);
    LocalPass(ps, aliases, Local(packages, aliases, ds), targets, isPeer, isDev, depPath, noSave)
  }

  /** An install of registered packages only, without saving, leaves the
      registry as it was (as the nested and bootstrap installs are). */
  lemma QuietInstall(packages: Packages, aliases: Aliases, names: seq<string>, deps: seq<string>, pkgs: seq<string>,
                     isPeer: bool, isDev: bool, depPath: seq<string>)
    requires LowerKeys(packages) && NoAliasKeys(packages)
    requires forall d :: d in deps ==> d in packages
    requires InstallEdits(packages, aliases, names, deps, pkgs, isPeer, isDev, depPath, true).Ok?
    ensures InstallEdits(packages, aliases, names, deps, pkgs, isPeer, isDev, depPath, true).value == packages
  {
    var ds := LowerAll(deps);
    KeysAreLocal(packages, aliases, deps);
    var targets := Targets(packages, aliases, names, LowerAll(pkgs)).value;
    LocalPassQuiet(packages, aliases, Local(packages, aliases, ds), targets, isPeer, isDev, depPath);
  }

  // ---------------------------------------------------------------------
  // The registry edits of `uninstall`

  function RemoteOne(packages: Packages, aliases: Aliases, dep: string, targets: seq<string>): (r: Result<Packages>)
    ensures r.Ok? ==> r.value.Keys == packages.Keys
    decreases |targets|
  {
    if targets == [] then Ok(packages)
    else
      var key :- Lookup(packages, aliases, targets[0]);
      var p :- Unrecord(packages[key], dep);
      RemoteOne(packages[key := p], aliases, dep, targets[1..])
  }

  /** The record edits of `_uninstallRemoteDeps`: each dependency in turn
      is deleted from the three records of every target. */
  function RemotePass(packages: Packages, aliases: Aliases, remote: seq<string>, targets: seq<string>): (r: Result<Packages>)
    ensures r.Ok? ==> r.value.Keys == packages.Keys
    decreases |remote|
  {
    if remote == [] then Ok(packages)
    else
      var ps :- RemoteOne(packages, aliases, remote[0], targets);
      RemotePass(ps, aliases, remote[1..], targets)
  }

  lemma UnrecordStepKeeps(packages: Packages, key: string, dep: string)
    requires key in packages && Unrecord(packages[key], dep).Ok?
    ensures var next := packages[key := Unrecord(packages[key], dep).value];
            Edited(packages, next) &&
            Cleared(next[key], dep) &&
            forall k, other :: k in packages && Cleared(packages[k], other) ==> Cleared(next[k], other)
  {
    UnrecordMeaning(packages[key], dep);
    EditOneKey(packages, key, Unrecord(packages[key], dep).value);
    forall k, other | k in packages && Cleared(packages[k], other)
      ensures Cleared(packages[key := Unrecord(packages[key], dep).value][k], other)
    {
      if k == key {
        UnrecordKeeps(packages[key], dep, other);
      }
    }
  }

  lemma {:induction false} RemoteOneClears(packages: Packages, aliases: Aliases, dep: string, targets: seq<string>)
    requires RemoteOne(packages, aliases, dep, targets).Ok?
    ensures var ps := RemoteOne(packages, aliases, dep, targets).value;
            Edited(packages, ps) &&
            (forall t :: t in targets ==>
                           Lookup(packages, aliases, t).Ok? && Cleared(ps[Lookup(packages, aliases, t).value], dep)) &&
            (forall k, other :: k in packages && Cleared(packages[k], other) ==> Cleared(ps[k], other))
    decreases |targets|
  {
    if targets != [] {
      var key := Lookup(packages, aliases, targets[0]).value;
      var next := packages[key := Unrecord(packages[key], dep).value];
      UnrecordStepKeeps(packages, key, dep);
      RemoteOneClears(next, aliases, dep, targets[1..]);
      var ps := RemoteOne(next, aliases, dep, targets[1..]).value;
      assert RemoteOne(packages, aliases, dep, targets).value == ps;
      EditedTransitive(packages, next, ps);
      forall t | t in targets
        ensures Lookup(packages, aliases, t).Ok? && Cleared(ps[Lookup(packages, aliases, t).value], dep)
      {
        LookupKeys(packages, next, aliases, t);
        if t != targets[0] {
          assert t in targets[1..];
        }
      }
    }
  }

  /** After the remote removal, no target package's records mention any of
      the removed dependencies. */
  lemma {:induction false} RemotePassClears(packages: Packages, aliases: Aliases, remote: seq<string>, targets: seq<string>)
    requires RemotePass(packages, aliases, remote, targets).Ok?
    ensures var ps := RemotePass(packages, aliases, remote, targets).value;
            Edited(packages, ps) &&
            (forall dep, t :: dep in remote && t in targets ==>
                                Lookup(packages, aliases, t).Ok? && Cleared(ps[Lookup(packages, aliases, t).value], dep))
    ensures var ps := RemotePass(packages, aliases, remote, targets).value;
            forall k, other :: k in packages && Cleared(packages[k], other) ==> Cleared(ps[k], other)
    decreases |remote|
  {
    if remote != [] {
      var next := RemoteOne(packages, aliases, remote[0], targets).value;
      RemoteOneClears(packages, aliases, remote[0], targets);
      RemotePassClears(next, aliases, remote[1..], targets);
      var ps := RemotePass(next, aliases, remote[1..], targets).value;
      assert RemotePass(packages, aliases, remote, targets).value == ps;
      EditedTransitive(packages, next, ps);
      forall dep, t | dep in remote && t in targets
        ensures Lookup(packages, aliases, t).Ok? && Cleared(ps[Lookup(packages, aliases, t).value], dep)
      {
        LookupKeys(packages, next, aliases, t);
        if dep != remote[0] {
          assert dep in remote[1..];
        }
      }
    }
  }

  /** The record edits `_uninstallLocalDeps` makes in one target: each
      dependency, looked up, is deleted from the target's records unless
      it is the target itself. */
  function LocalDrop(packages: Packages, aliases: Aliases, key: string, deps: seq<string>): (r: Result<Packages>)
    requires key in packages
    ensures r.Ok? ==> r.value.Keys == packages.Keys
    decreases |deps|
  {
    if deps == [] then Ok(packages)
    else
      var depKey :- Lookup(packages, aliases, deps[0]);
      var dep := packages[depKey];
      if dep.name == packages[key].name then LocalDrop(packages, aliases, key, deps[1..])
      else
        var p :- Unrecord(packages[key], dep.name);
        LocalDrop(packages[key := p], aliases, key, deps[1..])
  }

  /** The record edits of `_uninstallLocalDeps`: every target in turn. */
  function LocalRemovePass(packages: Packages, aliases: Aliases, targets: seq<string>, deps: seq<string>): (r: Result<Packages>)
    ensures r.Ok? ==> r.value.Keys == packages.Keys
    decreases |targets|
  {
    if targets == [] then Ok(packages)
    else
      var key :- Lookup(packages, aliases, targets[0]);
      var ps :- LocalDrop(packages, aliases, key, deps);
      LocalRemovePass(ps, aliases, targets[1..], deps)
  }

  lemma {:induction false} LocalDropClears(packages: Packages, aliases: Aliases, key: string, deps: seq<string>)
    requires key in packages && LocalDrop(packages, aliases, key, deps).Ok?
    ensures var ps := LocalDrop(packages, aliases, key, deps).value;
            Edited(packages, ps) &&
            (forall d :: d in deps ==>
                           Lookup(packages, aliases, d).Ok? &&
                           (packages[Lookup(packages, aliases, d).value].name != packages[key].name ==>
                              Cleared(ps[key], packages[Lookup(packages, aliases, d).value].name))) &&
            (forall k, other :: k in packages && Cleared(packages[k], other) ==> Cleared(ps[k], other))
    decreases |deps|
  {
    if deps != [] {
      var depKey := Lookup(packages, aliases, deps[0]).value;
      var dep := packages[depKey];
      var next := if dep.name == packages[key].name then packages
                  else packages[key := Unrecord(packages[key], dep.name).value];
      if dep.name != packages[key].name {
        UnrecordStepKeeps(packages, key, dep.name);
      }
      LocalDropClears(next, aliases, key, deps[1..]);
      var ps := LocalDrop(next, aliases, key, deps[1..]).value;
      assert LocalDrop(packages, aliases, key, deps).value == ps;
      EditedTransitive(packages, next, ps);
      forall d | d in deps
        ensures Lookup(packages, aliases, d).Ok? &&
                (packages[Lookup(packages, aliases, d).value].name != packages[key].name ==>
                   Cleared(ps[key], packages[Lookup(packages, aliases, d).value].name))
      {
        LookupKeys(packages, next, aliases, d);
        if d != deps[0] {
          assert d in deps[1..];
          var dk := Lookup(packages, aliases, d).value;
          assert next[dk].name == packages[dk].name && next[key].name == packages[key].name;
        }
      }
    }
  }

  /** After the local removal, no target's records mention any removed
      local package other than the target itself. */
  lemma {:induction false} LocalRemovePassClears(packages: Packages, aliases: Aliases, targets: seq<string>, deps: seq<string>)
    requires LocalRemovePass(packages, aliases, targets, deps).Ok?
    ensures var ps := LocalRemovePass(packages, aliases, targets, deps).value;
            Edited(packages, ps) &&
            (forall t, d :: t in targets && d in deps ==>
                              Lookup(packages, aliases, t).Ok? && Lookup(packages, aliases, d).Ok? &&
                              (packages[Lookup(packages, aliases, d).value].name != packages[Lookup(packages, aliases, t).value].name ==>
                                 Cleared(ps[Lookup(packages, aliases, t).value], packages[Lookup(packages, aliases, d).value].name)))
    ensures var ps := LocalRemovePass(packages, aliases, targets, deps).value;
            forall k, other :: k in packages && Cleared(packages[k], other) ==> Cleared(ps[k], other)
    decreases |targets|
  {
    if targets != [] {
      var key := Lookup(packages, aliases, targets[0]).value;
      var next := LocalDrop(packages, aliases, key, deps).value;
      LocalDropClears(packages, aliases, key, deps);
      LocalRemovePassClears(next, aliases, targets[1..], deps);
      var ps := LocalRemovePass(next, aliases, targets[1..], deps).value;
      assert LocalRemovePass(packages, aliases, targets, deps).value == ps;
      EditedTransitive(packages, next, ps);
      forall t, d | t in targets && d in deps
        ensures Lookup(packages, aliases, t).Ok? && Lookup(packages, aliases, d).Ok? &&
                (packages[Lookup(packages, aliases, d).value].name != packages[Lookup(packages, aliases, t).value].name ==>
                   Cleared(ps[Lookup(packages, aliases, t).value], packages[Lookup(packages, aliases, d).value].name))
      {
        LookupKeys(packages, next, aliases, t);
        LookupKeys(packages, next, aliases, d);
        var dk := Lookup(packages, aliases, d).value;
        var tk := Lookup(packages, aliases, t).value;
        assert next[dk].name == packages[dk].name && next[tk].name == packages[tk].name;
        if t != targets[0] {
          assert t in targets[1..];
        }
      }
    }
  }

  // ---------------------------------------------------------------------
  // reload

  /** The index `reload` builds: the registry, its names in the order they
      were first registered, and the alias table. */
  datatype Index = Index(packages: Packages, names: seq<string>, aliases: Aliases)

  const EmptyIndex := Index(map[], [], map[])

  /** What a consistent index looks like: the names list the registry's
      keys once each, every key is lowercase and the name of the package
      stored under it, and every alias is lowercase and names a package. */
  predicate ValidIndex(ix: Index) {
    NamesList(ix.packages, ix.names) && ValidAliases(ix.packages, ix.aliases)
  }

  predicate NamesList(packages: Packages, names: seq<string>) {
    packages.Keys == (set k | k in names) &&
    (forall i, j :: 0 <= i < j < |names| ==> names[i] != names[j]) &&
    LowerKeys(packages) &&
    (forall k :: k in packages ==> packages[k].name == k)
  }

  predicate ValidAliases(packages: Packages, aliases: Aliases) {
    forall a :: a in aliases ==> ToLower(a) == a && aliases[a] in packages
  }

  /** An error thrown while one directory is loaded: a registered error
      passes through, anything else becomes `INVALID_PACKAGE` naming the
      directory. */
  function AsPackageError(e: Error, path: string): (r: Error)
    ensures r.InvalidPackage? || r == e
    ensures IsRegistered(r)
  {
    if IsRegistered(e) then e else InvalidPackage(path)
  }

  /** A directory as `reload` loads it: the package read from it and the
      names handed to the dependency counter for it. */
  type Loaded = Result<(Package, seq<string>)>

  /** Reading one directory and listing the package's declared
      dependencies; a failure of either becomes the error `reload` throws. */
  function Load(d: Disk, path: string): (r: Loaded)
    ensures r.Err? ==> IsRegistered(r.error) && (r.error.InvalidPackage? || r.error.InvalidJsonFile?)
    ensures r.Ok? <==> Read(d, path).Ok? && ExtractDeps(Read(d, path).value, false).Ok?
    ensures r.Ok? ==> r.value == (Read(d, path).value, ExtractDeps(Read(d, path).value, false).value)
  {
    match Read(d, path)
    case Err(e) => Err(AsPackageError(e, path))
    case Ok(pkg) =>
      match ExtractDeps(pkg, false)
      case Err(e) => Err(AsPackageError(e, path))
      case Ok(deps) => Ok((pkg, deps))
  }

  function LoadAll(d: Disk, paths: seq<string>): (r: seq<Loaded>)
    ensures |r| == |paths| && forall i :: 0 <= i < |paths| ==> r[i] == Load(d, paths[i])
  {
    seq(|paths|, i requires 0 <= i < |paths| => Load(d, paths[i]))
  }

  /** The lowercased alias a package declares: its `ottoia:alias` when
      that is a truthy string. */
  function DeclaredAlias(pkg: Package): Option<string> {
    if pkg.alias.Some? && Truthy(pkg.alias.value) && pkg.alias.value.JStr? then Some(ToLower(pkg.alias.value.s))
    else None
  }

  /** One turn of the loop of `reload`: what is handed to the dependency
      counter (before anything can fail on the alias) and the index
      afterwards. The package is stored under its name, a new name is
      appended to the names. An alias that is truthy but not a string
      fails on lowercasing; an alias already held by a package with a
      non-empty name is `DUP_PACKAGE_ALIAS` naming both packages. */
  function Admit(path: string, loaded: Loaded, ix: Index): (r: (Option<(string, seq<string>)>, Result<Index>))
    ensures loaded.Err? ==> r == (None, Err(loaded.error))
    ensures loaded.Ok? && r.1.Err? ==> IsRegistered(r.1.error)
    ensures r.0.Some? <==> loaded.Ok?
    ensures r.0.Some? ==> r.0.value == (loaded.value.0.name, loaded.value.1)
    ensures loaded.Ok? && r.1.Err? && r.1.error.DupPackageAlias? ==>
              r.0.Some? && |r.1.error.packages| == 2 && r.1.error.packages[0] == r.0.value.0
  {
    match loaded
    case Err(e) => (None, Err(e))
    case Ok((pkg, deps)) =>
      var add := Some((pkg.name, deps));
      var names := if pkg.name in ix.packages then ix.names else ix.names + [pkg.name];
      if pkg.alias.None? || !Truthy(pkg.alias.value) then
        (add, Ok(Index(ix.packages[pkg.name := pkg], names, ix.aliases)))
      else if !pkg.alias.value.JStr? then (add, Err(InvalidPackage(path)))
      else
        var a := ToLower(pkg.alias.value.s);
        if a in ix.aliases && ix.aliases[a] != "" then
          (add, Err(DupPackageAlias(a, [pkg.name, ix.aliases[a]])))
        else
          (add, Ok(Index(ix.packages[pkg.name := pkg.(alias := Some(JStr(a)))], names, ix.aliases[a := pkg.name])))
  }

  /** The loop of `reload` over the remaining directories: everything
      handed to the counter, in order, and the final index or the first
      error. */
  function ReloadOver(paths: seq<string>, loads: seq<Loaded>, ix: Index): (r: (seq<(string, seq<string>)>, Result<Index>))
    requires |loads| == |paths|
    decreases |paths|
  {
    if paths == [] then ([], Ok(ix))
    else
      var (add, next) := Admit(paths[0], loads[0], ix);
      var now := if add.Some? then [add.value] else [];
      if next.Err? then (now, next)
      else
        var (rest, fin) := ReloadOver(paths[1..], loads[1..], next.value);
        (now + rest, fin)
  }

  /** `reload` over the directories found: the counter's inputs and the
      new index, or the error thrown. */
  function Reload(d: Disk, paths: seq<string>): (seq<(string, seq<string>)>, Result<Index>)
  {
    ReloadOver(paths, LoadAll(d, paths), EmptyIndex)
  }

  /** The directories `reload` visits: the scan of the packages root, or
      none at all when the scan fails. */
  function ScanPaths(d: Disk, pkgRoot: string): seq<string> {
    match ScanDir(d, pkgRoot)
    case Ok(ps) => ps
    case Err(_) => []
  }

  /** A package read from disk has a lowercase name. */
  lemma ReadLower(d: Disk, path: string)
    requires Read(d, path).Ok?
    ensures ToLower(Read(d, path).value.name) == Read(d, path).value.name
  {
    var j := ReadJsonFile(d, Concat(path, ManifestName)).value;
    ToLowerIdempotent(j.fields["name"].s);
  }

  lemma ExtendNames(packages: Packages, names: seq<string>, q: Package)
    requires NamesList(packages, names) && ToLower(q.name) == q.name
    ensures NamesList(packages[q.name := q], if q.name in packages then names else names + [q.name])
  {
    var ns := if q.name in packages then names else names + [q.name];
    assert forall k :: k in ns <==> k in names || k == q.name;
    assert (set k | k in ns) == (set k | k in names) + {q.name};
    forall i, j | 0 <= i < j < |ns| ensures ns[i] != ns[j] {
      assert ns[i] == names[i] && names[i] in names;
      assert names[i] in packages.Keys;
      if j < |names| {
        assert ns[j] == names[j];
      }
    }
  }

  lemma ExtendAliases(packages: Packages, aliases: Aliases, q: Package, alias: Option<string>)
    requires ValidAliases(packages, aliases)
    requires alias.Some? ==> ToLower(alias.value) == alias.value
    ensures ValidAliases(packages[q.name := q], if alias.Some? then aliases[alias.value := q.name] else aliases)
  {
    var ps := packages[q.name := q];
    var als := if alias.Some? then aliases[alias.value := q.name] else aliases;
    forall a | a in als ensures ToLower(a) == a && als[a] in ps {
      if alias.None? || a != alias.value {
        assert a in aliases && als[a] == aliases[a];
      }
    }
  }

  /** Storing a package under its own lowercase name, and possibly a
      lowercase alias for it, keeps an index consistent. */
  lemma ExtendValid(ix: Index, q: Package, alias: Option<string>)
    requires ValidIndex(ix) && ToLower(q.name) == q.name
    requires alias.Some? ==> ToLower(alias.value) == alias.value
    ensures ValidIndex(Index(ix.packages[q.name := q],
                             if q.name in ix.packages then ix.names else ix.names + [q.name],
                             if alias.Some? then ix.aliases[alias.value := q.name] else ix.aliases))
  {
    ExtendNames(ix.packages, ix.names, q);
    ExtendAliases(ix.packages, ix.aliases, q, alias);
  }

  /** Every package loaded has a lowercase name. */
  predicate LowerLoads(loads: seq<Loaded>) {
    forall i :: 0 <= i < |loads| && loads[i].Ok? ==> ToLower(loads[i].value.0.name) == loads[i].value.0.name
  }

  lemma LoadAllLower(d: Disk, paths: seq<string>)
    ensures LowerLoads(LoadAll(d, paths))
  {
    forall i | 0 <= i < |paths| && LoadAll(d, paths)[i].Ok?
      ensures ToLower(LoadAll(d, paths)[i].value.0.name) == LoadAll(d, paths)[i].value.0.name
    {
      ReadLower(d, paths[i]);
    }
  }

  lemma AdmitValid(path: string, loaded: Loaded, ix: Index)
    requires ValidIndex(ix) && Admit(path, loaded, ix).1.Ok?
    requires loaded.Ok? ==> ToLower(loaded.value.0.name) == loaded.value.0.name
    ensures ValidIndex(Admit(path, loaded, ix).1.value)
  {
    var pkg := loaded.value.0;
    if pkg.alias.None? || !Truthy(pkg.alias.value) {
      ExtendValid(ix, pkg, None);
    } else {
      var a := ToLower(pkg.alias.value.s);
      ToLowerIdempotent(pkg.alias.value.s);
      ExtendValid(ix, pkg.(alias := Some(JStr(a))), Some(a));
    }
  }

  lemma {:induction false} ReloadOverValid(paths: seq<string>, loads: seq<Loaded>, ix: Index)
    requires |loads| == |paths| && LowerLoads(loads)
    requires ValidIndex(ix) && ReloadOver(paths, loads, ix).1.Ok?
    ensures ValidIndex(ReloadOver(paths, loads, ix).1.value)
    decreases |paths|
  {
    if paths != [] {
      AdmitValid(paths[0], loads[0], ix);
      assert LowerLoads(loads[1..]) by {
        forall i | 0 <= i < |loads[1..]| && loads[1..][i].Ok?
          ensures ToLower(loads[1..][i].value.0.name) == loads[1..][i].value.0.name
        {
          assert loads[1..][i] == loads[i + 1];
        }
      }
      ReloadOverValid(paths[1..], loads[1..], Admit(paths[0], loads[0], ix).1.value);
    }
  }

  /** Whatever directories are found, a successful `reload` yields a
      consistent index. */
  lemma ReloadValid(d: Disk, paths: seq<string>)
    requires Reload(d, paths).1.Ok?
    ensures ValidIndex(Reload(d, paths).1.value)
  {
    LoadAllLower(d, paths);
    ReloadOverValid(paths, LoadAll(d, paths), EmptyIndex);
  }

  /** Each package admitted is registered under its name and its declared
      alias, once lowercased, leads to it; aliases taken earlier keep their
      owners. */
  lemma AdmitRegisters(path: string, loaded: Loaded, ix: Index)
    requires Admit(path, loaded, ix).1.Ok? && loaded.Ok?
    ensures var pkg, ix' := loaded.value.0, Admit(path, loaded, ix).1.value;
            pkg.name in ix'.packages &&
            (DeclaredAlias(pkg).Some? ==> DeclaredAlias(pkg).value in ix'.aliases &&
                                          ix'.aliases[DeclaredAlias(pkg).value] == pkg.name &&
                                          ix'.packages[pkg.name].alias == Some(JStr(DeclaredAlias(pkg).value))) &&
            (forall a :: a in ix.aliases && ix.aliases[a] != "" ==> a in ix'.aliases && ix'.aliases[a] == ix.aliases[a])
  {
  }

  /** The load result declares alias `a`. */
  predicate Declares(loaded: Loaded, a: string) {
    loaded.Ok? && DeclaredAlias(loaded.value.0) == Some(a)
  }

  /** The index after the first directory, if admitting it succeeds. */
  lemma ReloadOverTail(paths: seq<string>, loads: seq<Loaded>, ix: Index) returns (next: Option<Index>)
    requires paths != [] && |loads| == |paths|
    ensures next.None? ==> ReloadOver(paths, loads, ix).1.Err?
    ensures next.Some? ==> ReloadOver(paths, loads, ix).1 == ReloadOver(paths[1..], loads[1..], next.value).1
    ensures next.Some? ==> Admit(paths[0], loads[0], ix).1 == Ok(next.value)
  {
    var step := Admit(paths[0], loads[0], ix);
    next := if step.1.Ok? then Some(step.1.value) else None;
  }

  /** Once an alias is held by a package with a non-empty name, a later
      directory declaring it makes the loop fail. */
  lemma {:induction false} AliasTakenRefuses(paths: seq<string>, loads: seq<Loaded>, ix: Index, j: nat, a: string)
    requires |loads| == |paths| && j < |paths|
    requires a in ix.aliases && ix.aliases[a] != "" && Declares(loads[j], a)
    ensures ReloadOver(paths, loads, ix).1.Err?
    decreases |paths|
  {
    assert j > 0 ==> loads[1..][j - 1] == loads[j];
    var next := ReloadOverTail(paths, loads, ix);
    if j > 0 && next.Some? {
      AdmitRegisters(paths[0], loads[0], ix);
      AliasTakenRefuses(paths[1..], loads[1..], next.value, j - 1, a);
    }
  }

  /** Two directories whose packages declare the same alias, up to case,
      make the loop fail (when the first of them has a non-empty name). */
  lemma {:induction false} SharedAliasRefused(paths: seq<string>, loads: seq<Loaded>, ix: Index, i: nat, j: nat, a: string)
    requires |loads| == |paths| && i < j < |paths|
    requires Declares(loads[i], a) && Declares(loads[j], a) && loads[i].value.0.name != ""
    ensures ReloadOver(paths, loads, ix).1.Err?
    decreases |paths|
  {
    assert loads[1..][j - 1] == loads[j];
    assert i > 0 ==> loads[1..][i - 1] == loads[i];
    var next := ReloadOverTail(paths, loads, ix);
    if next.Some? {
      if i == 0 {
        AdmitRegisters(paths[0], loads[0], ix);
        AliasTakenRefuses(paths[1..], loads[1..], next.value, j - 1, a);
      } else {
        SharedAliasRefused(paths[1..], loads[1..], next.value, i - 1, j - 1, a);
      }
    }
  }

  /** A directory that loads, with an alias that is absent, falsy or a
      string: admitting it can only fail on an alias already taken. */
  predicate Admissible(loaded: Loaded) {
    loaded.Ok? && (loaded.value.0.alias.None? || !Truthy(loaded.value.0.alias.value) || loaded.value.0.alias.value.JStr?)
  }

  /** When every directory is admissible, the only way the loop fails is
      `DUP_PACKAGE_ALIAS`. */
  lemma {:induction false} OnlyAliasClashFails(paths: seq<string>, loads: seq<Loaded>, ix: Index)
    requires |loads| == |paths|
    requires forall k :: 0 <= k < |loads| ==> Admissible(loads[k])
    ensures ReloadOver(paths, loads, ix).1.Err? ==> ReloadOver(paths, loads, ix).1.error.DupPackageAlias?
    decreases |paths|
  {
    if paths != [] {
      var step := Admit(paths[0], loads[0], ix);
      assert Admissible(loads[0]);
      if step.1.Ok? {
        assert forall k :: 0 <= k < |loads[1..]| ==> loads[1..][k] == loads[k + 1];
        OnlyAliasClashFails(paths[1..], loads[1..], step.1.value);
      }
    }
  }

  /** Two package directories that declare the same alias, up to case,
      make `reload` fail (when the first package has a non-empty name);
      when every directory loads with a well-typed alias, the failure is
      `DUP_PACKAGE_ALIAS`. */
  lemma ReloadRefusesSharedAlias(d: Disk, paths: seq<string>, i: nat, j: nat, a: string)
    requires i < j < |paths|
    requires Declares(Load(d, paths[i]), a) && Declares(Load(d, paths[j]), a)
    requires Load(d, paths[i]).value.0.name != ""
    ensures Reload(d, paths).1.Err?
    ensures (forall k :: 0 <= k < |paths| ==> Admissible(Load(d, paths[k]))) ==>
              Reload(d, paths).1.error.DupPackageAlias?
  {
    SharedAliasRefused(paths, LoadAll(d, paths), EmptyIndex, i, j, a);
    if forall k :: 0 <= k < |paths| ==> Admissible(Load(d, paths[k])) {
      OnlyAliasClashFails(paths, LoadAll(d, paths), EmptyIndex);
    }
  }

  /** The counter is told about a package before its alias is checked:
      when `reload` fails on a duplicate alias, the last package handed to
      the counter is the one that failed. */
  lemma {:induction false} CountsBeforeAliasCheck(paths: seq<string>, loads: seq<Loaded>, ix: Index)
    requires |loads| == |paths|
    requires forall i :: 0 <= i < |loads| && loads[i].Err? ==> !loads[i].error.DupPackageAlias?
    requires ReloadOver(paths, loads, ix).1.Err? && ReloadOver(paths, loads, ix).1.error.DupPackageAlias?
    ensures var adds, e := ReloadOver(paths, loads, ix).0, ReloadOver(paths, loads, ix).1.error;
            |adds| > 0 && |e.packages| == 2 && adds[|adds| - 1].0 == e.packages[0]
    decreases |paths|
  {
    var step := Admit(paths[0], loads[0], ix);
    if step.1.Ok? {
      assert forall i :: 0 <= i < |loads[1..]| ==> loads[1..][i] == loads[i + 1];
      CountsBeforeAliasCheck(paths[1..], loads[1..], step.1.value);
      var rest := ReloadOver(paths[1..], loads[1..], step.1.value).0;
      var now := if step.0.Some? then [step.0.value] else [];
      assert ReloadOver(paths, loads, ix).0 == now + rest;
    }
  }

  lemma ReloadCountsBeforeAliasCheck(d: Disk, paths: seq<string>)
    requires Reload(d, paths).1.Err? && Reload(d, paths).1.error.DupPackageAlias?
    ensures var adds, e := Reload(d, paths).0, Reload(d, paths).1.error;
            |adds| > 0 && |e.packages| == 2 && adds[|adds| - 1].0 == e.packages[0]
  {
    CountsBeforeAliasCheck(paths, LoadAll(d, paths), EmptyIndex);
  }
}
