/** `OttoiaManager` (src/lib/Manager.ts): the registry of sub-packages,
    their alias table and the dependency counter, and the operations that
    reload, create, install, uninstall and release packages through the
    npm gateway and the file system. */
module Manager {
  import opened Errors
  import opened Text
  import opened Json
  import opened Disk
  import opened PackageUtils
  import opened Registry
  import opened NpmHelper
  import opened DependencyCounter
  import opened Release

  // ---------------------------------------------------------------------
  // The counter's inputs, folded

  /** The counter after `add(name, deps)` for each pair in turn. */
  function AddAll(t: Table, adds: seq<(string, seq<string>)>): (r: Table)
    decreases |adds|
  {
    if adds == [] then t
    else
      var last := adds[|adds| - 1];
      AfterAdd(AddAll(t, adds[..|adds| - 1]), Pkg(last.0), last.1)
  }

  lemma AddAllSnoc(t: Table, adds: seq<(string, seq<string>)>, x: (string, seq<string>))
    ensures AddAll(t, adds + [x]) == AfterAdd(AddAll(t, adds), Pkg(x.0), x.1)
  {
    assert (adds + [x])[..|adds|] == adds;
  }

  /** Reloading keeps the counter valid, and keeps the global bucket the
      sum of the package buckets. */
  lemma {:induction false} AddAllConsistent(t: Table, adds: seq<(string, seq<string>)>)
    requires Consistent(t)
    ensures Consistent(AddAll(t, adds)) && ValidTable(AddAll(t, adds))
    decreases |adds|
  {
    if adds != [] {
      var last := adds[|adds| - 1];
      AddAllConsistent(t, adds[..|adds| - 1]);
      AddKeepsConsistent(AddAll(t, adds[..|adds| - 1]), last.0, last.1);
    }
  }

  /** `remove(name, deps)` for each name in turn. */
  function RemoveEach(t: Table, owners: seq<string>, deps: seq<string>): (r: Table)
    requires ValidTable(t)
    ensures ValidTable(r)
    decreases |owners|
  {
    if owners == [] then t
    else
      var prev := RemoveEach(t, owners[..|owners| - 1], deps);
      RemoveFloors(prev, Pkg(owners[|owners| - 1]), deps, "");
      AfterRemove(prev, Pkg(owners[|owners| - 1]), deps)
  }

  /** The counter changes of `_uninstallRemoteDeps`: for each of the
      `rounds` dependencies, every target removes the whole list. */
  function RemoteCounts(t: Table, rounds: nat, targets: seq<string>, deps: seq<string>): (r: Table)
    requires ValidTable(t)
    ensures ValidTable(r)
  {
    if rounds == 0 then t else RemoveEach(RemoteCounts(t, rounds - 1, targets, deps), targets, deps)
  }

  /** The table every package's manifest describes here: `a` and `b` for
      `p`, `a` for `q`. */
  const SharedTable: Table :=
    map[Global := map["a" := 2, "b" := 1], Pkg("p") := map["a" := 1, "b" := 1], Pkg("q") := map["a" := 1]]

  /** The shared table is one `reload` could build: its global bucket is
      the sum of the package buckets. */
  lemma SharedTableConsistent()
    ensures Consistent(SharedTable)
  {
    var t := SharedTable;
    assert PkgOwners(t) == {Pkg("p"), Pkg("q")};
    forall d ensures Get(t[Global], d) == Total(t, d) {
      SumCountsPick(t, {Pkg("p"), Pkg("q")}, d, Pkg("p"));
      SumCountsPick(t, {Pkg("q")}, d, Pkg("q"));
      assert {Pkg("p"), Pkg("q")} - {Pkg("p")} == {Pkg("q")};
      assert {Pkg("q")} - {Pkg("q")} == {};
    }
  }

  /** The table after both rounds of `_uninstallRemoteDeps(["a", "b"], ["p"])`. */
  lemma SharedRounds() returns (after: Table)
    ensures ValidTable(SharedTable)
    ensures after == RemoteCounts(SharedTable, 2, ["p"], ["a", "b"])
    ensures Get(after[Global], "a") == 0 && BucketOf(after, Pkg("q")) == map["a" := 1]
  {
    var t, deps := SharedTable, ["a", "b"];
    assert multiset(deps)["a"] == 1;
    var once := AfterRemove(t, Pkg("p"), deps);
    RemoveFloors(t, Pkg("p"), deps, "a");
    var twice := AfterRemove(once, Pkg("p"), deps);
    RemoveFloors(once, Pkg("p"), deps, "a");
    RemoteCountsTwice(t, ["p"], deps);
    RemoveEachSingle(t, "p", deps);
    RemoveEachSingle(once, "p", deps);
    after := twice;
  }

  lemma RemoveEachSingle(t: Table, o: string, deps: seq<string>)
    requires ValidTable(t)
    ensures RemoveEach(t, [o], deps) == AfterRemove(t, Pkg(o), deps)
  {
    assert [o][..0] == [];
  }

  lemma RemoteCountsTwice(t: Table, targets: seq<string>, deps: seq<string>)
    requires ValidTable(t)
    ensures RemoteCounts(t, 2, targets, deps) == RemoveEach(RemoveEach(t, targets, deps), targets, deps)
  {
    assert RemoteCounts(t, 1, targets, deps) == RemoveEach(t, targets, deps);
  }

  /** Uninstalling `a` and `b` from `p` alone drops `a` from the global
      count, and so from the root install, although `q` still depends on
      it: every round removes the whole list again. */
  lemma UninstallDropsSharedDependency()
    ensures Consistent(SharedTable)
    ensures Reach(SharedTable, Pkg("q"), [], "a") >= 1
    ensures var after := RemoteCounts(SharedTable, 2, ["p"], ["a", "b"]);
            Get(after[Global], "a") == 0 && BucketOf(after, Pkg("q")) == map["a" := 1] && !Consistent(after)
  {
    SharedTableConsistent();
    ReachAtLeastDirect(SharedTable, Pkg("q"), [], "a");
    var after := SharedRounds();
    TotalBounds(after, "q", "a");
  }

  /** The loop of `reload` after `i` directories: what was handed to the
      counter so far and what the rest of the loop does make up the whole
      fold. */
  predicate ReloadAt(paths: seq<string>, loads: seq<Loaded>, i: nat, ix: Index,
                     adds: seq<(string, seq<string>)>, full: (seq<(string, seq<string>)>, Result<Index>))
    requires |loads| == |paths| && i <= |paths|
  {
    var tail := ReloadOver(paths[i..], loads[i..], ix);
    adds + tail.0 == full.0 && tail.1 == full.1
  }

  /** One turn of the loop of `reload` keeps the fold, or ends it. */
  lemma ReloadAdvance(paths: seq<string>, loads: seq<Loaded>, i: nat, ix: Index,
                      adds: seq<(string, seq<string>)>, full: (seq<(string, seq<string>)>, Result<Index>),
                      add: Option<(string, seq<string>)>, next: Result<Index>, adds': seq<(string, seq<string>)>)
    requires |loads| == |paths| && i < |paths|
    requires ReloadAt(paths, loads, i, ix, adds, full)
    requires (add, next) == Admit(paths[i], loads[i], ix)
    requires adds' == adds + if add.Some? then [add.value] else []
    ensures next.Err? ==> adds' == full.0 && next == full.1
    ensures next.Ok? ==> ReloadAt(paths, loads, i + 1, next.value, adds', full)
  {
    assert paths[i..][1..] == paths[i + 1..] && loads[i..][1..] == loads[i + 1..];
    var now := if add.Some? then [add.value] else [];
    if next.Ok? {
      var rest := ReloadOver(paths[i + 1..], loads[i + 1..], next.value);
      assert ReloadOver(paths[i..], loads[i..], ix).0 == now + rest.0;
      assert adds + now + rest.0 == adds + (now + rest.0);
    }
  }

  // ---------------------------------------------------------------------
  // The manager object

  // ---------------------------------------------------------------------
  // How a loop over the registry ends, against the function it follows

  /** The loop ends exactly as the function does: it passes when the
      function succeeds, leaving the registry the function computes, and
      otherwise fails with the same error. */
  predicate Matches(ps: Packages, r: Outcome, e: Result<Packages>) {
    (r.Pass? <==> e.Ok?) && (e.Ok? ==> ps == e.value) && (e.Err? ==> r == Fail(e.error))
  }

  /** The loop may also fail for reasons outside the function (a nested
      install, the file system), but it fails whenever the function does
      and passes only with the registry the function computes. */
  predicate Sound(ps: Packages, r: Outcome, e: Result<Packages>) {
    (e.Err? ==> r.Fail?) && (r.Pass? ==> e.Ok? && ps == e.value)
  }

  lemma ExternalOneStep(ps: Packages, aliases: Aliases, dep: string, targets: seq<string>, j: nat,
                        isPeer: bool, isDev: bool)
    requires j < |targets|
    ensures var tail := ExternalOne(ps, aliases, dep, targets[j..], isPeer, isDev);
            match Lookup(ps, aliases, targets[j])
            case Err(e) => tail == Err(e)
            case Ok(key) =>
              match ExternalEdit(ps[key], dep, isPeer, isDev)
              case Err(e) => tail == Err(e)
              case Ok(p) => tail == ExternalOne(ps[key := p], aliases, dep, targets[j + 1..], isPeer, isDev)
  {
    assert targets[j..][1..] == targets[j + 1..];
  }

  lemma ExternalPassStep(ps: Packages, aliases: Aliases, remote: seq<string>, targets: seq<string>, i: nat,
                         isPeer: bool, isDev: bool)
    requires i < |remote|
    ensures var tail := ExternalPass(ps, aliases, remote[i..], targets, isPeer, isDev);
            match ExternalOne(ps, aliases, remote[i], targets, isPeer, isDev)
            case Err(e) => tail == Err(e)
            case Ok(next) => tail == ExternalPass(next, aliases, remote[i + 1..], targets, isPeer, isDev)
  {
    assert remote[i..][1..] == remote[i + 1..];
  }

  lemma LocalTargetsStep(ps: Packages, aliases: Aliases, depKey: string, targets: seq<string>, j: nat,
                         isPeer: bool, isDev: bool, depPath: seq<string>, noSave: bool)
    requires j < |targets| && depKey in ps
    ensures var tail := LocalTargets(ps, aliases, depKey, targets[j..], isPeer, isDev, depPath, noSave);
            match LocalStep(ps, aliases, depKey, targets[j], isPeer, isDev, depPath, noSave)
            case Err(e) => tail == Err(e)
            case Ok(next) => tail == LocalTargets(next, aliases, depKey, targets[j + 1..], isPeer, isDev, depPath, noSave)
  {
    assert targets[j..][1..] == targets[j + 1..];
  }

  lemma LocalPassStep(ps: Packages, aliases: Aliases, local: seq<string>, targets: seq<string>, i: nat,
                      isPeer: bool, isDev: bool, depPath: seq<string>, noSave: bool)
    requires i < |local|
    ensures var tail := LocalPass(ps, aliases, local[i..], targets, isPeer, isDev, depPath, noSave);
            var found := Lookup(ps, aliases, local[i]);
            (found.Err? ==> tail == Err(found.error)) &&
            (found.Ok? ==>
               var step := LocalTargets(ps, aliases, found.value, targets, isPeer, isDev, depPath, noSave);
               (step.Err? ==> tail == Err(step.error)) &&
               (step.Ok? ==> tail == LocalPass(step.value, aliases, local[i + 1..], targets, isPeer, isDev, depPath, noSave)))
  {
    assert local[i..][1..] == local[i + 1..];
  }

  /** The registry's keys are exactly the listed names, all lowercase. */
  predicate Listed(packages: Packages, names: seq<string>) {
    packages.Keys == (set k | k in names) && LowerKeys(packages)
  }

  /** The alias `createPackage` is asked for is already held. */
  predicate AliasHeld(aliases: Aliases, a: Option<string>) {
    a.Some? && a.value != "" && a.value in aliases && aliases[a.value] != ""
  }

  /** `createPackage` as a value: the disk, the registry and the list of
      names afterwards, and the outcome. The alias table is not updated. */
  function CreatePackageSpec(d: Disk, packages: Packages, names: seq<string>, aliases: Aliases,
                             pkgRoot: string, builtIn: string, name: string, tplFile: Option<string>,
                             dirName: Option<string>, aliasName: Option<string>): (Disk, Packages, seq<string>, Outcome)
  {
    var n := ToLower(name);
    var a := if aliasName.Some? then Some(ToLower(aliasName.value)) else None;
    if n in packages then (d, packages, names, Fail(InvalidPackage(n)))
    else if AliasHeld(aliases, a) then (d, packages, names, Fail(DupPackageAlias(a.value, [aliases[a.value]])))
    else
      var made := CreateSpec(d, CreateOptions(pkgRoot, n, tplFile, dirName, a), builtIn);
      if made.1.Err? then (made.0, packages, names, Fail(made.1.error))
      else (made.0, packages[n := made.1.value], names + [n], Pass)
  }

  /** A registered name is `INVALID_PACKAGE` and a held alias
      `DUP_PACKAGE_ALIAS` naming its holder, both before anything is
      written; otherwise the package is created on disk, and when that
      succeeds it is registered under its lowercase name, which was not
      registered before. The registry stays listed by its names. */
  lemma CreatePackageMeaning(d: Disk, packages: Packages, names: seq<string>, aliases: Aliases,
                             pkgRoot: string, builtIn: string, name: string, tplFile: Option<string>,
                             dirName: Option<string>, aliasName: Option<string>)
    requires Listed(packages, names)
    ensures var n := ToLower(name);
            var a := if aliasName.Some? then Some(ToLower(aliasName.value)) else None;
            var made := CreateSpec(d, CreateOptions(pkgRoot, n, tplFile, dirName, a), builtIn);
            var (d1, ps, ns, r) := CreatePackageSpec(d, packages, names, aliases, pkgRoot, builtIn,
                                                     name, tplFile, dirName, aliasName);
            && Listed(ps, ns)
            && (n in packages ==> r == Fail(InvalidPackage(n)) && d1 == d)
            && (n !in packages && AliasHeld(aliases, a) ==> r == Fail(DupPackageAlias(a.value, [aliases[a.value]])) && d1 == d)
            && (n !in packages && !AliasHeld(aliases, a) ==> d1 == made.0)
            && (r.Pass? <==> n !in packages && !AliasHeld(aliases, a) && made.1.Ok?)
            && (r.Pass? ==> n !in names && ps == packages[n := made.1.value] && ns == names + [n])
            && (r.Fail? ==> ps == packages && ns == names)
  {
    var n := ToLower(name);
    ToLowerIdempotent(name);
    if n !in packages {
      var a := if aliasName.Some? then Some(ToLower(aliasName.value)) else None;
      var made := CreateSpec(d, CreateOptions(pkgRoot, n, tplFile, dirName, a), builtIn);
      if !AliasHeld(aliases, a) && made.1.Ok? {
        ListedAdd(packages, names, n, made.1.value);
      }
    }
  }

  /** `CreatePackageSpec` once both checks pass, in terms of what the
      creation on disk gave. */
  lemma CreatePackageRegisters(d: Disk, packages: Packages, names: seq<string>, aliases: Aliases,
                               pkgRoot: string, builtIn: string, name: string, tplFile: Option<string>,
                               dirName: Option<string>, aliasName: Option<string>, d1: Disk, made: Result<Package>)
    requires var a := if aliasName.Some? then Some(ToLower(aliasName.value)) else None;
             && ToLower(name) !in packages && !AliasHeld(aliases, a)
             && (d1, made) == CreateSpec(d, CreateOptions(pkgRoot, ToLower(name), tplFile, dirName, a), builtIn)
    ensures CreatePackageSpec(d, packages, names, aliases, pkgRoot, builtIn, name, tplFile, dirName, aliasName)
            == if made.Ok? then (d1, packages[ToLower(name) := made.value], names + [ToLower(name)], Pass)
               else (d1, packages, names, Fail(made.error))
  {
  }

  lemma ListedAdd(packages: Packages, names: seq<string>, n: string, p: Package)
    requires Listed(packages, names) && ToLower(n) == n
    ensures Listed(packages[n := p], names + [n])
  {
    assert (set k | k in names + [n]) == (set k | k in names) + {n};
  }

  // ---------------------------------------------------------------------
  // What `uninstall` works on

  /** The remote dependencies `uninstall` handles: the requested names no
      package answers to, and of those only the ones the counter's global
      flattening reaches. */
  function UninstallRemote(packages: Packages, aliases: Aliases, t: Table, deps: seq<string>): (r: seq<string>)
    ensures forall x :: x in r <==> x in deps && Find(packages, aliases, x).None? && Reach(t, Global, [], x) > 0
  {
    Filter(Filter(deps, x => Find(packages, aliases, x).None?), x => Reach(t, Global, [], x) > 0)
  }

  /** `_getPackage(v, false)?.name`, with `""` for no package. */
  function FoundName(packages: Packages, aliases: Aliases, x: string): string {
    match Find(packages, aliases, x)
    case Some(k) => packages[k].name
    case None => ""
  }

  function FoundNames(packages: Packages, aliases: Aliases, xs: seq<string>): (r: seq<string>)
    ensures |r| == |xs| && forall i :: 0 <= i < |xs| ==> r[i] == FoundName(packages, aliases, xs[i])
  {
    seq(|xs|, i requires 0 <= i < |xs| => FoundName(packages, aliases, xs[i]))
  }

  /** The local dependencies `uninstall` handles: the names of the packages
      the requested names find, kept when non-empty and reached by the
      counter's global flattening. */
  function UninstallLocal(packages: Packages, aliases: Aliases, t: Table, deps: seq<string>): (r: seq<string>)
    ensures forall x :: x in r <==>
              x != "" && Reach(t, Global, [], x) > 0 && exists i :: 0 <= i < |deps| && FoundName(packages, aliases, deps[i]) == x
  {
    var found := FoundNames(packages, aliases, deps);
    assert forall x :: x in found <==> exists i :: 0 <= i < |deps| && FoundName(packages, aliases, deps[i]) == x by {
      forall x | x in found ensures exists i :: 0 <= i < |deps| && FoundName(packages, aliases, deps[i]) == x {
        var i :| 0 <= i < |found| && found[i] == x;
      }
    }
    Filter(found, x => x != "" && Reach(t, Global, [], x) > 0)
  }

  /** `pkgs.map((v) => this._getPackage(v, true).name)`: the first name
      that finds nothing throws. */
  function TargetNames(packages: Packages, aliases: Aliases, pkgs: seq<string>): (r: Result<seq<string>>)
    ensures r.Ok? <==> forall i :: 0 <= i < |pkgs| ==> Lookup(packages, aliases, pkgs[i]).Ok?
    ensures r.Ok? ==> |r.value| == |pkgs| &&
                      forall i :: 0 <= i < |pkgs| ==> r.value[i] == packages[Lookup(packages, aliases, pkgs[i]).value].name
    ensures r.Err? ==> exists i :: 0 <= i < |pkgs| && Lookup(packages, aliases, pkgs[i]) == Err(r.error)
    decreases |pkgs|
  {
    if pkgs == [] then Ok([])
    else
      var key := Lookup(packages, aliases, pkgs[0]);
      if key.Err? then Err(key.error)
      else
        var rest := TargetNames(packages, aliases, pkgs[1..]);
        if rest.Err? then
          var i :| 0 <= i < |pkgs[1..]| && Lookup(packages, aliases, pkgs[1..][i]) == Err(rest.error);
          assert pkgs[1..][i] == pkgs[i + 1];
          Err(rest.error)
        else
          assert forall i :: 1 <= i < |pkgs| ==> pkgs[i] == pkgs[1..][i - 1];
          Ok([packages[key.value].name] + rest.value)
  }

  /** The packages `uninstall` works on: the names the arguments find,
      once checked, or every registered name when none is given. */
  function UninstallTargets(packages: Packages, aliases: Aliases, names: seq<string>, pkgs: seq<string>): Result<seq<string>> {
    var mapped :- TargetNames(packages, aliases, pkgs);
    Targets(packages, aliases, names, mapped)
  }

  /** Everything `uninstall` does to the registry. */
  function UninstallEdits(packages: Packages, aliases: Aliases, targets: seq<string>, remote: seq<string>,
                          local: seq<string>): Result<Packages>
  {
    var ps :- RemotePass(packages, aliases, remote, targets);
    LocalRemovePass(ps, aliases, targets, local)
  }

  /** No target's records mention a removed local package other than the
      target itself (names and lookups taken in `packages`). */
  predicate LocalCleared(packages: Packages, aliases: Aliases, ps: Packages, targets: seq<string>, local: seq<string>)
    requires ps.Keys == packages.Keys
  {
    forall t, d :: t in targets && d in local ==>
      Lookup(packages, aliases, t).Ok? && Lookup(packages, aliases, d).Ok? &&
      (packages[Lookup(packages, aliases, d).value].name != packages[Lookup(packages, aliases, t).value].name ==>
         Cleared(ps[Lookup(packages, aliases, t).value], packages[Lookup(packages, aliases, d).value].name))
  }

  /** After `uninstall`'s edits, no target's records mention a removed
      remote dependency, nor a removed local package other than itself,
      and nothing but the dependency records changed. */
  lemma UninstallEditsClear(packages: Packages, aliases: Aliases, targets: seq<string>, remote: seq<string>,
                            local: seq<string>)
    requires UninstallEdits(packages, aliases, targets, remote, local).Ok?
    ensures var ps := UninstallEdits(packages, aliases, targets, remote, local).value;
            Edited(packages, ps) &&
            (forall dep, t :: dep in remote && t in targets ==>
                                Lookup(packages, aliases, t).Ok? && Cleared(ps[Lookup(packages, aliases, t).value], dep)) &&
            LocalCleared(packages, aliases, ps, targets, local)
  {
    UninstallClearsRemote(packages, aliases, targets, remote, local);
    UninstallClearsLocal(packages, aliases, targets, remote, local);
  }

  /** The remote half of `UninstallEditsClear`: the local pass keeps what
      the remote pass cleared. */
  lemma UninstallClearsRemote(packages: Packages, aliases: Aliases, targets: seq<string>, remote: seq<string>,
                              local: seq<string>)
    requires UninstallEdits(packages, aliases, targets, remote, local).Ok?
    ensures var ps := UninstallEdits(packages, aliases, targets, remote, local).value;
            Edited(packages, ps) &&
            forall dep, t :: dep in remote && t in targets ==>
                               Lookup(packages, aliases, t).Ok? && Cleared(ps[Lookup(packages, aliases, t).value], dep)
  {
    var mid := RemotePass(packages, aliases, remote, targets).value;
    RemotePassClears(packages, aliases, remote, targets);
    LocalRemovePassClears(mid, aliases, targets, local);
    var ps := LocalRemovePass(mid, aliases, targets, local).value;
    EditedTransitive(packages, mid, ps);
  }

  /** The local half of `UninstallEditsClear`: the names of the removed
      packages are those of the original registry. */
  lemma UninstallClearsLocal(packages: Packages, aliases: Aliases, targets: seq<string>, remote: seq<string>,
                             local: seq<string>)
    requires UninstallEdits(packages, aliases, targets, remote, local).Ok?
    ensures var ps := UninstallEdits(packages, aliases, targets, remote, local).value;
            ps.Keys == packages.Keys && LocalCleared(packages, aliases, ps, targets, local)
  {
    var mid := RemotePass(packages, aliases, remote, targets).value;
    RemotePassEdits(packages, aliases, remote, targets);
    LocalRemovePassClearsNames(mid, aliases, targets, local);
    var ps := LocalRemovePass(mid, aliases, targets, local).value;
    ClearedThroughEdits(packages, mid, ps, aliases, targets, local);
  }

  /** `ClearedThroughNames` for every target and every removed package. */
  lemma ClearedThroughEdits(packages: Packages, mid: Packages, ps: Packages, aliases: Aliases,
                            targets: seq<string>, local: seq<string>)
    requires Edited(packages, mid) && mid.Keys == ps.Keys
    requires LocalCleared(mid, aliases, ps, targets, local)
    ensures LocalCleared(packages, aliases, ps, targets, local)
  {
    forall t, d | t in targets && d in local
      ensures Lookup(packages, aliases, t).Ok? && Lookup(packages, aliases, d).Ok? &&
              (packages[Lookup(packages, aliases, d).value].name != packages[Lookup(packages, aliases, t).value].name ==>
                 Cleared(ps[Lookup(packages, aliases, t).value], packages[Lookup(packages, aliases, d).value].name))
    {
      ClearedThroughNames(packages, mid, ps, aliases, t, d);
    }
  }

  /** The remote pass edits only dependency records. */
  lemma RemotePassEdits(packages: Packages, aliases: Aliases, remote: seq<string>, targets: seq<string>)
    requires RemotePass(packages, aliases, remote, targets).Ok?
    ensures Edited(packages, RemotePass(packages, aliases, remote, targets).value)
  {
    RemotePassClears(packages, aliases, remote, targets);
  }

  /** The clearing part of `LocalRemovePassClears` alone. */
  lemma LocalRemovePassClearsNames(packages: Packages, aliases: Aliases, targets: seq<string>, deps: seq<string>)
    requires LocalRemovePass(packages, aliases, targets, deps).Ok?
    ensures var ps := LocalRemovePass(packages, aliases, targets, deps).value;
            ps.Keys == packages.Keys && LocalCleared(packages, aliases, ps, targets, deps)
  {
    LocalRemovePassClears(packages, aliases, targets, deps);
  }

  /** A clearing stated on an edited registry holds of the original one:
      lookups and names are unchanged by the edits. */
  lemma ClearedThroughNames(packages: Packages, mid: Packages, ps: Packages, aliases: Aliases, t: string, d: string)
    requires Edited(packages, mid) && mid.Keys == ps.Keys
    requires Lookup(mid, aliases, t).Ok? && Lookup(mid, aliases, d).Ok?
    requires mid[Lookup(mid, aliases, d).value].name != mid[Lookup(mid, aliases, t).value].name ==>
               Cleared(ps[Lookup(mid, aliases, t).value], mid[Lookup(mid, aliases, d).value].name)
    ensures Lookup(packages, aliases, t).Ok? && Lookup(packages, aliases, d).Ok?
    ensures packages[Lookup(packages, aliases, d).value].name != packages[Lookup(packages, aliases, t).value].name ==>
              Cleared(ps[Lookup(packages, aliases, t).value], packages[Lookup(packages, aliases, d).value].name)
  {
    LookupKeys(packages, mid, aliases, t);
    LookupKeys(packages, mid, aliases, d);
    var kt := Lookup(packages, aliases, t).value;
    var kd := Lookup(packages, aliases, d).value;
    assert SameButRecords(packages[kt], mid[kt]) && SameButRecords(packages[kd], mid[kd]);
  }

  // ---------------------------------------------------------------------
  // The counter changes of `_uninstallLocalDeps`

  /** The (owner, dependency) pairs one target removes, one at a time:
      every listed package other than the target itself. */
  function DropPairs(packages: Packages, aliases: Aliases, owner: string, deps: seq<string>): seq<(string, string)>
    decreases |deps|
  {
    if deps == [] then []
    else
      var found := Lookup(packages, aliases, deps[|deps| - 1]);
      DropPairs(packages, aliases, owner, deps[..|deps| - 1]) +
        if found.Ok? && packages[found.value].name != owner then [(owner, packages[found.value].name)] else []
  }

  /** The pairs of every target in turn. */
  function LocalPairs(packages: Packages, aliases: Aliases, targets: seq<string>, deps: seq<string>): seq<(string, string)>
    decreases |targets|
  {
    if targets == [] then []
    else
      var key := Lookup(packages, aliases, targets[|targets| - 1]);
      LocalPairs(packages, aliases, targets[..|targets| - 1], deps) +
        if key.Ok? then DropPairs(packages, aliases, packages[key.value].name, deps) else []
  }

  /** `remove(owner, [dep])` for each pair in turn. */
  function RemovePairs(t: Table, pairs: seq<(string, string)>): (r: Table)
    requires ValidTable(t)
    ensures ValidTable(r)
    decreases |pairs|
  {
    if pairs == [] then t
    else
      var prev := RemovePairs(t, pairs[..|pairs| - 1]);
      var last := pairs[|pairs| - 1];
      RemoveFloors(prev, Pkg(last.0), [last.1], "");
      AfterRemove(prev, Pkg(last.0), [last.1])
  }

  lemma RemovePairsSnoc(t: Table, pairs: seq<(string, string)>, x: (string, string))
    requires ValidTable(t)
    ensures RemovePairs(t, pairs + [x]) == AfterRemove(RemovePairs(t, pairs), Pkg(x.0), [x.1])
  {
    assert (pairs + [x])[..|pairs|] == pairs;
  }

  lemma StampAllStep(ps: Packages, keys: seq<string>, i: nat, version: string)
    requires i < |keys| && keys[i] in ps
    ensures StampAll(ps, keys[i..], version) ==
              StampAll(if ps[keys[i]].noRelease then ps else ps[keys[i] := Stamp(ps[keys[i]], version)], keys[i + 1..], version)
  {
    assert keys[i..][1..] == keys[i + 1..];
  }

  /** Moving a block from the front of a remainder to the end of a prefix
      keeps the whole. */
  lemma AppendShift<T>(a: seq<T>, h: seq<T>, rest: seq<T>)
    ensures (a + h) + rest == a + (h + rest)
  {
  }

  lemma AppendShift3<T>(a: seq<T>, b: seq<T>, c: seq<T>, d: seq<T>)
    ensures ((a + b) + c) + d == a + (b + c + d)
  {
  }

  lemma RemoveEachSnoc(t: Table, owners: seq<string>, j: nat, deps: seq<string>)
    requires ValidTable(t) && j < |owners|
    ensures RemoveEach(t, owners[..j + 1], deps) == AfterRemove(RemoveEach(t, owners[..j], deps), Pkg(owners[j]), deps)
  {
    assert owners[..j + 1][..j] == owners[..j];
  }

  lemma DropPairsSnoc(packages: Packages, aliases: Aliases, owner: string, deps: seq<string>, j: nat)
    requires j < |deps|
    ensures var found := Lookup(packages, aliases, deps[j]);
            DropPairs(packages, aliases, owner, deps[..j + 1]) ==
              DropPairs(packages, aliases, owner, deps[..j]) +
                if found.Ok? && packages[found.value].name != owner then [(owner, packages[found.value].name)] else []
  {
    assert deps[..j + 1][..j] == deps[..j];
  }

  lemma LocalPairsSnoc(packages: Packages, aliases: Aliases, targets: seq<string>, deps: seq<string>, i: nat)
    requires i < |targets|
    ensures var key := Lookup(packages, aliases, targets[i]);
            LocalPairs(packages, aliases, targets[..i + 1], deps) ==
              LocalPairs(packages, aliases, targets[..i], deps) +
                if key.Ok? then DropPairs(packages, aliases, packages[key.value].name, deps) else []
  {
    assert targets[..i + 1][..i] == targets[..i];
  }

  /** The pairs depend on the keys and the names only, which record edits
      keep. */
  lemma {:induction false} DropPairsEdited(ps: Packages, qs: Packages, aliases: Aliases, owner: string, deps: seq<string>)
    requires Edited(ps, qs)
    ensures DropPairs(ps, aliases, owner, deps) == DropPairs(qs, aliases, owner, deps)
    decreases |deps|
  {
    if deps != [] {
      LookupKeys(ps, qs, aliases, deps[|deps| - 1]);
      DropPairsEdited(ps, qs, aliases, owner, deps[..|deps| - 1]);
    }
  }

  lemma {:induction false} LocalPairsEdited(ps: Packages, qs: Packages, aliases: Aliases, targets: seq<string>, deps: seq<string>)
    requires Edited(ps, qs)
    ensures LocalPairs(ps, aliases, targets, deps) == LocalPairs(qs, aliases, targets, deps)
    decreases |targets|
  {
    if targets != [] {
      var key := Lookup(ps, aliases, targets[|targets| - 1]);
      LookupKeys(ps, qs, aliases, targets[|targets| - 1]);
      if key.Ok? {
        DropPairsEdited(ps, qs, aliases, ps[key.value].name, deps);
      }
      LocalPairsEdited(ps, qs, aliases, targets[..|targets| - 1], deps);
    }
  }

  lemma RemoteOneStep(ps: Packages, aliases: Aliases, dep: string, targets: seq<string>, j: nat)
    requires j < |targets|
    ensures var tail := RemoteOne(ps, aliases, dep, targets[j..]);
            var key := Lookup(ps, aliases, targets[j]);
            (key.Err? ==> tail == Err(key.error)) &&
            (key.Ok? ==>
               var p := Unrecord(ps[key.value], dep);
               (p.Err? ==> tail == Err(p.error)) &&
               (p.Ok? ==> tail == RemoteOne(ps[key.value := p.value], aliases, dep, targets[j + 1..])))
  {
    assert targets[j..][1..] == targets[j + 1..];
  }

  lemma RemotePassStep(ps: Packages, aliases: Aliases, remote: seq<string>, targets: seq<string>, i: nat)
    requires i < |remote|
    ensures var tail := RemotePass(ps, aliases, remote[i..], targets);
            var next := RemoteOne(ps, aliases, remote[i], targets);
            (next.Err? ==> tail == Err(next.error)) &&
            (next.Ok? ==> tail == RemotePass(next.value, aliases, remote[i + 1..], targets))
  {
    assert remote[i..][1..] == remote[i + 1..];
  }

  /** One dependency of one target of `_uninstallLocalDeps`: looked up,
      then deleted from the target's records unless it is the target. */
  function DropStep(ps: Packages, aliases: Aliases, key: string, x: string): (r: Result<Packages>)
    requires key in ps
  {
    var depKey :- Lookup(ps, aliases, x);
    if ps[depKey].name == ps[key].name then Ok(ps)
    else
      var p :- Unrecord(ps[key], ps[depKey].name);
      Ok(ps[key := p])
  }

  lemma LocalDropStep(ps: Packages, aliases: Aliases, key: string, deps: seq<string>, j: nat)
    requires j < |deps| && key in ps
    ensures var tail := LocalDrop(ps, aliases, key, deps[j..]);
            var next := DropStep(ps, aliases, key, deps[j]);
            (next.Err? ==> tail == Err(next.error)) &&
            (next.Ok? ==> key in next.value && tail == LocalDrop(next.value, aliases, key, deps[j + 1..]))
  {
    assert deps[j..][1..] == deps[j + 1..];
  }

  lemma LocalRemovePassStep(ps: Packages, aliases: Aliases, targets: seq<string>, deps: seq<string>, i: nat)
    requires i < |targets|
    ensures var tail := LocalRemovePass(ps, aliases, targets[i..], deps);
            var key := Lookup(ps, aliases, targets[i]);
            (key.Err? ==> tail == Err(key.error)) &&
            (key.Ok? ==>
               var next := LocalDrop(ps, aliases, key.value, deps);
               (next.Err? ==> tail == Err(next.error)) &&
               (next.Ok? ==> tail == LocalRemovePass(next.value, aliases, targets[i + 1..], deps)))
  {
    assert targets[i..][1..] == targets[i + 1..];
  }

  /** A hook loop after `i` packages: the commands run so far and what
      the rest of the loop runs make up the whole. */
  predicate HookAt(d: Disk, failing: set<Command>, ps: Packages, keys: seq<string>, hook: string, i: nat,
                   done: seq<Command>, whole: (seq<Command>, Outcome))
    requires (forall k :: k in keys ==> k in ps) && i <= |keys|
  {
    var tail := HookCommands(d, failing, ps, keys[i..], hook);
    done + tail.0 == whole.0 && tail.1 == whole.1
  }

  /** One turn of a hook loop keeps the fold, or ends it with the whole
      loop's outcome. */
  lemma HookAdvance(d: Disk, failing: set<Command>, ps: Packages, keys: seq<string>, hook: string, i: nat,
                    done: seq<Command>, whole: (seq<Command>, Outcome), now: seq<Command>, r: Outcome)
    requires (forall k :: k in keys ==> k in ps) && i < |keys|
    requires HookAt(d, failing, ps, keys, hook, i, done, whole)
    requires !RunsHook(ps[keys[i]], hook) ==> now == [] && r == Pass
    requires RunsHook(ps[keys[i]], hook) ==> (now, r) == RunSpec(d, failing, ps[keys[i]].root, hook)
    ensures r.Fail? ==> done + now == whole.0 && r == whole.1
    ensures r.Pass? ==> HookAt(d, failing, ps, keys, hook, i + 1, done + now, whole)
  {
    HookCommandsStep(d, failing, ps, keys, hook, i);
    var next := HookCommands(d, failing, ps, keys[i + 1..], hook);
    if RunsHook(ps[keys[i]], hook) && r.Pass? {
      assert done + (now + next.0) == (done + now) + next.0;
    } else if !RunsHook(ps[keys[i]], hook) {
      assert done + now == done;
    }
  }

  /** The publish loop after `i` packages: the commands run so far and
      what the rest of the loop runs make up the whole. */
  predicate PublishAt(failing: set<Command>, ps: Packages, keys: seq<string>, versions: map<string, string>,
                      confirmed: bool, i: nat, done: seq<Command>, whole: (seq<Command>, Outcome))
    requires (forall k :: k in keys ==> k in ps) && i <= |keys|
  {
    var tail := RunAll(failing, PublishCommands(ps, keys[i..], versions, confirmed));
    done + tail.0 == whole.0 && tail.1 == whole.1
  }

  /** One turn of the publish loop keeps the fold, or ends it with the
      whole loop's outcome. */
  lemma PublishAdvance(failing: set<Command>, ps: Packages, keys: seq<string>, versions: map<string, string>,
                       confirmed: bool, i: nat, done: seq<Command>, whole: (seq<Command>, Outcome),
                       now: seq<Command>, r: Outcome)
    requires (forall k :: k in keys ==> k in ps) && i < |keys|
    requires PublishAt(failing, ps, keys, versions, confirmed, i, done, whole)
    requires now == if ps[keys[i]].noRelease then [] else [PublishCommand(ps[keys[i]], keys[i], versions, confirmed)]
    requires r == if ps[keys[i]].noRelease then Pass else Exec(failing, now[0])
    ensures r.Fail? ==> done + now == whole.0 && r == whole.1
    ensures r.Pass? ==> PublishAt(failing, ps, keys, versions, confirmed, i + 1, done + now, whole)
  {
    PublishCommandsStep(ps, keys, versions, confirmed, i);
    var next := PublishCommands(ps, keys[i + 1..], versions, confirmed);
    if ps[keys[i]].noRelease {
      assert now + next == next;
    } else {
      var xs := now + next;
      assert xs[0] == now[0] && xs[1..] == next;
      if r.Pass? {
        var tail := RunAll(failing, next);
        assert done + (now + tail.0) == (done + now) + tail.0;
      }
    }
  }

  /** Edits that keep the registry's keys keep it listed, and keep its
      keys clear of the alias prefix. */
  lemma SameKeys(ps: Packages, qs: Packages, names: seq<string>)
    requires ps.Keys == qs.Keys
    ensures Listed(ps, names) ==> Listed(qs, names)
    ensures NoAliasKeys(ps) ==> NoAliasKeys(qs)
  {
  }

  /** What one turn of the drop loop does to the registry and to the pair
      fold, for a registry `ps` edited from `p0`. */
  lemma DropOneStep(p0: Packages, ps: Packages, aliases: Aliases, key: string, deps: seq<string>, j: nat, t0: Table)
    requires ValidTable(t0) && Edited(p0, ps) && key in ps && j < |deps|
    ensures var found := Lookup(ps, aliases, deps[j]);
            var owner := p0[key].name;
            var next := DropStep(ps, aliases, key, deps[j]);
            var before := RemovePairs(t0, DropPairs(p0, aliases, owner, deps[..j]));
            var after := RemovePairs(t0, DropPairs(p0, aliases, owner, deps[..j + 1]));
            && owner == ps[key].name
            && (next.Ok? ==> Edited(p0, next.value))
            && (found.Ok? && ps[found.value].name == owner ==> after == before)
            && (found.Ok? && ps[found.value].name != owner ==>
                  after == AfterRemove(before, Pkg(owner), [ps[found.value].name]))
  {
    DropOneEdits(p0, ps, aliases, key, deps[j]);
    DropOneCounts(p0, ps, aliases, key, deps, j, t0);
  }

  /** One turn of the drop loop keeps the registry an edit of `p0`. */
  lemma DropOneEdits(p0: Packages, ps: Packages, aliases: Aliases, key: string, x: string)
    requires Edited(p0, ps) && key in ps
    ensures p0[key].name == ps[key].name
    ensures var next := DropStep(ps, aliases, key, x);
            next.Ok? ==> Edited(p0, next.value)
  {
    var found := Lookup(ps, aliases, x);
    if found.Ok? {
      var name := ps[found.value].name;
      if name != ps[key].name && Unrecord(ps[key], name).Ok? {
        UnrecordEdits(p0, ps, key, name);
      }
    }
  }

  /** One turn of the drop loop removes the pair it looks up, if any. */
  lemma DropOneCounts(p0: Packages, ps: Packages, aliases: Aliases, key: string, deps: seq<string>, j: nat, t0: Table)
    requires ValidTable(t0) && Edited(p0, ps) && key in ps && j < |deps|
    ensures var found := Lookup(ps, aliases, deps[j]);
            var owner := p0[key].name;
            var before := RemovePairs(t0, DropPairs(p0, aliases, owner, deps[..j]));
            var after := RemovePairs(t0, DropPairs(p0, aliases, owner, deps[..j + 1]));
            && (found.Ok? && ps[found.value].name == owner ==> after == before)
            && (found.Ok? && ps[found.value].name != owner ==>
                  after == AfterRemove(before, Pkg(owner), [ps[found.value].name]))
  {
    var owner := p0[key].name;
    DropPairsSnoc(p0, aliases, owner, deps, j);
    LookupKeys(p0, ps, aliases, deps[j]);
    var found := Lookup(ps, aliases, deps[j]);
    var pairs := DropPairs(p0, aliases, owner, deps[..j]);
    if found.Ok? {
      var name := ps[found.value].name;
      if name == owner {
        assert pairs + [] == pairs;
      } else {
        RemovePairsSnoc(t0, pairs, (owner, name));
      }
    }
  }

  /** Deleting a name from one package's records is one more record
      edit. */
  lemma UnrecordEdits(p0: Packages, ps: Packages, key: string, dep: string)
    requires Edited(p0, ps) && key in ps && Unrecord(ps[key], dep).Ok?
    ensures Edited(p0, ps[key := Unrecord(ps[key], dep).value])
  {
    UnrecordStepKeeps(ps, key, dep);
    EditedTransitive(p0, ps, ps[key := Unrecord(ps[key], dep).value]);
  }

  /** `deps.filter((v) => !remoteDepsMap[v])`: the names the counter's
      global flattening no longer reaches. */
  function Unreferenced(t: Table, deps: seq<string>): (r: seq<string>)
    ensures forall x :: x in r <==> x in deps && Reach(t, Global, [], x) == 0
  {
    Filter(deps, x => Reach(t, Global, [], x) == 0)
  }

  /** The `npm un` command a list of names gives, and none for an empty
      list. */
  function UninstallCommands(cwd: string, deps: seq<string>): seq<Command> {
    if deps == [] then [] else [Command(cwd, ["npm", "un"] + UninstallArgs(deps, false, false))]
  }

  lemma {:induction false} RemovePairsAppend(t: Table, a: seq<(string, string)>, b: seq<(string, string)>)
    requires ValidTable(t)
    ensures RemovePairs(t, a + b) == RemovePairs(RemovePairs(t, a), b)
    decreases |b|
  {
    if b == [] {
      assert a + b == a;
    } else {
      var b' := b[..|b| - 1];
      var x := b[|b| - 1];
      assert a + b == (a + b') + [x] && b == b' + [x];
      RemovePairsSnoc(t, a + b', x);
      RemovePairsAppend(t, a, b');
      RemovePairsSnoc(RemovePairs(t, a), b', x);
    }
  }

  /** `unlink(d)` for each name in turn from `cwd`, stopping at the first
      failure. */
  function UnlinkAll(d: Disk, cwd: string, xs: seq<string>): (r: (Disk, Outcome))
    decreases |xs|
  {
    if xs == [] then (d, Pass)
    else
      var (d', o) := UnlinkSpec(d, cwd, xs[0]);
      if o.Fail? then (d', o) else UnlinkAll(d', cwd, xs[1..])
  }

  /** When every unlink succeeds, none of the names is left linked and
      nothing but links was removed. */
  lemma {:induction false} UnlinkAllClears(d: Disk, cwd: string, xs: seq<string>)
    ensures var r := UnlinkAll(d, cwd, xs);
            (r.1.Pass? ==> forall x :: x in xs ==> !Exists(r.0, LinkPath(cwd, x))) &&
            (forall p :: p in r.0 ==> p in d && r.0[p] == d[p]) &&
            (forall p :: p in d && p !in r.0 ==> exists x :: x in xs && p == LinkPath(cwd, x))
    decreases |xs|
  {
    if xs != [] {
      var (d', o) := UnlinkSpec(d, cwd, xs[0]);
      if o.Pass? {
        UnlinkAllClears(d', cwd, xs[1..]);
        var r := UnlinkAll(d', cwd, xs[1..]);
        forall p | p in d && p !in r.0 ensures exists x :: x in xs && p == LinkPath(cwd, x) {
          if p in d' {
            var x :| x in xs[1..] && p == LinkPath(cwd, x);
          } else {
            assert p == LinkPath(cwd, xs[0]);
          }
        }
      }
    }
  }

  /** The `node_modules` directories `_cleanLocalPackageNodeModules`
      removes: one under each package's root, in key order. */
  function NodeModulesDirs(packages: Packages, names: seq<string>): (r: seq<string>)
    requires forall k :: k in names ==> k in packages
    ensures |r| == |names|
    ensures forall i :: 0 <= i < |names| ==> r[i] == Concat(packages[names[i]].root, "node_modules")
  {
    seq(|names|, i requires 0 <= i < |names| => Concat(packages[names[i]].root, "node_modules"))
  }

  /** `rm -rf` of each directory in turn. */
  function RemoveTrees(d: Disk, dirs: seq<string>): (r: Disk)
    decreases |dirs|
  {
    if dirs == [] then d else RemoveTree(RemoveTrees(d, dirs[..|dirs| - 1]), dirs[|dirs| - 1])
  }

  /** `q` lies within none of `dirs`. */
  predicate Outside(q: string, dirs: seq<string>) {
    forall i :: 0 <= i < |dirs| ==> !Within(q, dirs[i])
  }

  lemma OutsideSnoc(q: string, dirs: seq<string>)
    requires dirs != []
    ensures Outside(q, dirs) <==> Outside(q, dirs[..|dirs| - 1]) && !Within(q, dirs[|dirs| - 1])
  {
    var n := |dirs| - 1;
    if Outside(q, dirs[..n]) && !Within(q, dirs[n]) {
      forall i | 0 <= i < |dirs| ensures !Within(q, dirs[i]) {
        if i < n {
          assert dirs[i] == dirs[..n][i];
        }
      }
    }
  }

  /** Removing the trees one by one leaves exactly the paths within none
      of them. */
  lemma {:induction false} RemoveTreesMeaning(d: Disk, dirs: seq<string>)
    ensures var r := RemoveTrees(d, dirs);
            (forall q :: q in r <==> q in d && Outside(q, dirs)) &&
            (forall q :: q in r ==> r[q] == d[q])
    decreases |dirs|
  {
    if dirs != [] {
      var n := |dirs| - 1;
      RemoveTreesMeaning(d, dirs[..n]);
      var prev := RemoveTrees(d, dirs[..n]);
      assert RemoveTrees(d, dirs) == RemoveTree(prev, dirs[n]);
      forall q {
        OutsideSnoc(q, dirs);
      }
    }
  }

  /** The `rm -rf node_modules` run in a package's directory. */
  function RemoveModulesCommand(root: string): Command {
    Command(root, ["rm", "-rf", "node_modules"])
  }

  /** `_cleanLocalPackageNodeModules`: `rm -rf node_modules` in each
      package's directory in key order, stopping at the first command that
      fails. */
  function CleanTrees(d: Disk, failing: set<Command>, packages: Packages, names: seq<string>): (r: (Disk, Outcome))
    requires forall k :: k in names ==> k in packages
    decreases |names|
  {
    if names == [] then (d, Pass)
    else
      var root := packages[names[0]].root;
      var c := RemoveModulesCommand(root);
      if c in failing then (d, Exec(failing, c))
      else CleanTrees(RemoveTree(d, Concat(root, "node_modules")), failing, packages, names[1..])
  }

  /** The clean passes exactly when no `rm -rf` of it fails, and then
      removes every `node_modules` tree, as `RemoveTrees` does; a failing
      one reports the command. */
  lemma {:induction false} CleanTreesMeaning(d: Disk, failing: set<Command>, packages: Packages, names: seq<string>)
    requires forall k :: k in names ==> k in packages
    ensures var r := CleanTrees(d, failing, packages, names);
            (r.1.Pass? <==> forall k :: k in names ==> RemoveModulesCommand(packages[k].root) !in failing) &&
            (r.1.Pass? ==> r.0 == RemoveTrees(d, NodeModulesDirs(packages, names))) &&
            (r.1.Fail? ==> r.1.error.CommandFailed?)
  {
    CleanTreesOutside(d, failing, packages, names);
    var r := CleanTrees(d, failing, packages, names);
    if r.1.Pass? {
      var dirs := NodeModulesDirs(packages, names);
      RemoveTreesMeaning(d, dirs);
      assert r.0 == RemoveTrees(d, dirs);
    }
  }

  lemma {:induction false} CleanTreesOutside(d: Disk, failing: set<Command>, packages: Packages, names: seq<string>)
    requires forall k :: k in names ==> k in packages
    ensures var r := CleanTrees(d, failing, packages, names);
            (r.1.Pass? <==> forall k :: k in names ==> RemoveModulesCommand(packages[k].root) !in failing) &&
            (r.1.Pass? ==> (forall q :: q in r.0 <==> q in d && Outside(q, NodeModulesDirs(packages, names))) &&
                           (forall q :: q in r.0 ==> r.0[q] == d[q])) &&
            (r.1.Fail? ==> r.1.error.CommandFailed?)
    decreases |names|
  {
    if names != [] {
      var root := packages[names[0]].root;
      var rest := names[1..];
      assert forall k :: k in names ==> k == names[0] || k in rest;
      if RemoveModulesCommand(root) !in failing {
        var d1 := RemoveTree(d, Concat(root, "node_modules"));
        CleanTreesOutside(d1, failing, packages, rest);
        var dirs := NodeModulesDirs(packages, names);
        var tail := NodeModulesDirs(packages, rest);
        forall q ensures Outside(q, dirs) <==> !Within(q, dirs[0]) && Outside(q, tail) {
          if !Within(q, dirs[0]) && Outside(q, tail) {
            forall i | 0 <= i < |dirs| ensures !Within(q, dirs[i]) {
              if i > 0 {
                assert dirs[i] == tail[i - 1];
              }
            }
          }
          if Outside(q, dirs) {
            forall i | 0 <= i < |tail| ensures !Within(q, tail[i]) {
              assert tail[i] == dirs[i + 1];
            }
          }
        }
      }
    }
  }

  /** Everything `uninstall(deps, pkgs)` does to the registry, from the
      registry and the counter it starts from. */
  function UninstallPlan(packages: Packages, aliases: Aliases, names: seq<string>, t: Table, deps: seq<string>,
                         pkgs: seq<string>): Result<Packages>
  {
    var targets :- UninstallTargets(packages, aliases, names, pkgs);
    UninstallEdits(packages, aliases, targets, UninstallRemote(packages, aliases, t, deps),
                   UninstallLocal(packages, aliases, t, deps))
  }

  /** What `uninstall(deps, pkgs)` does to the counter: the rounds of the
      remote phase, then the pairs of the local one. */
  function UninstallCounts(packages: Packages, aliases: Aliases, targets: seq<string>, t: Table, deps: seq<string>): (r: Table)
    requires ValidTable(t)
    ensures ValidTable(r)
  {
    var remote := UninstallRemote(packages, aliases, t, deps);
    RemovePairs(RemoteCounts(t, |remote|, targets, remote),
                LocalPairs(packages, aliases, targets, UninstallLocal(packages, aliases, t, deps)))
  }

  class Manager {
    /** `_packages`: the sub-packages by lowercase name. */
    var packages: Packages
    /** The order `Object.keys(this._packages)` lists them in. */
    var names: seq<string>
    /** `_aliases`: lowercase alias to package name. */
    var aliases: Aliases
    /** `_rootPackage`, as read when the manager is initialised. */
    const rootPackage: Package
    const root: string
    const pkgRoot: string
    /** Where the bundled template lives. */
    const builtIn: string
    const fs: FileSystem
    const npm: Npm
    const utils: Utils
    const counter: DependencyCounter

    ghost predicate Valid()
      reads this, counter
    {
      counter.Valid() && npm.fs == fs && utils.fs == fs && Listed(packages, names)
    }

    /** A manager over `root` with nothing loaded yet. */
    constructor (root: string, rootPackage: Package, builtIn: string, fs: FileSystem, failing: set<Command>)
      ensures Valid() && fresh(npm) && fresh(utils) && fresh(counter)
      ensures this.root == root && pkgRoot == Concat(root, "packages") && this.rootPackage == rootPackage && this.fs == fs
      ensures packages == map[] && names == [] && aliases == map[] && counter.table == map[Global := map[]]
      ensures npm.cwd == root && npm.commands == [] && npm.failing == failing
    {
      this.root := root;
      this.rootPackage := rootPackage;
      this.builtIn := builtIn;
      this.fs := fs;
      pkgRoot := Concat(root, "packages");
      npm := new Npm(root, fs, failing);
      utils := new Utils(fs);
      counter := new DependencyCounter();
      packages := map[];
      names := [];
      aliases := map[];
    }

    /** `reload()`: every directory the scan finds is read and counted;
        the new registry and alias table replace the old ones only when all
        of them load, while the counter keeps whatever was added before a
        failure. */
    method Reload() returns (r: Outcome)
      requires Valid()
      modifies this, counter
      ensures Valid()
      ensures var run := Registry.Reload(fs.entries, ScanPaths(fs.entries, pkgRoot));
              counter.table == AddAll(old(counter.table), run.0) &&
              (run.1.Ok? ==> r == Pass && packages == run.1.value.packages && names == run.1.value.names &&
                             aliases == run.1.value.aliases) &&
              (run.1.Err? ==> r == Fail(run.1.error) && packages == old(packages) && names == old(names) &&
                              aliases == old(aliases))
    {
      var scanned := utils.Scan(pkgRoot);
      var paths := if scanned.Ok? then scanned.value else [];
      assert paths == ScanPaths(fs.entries, pkgRoot);
      r := ReloadFrom(paths);
    }

    /** `reload` over the directories the scan found. */
    method ReloadFrom(paths: seq<string>) returns (r: Outcome)
      requires Valid()
      modifies this, counter
      ensures Valid()
      ensures var run := Registry.Reload(fs.entries, paths);
              counter.table == AddAll(old(counter.table), run.0) &&
              (run.1.Ok? ==> r == Pass && packages == run.1.value.packages && names == run.1.value.names &&
                             aliases == run.1.value.aliases) &&
              (run.1.Err? ==> r == Fail(run.1.error) && packages == old(packages) && names == old(names) &&
                              aliases == old(aliases))
    {
      ghost var adds;
      var res;
      adds, res := LoadPackages(paths, LoadAll(fs.entries, paths));
      if res.Err? {
        r := Fail(res.error);
      } else {
        ReloadValid(fs.entries, paths);
        packages, names, aliases := res.value.packages, res.value.names, res.value.aliases;
        r := Pass;
      }
    }

    /** The loop of `reload` over the directories found: each package read
        is handed to the counter, and the first error ends the loop. */
    method LoadPackages(paths: seq<string>, ghost loads: seq<Loaded>)
      returns (ghost adds: seq<(string, seq<string>)>, res: Result<Index>)
      requires counter.Valid() && loads == LoadAll(fs.entries, paths)
      modifies counter
      ensures counter.Valid() && counter.table == AddAll(old(counter.table), adds)
      ensures adds == ReloadOver(paths, loads, EmptyIndex).0 && res == ReloadOver(paths, loads, EmptyIndex).1
    {
      ghost var full := ReloadOver(paths, loads, EmptyIndex);
      ghost var t0 := counter.table;
      var ix := EmptyIndex;
      adds := [];
      var i := 0;
      assert paths[0..] == paths && loads[0..] == loads;
      while i < |paths|
        invariant 0 <= i <= |paths|
        invariant counter.Valid() && counter.table == AddAll(t0, adds)
        invariant ReloadAt(paths, loads, i, ix, adds, full)
      {
        var add, next := AdmitPath(paths[i], loads[i], ix);
        ghost var adds' := adds + if add.Some? then [add.value] else [];
        ReloadAdvance(paths, loads, i, ix, adds, full, add, next, adds');
        if add.Some? {
          CountAdded(t0, adds, add.value);
        } else {
          assert adds' == adds;
        }
        adds := adds';
        if next.Err? {
          return adds, next;
        }
        ix := next.value;
        i := i + 1;
      }
      assert adds + [] == adds;
      res := Ok(ix);
    }

    /** Handing one more package's dependencies to the counter extends
        the fold of `reload`. */
    method CountAdded(ghost t0: Table, ghost adds: seq<(string, seq<string>)>, x: (string, seq<string>))
      requires counter.Valid() && counter.table == AddAll(t0, adds)
      modifies counter
      ensures counter.Valid() && counter.table == AddAll(t0, adds + [x])
    {
      AddAllSnoc(t0, adds, x);
      counter.Add(Pkg(x.0), x.1);
    }

    /** Reading one directory and admitting its package to the index. */
    method AdmitPath(path: string, ghost loaded: Loaded, ix: Index) returns (add: Option<(string, seq<string>)>, next: Result<Index>)
      requires loaded == Load(fs.entries, path)
      ensures (add, next) == Admit(path, loaded, ix)
    {
      var step := Admit(path, Load(fs.entries, path), ix);
      add, next := step.0, step.1;
    }

    /** `createPackage(name, tplFile, noRelease, privateAccess, dirName,
        aliasName)`, with the effect `CreatePackageSpec` states. */
    method CreatePackage(name: string, tplFile: Option<string>, dirName: Option<string>, aliasName: Option<string>)
      returns (r: Outcome)
      requires Valid()
      modifies this`packages, this`names, fs
      ensures Valid()
      ensures (fs.entries, packages, names, r)
              == CreatePackageSpec(old(fs.entries), old(packages), old(names), aliases, pkgRoot, builtIn,
                                   name, tplFile, dirName, aliasName)
    {
      var n := ToLower(name);
      var a := if aliasName.Some? then Some(ToLower(aliasName.value)) else None;
      if n in packages {
        r := Fail(InvalidPackage(n));
      } else if AliasHeld(aliases, a) {
        r := Fail(DupPackageAlias(a.value, [aliases[a.value]]));
      } else {
        r := CreateUnchecked(name, tplFile, dirName, aliasName);
      }
    }

    /** The part of `createPackage` after the name and the alias are found
        free: the package is created on disk and registered. */
    method CreateUnchecked(name: string, tplFile: Option<string>, dirName: Option<string>, aliasName: Option<string>)
      returns (r: Outcome)
      requires Valid()
      requires ToLower(name) !in packages
      requires !AliasHeld(aliases, if aliasName.Some? then Some(ToLower(aliasName.value)) else None)
      modifies this`packages, this`names, fs
      ensures Valid()
      ensures (fs.entries, packages, names, r)
              == CreatePackageSpec(old(fs.entries), old(packages), old(names), aliases, pkgRoot, builtIn,
                                   name, tplFile, dirName, aliasName)
    {
      var n := ToLower(name);
      var a := if aliasName.Some? then Some(ToLower(aliasName.value)) else None;
      ghost var d0 := fs.entries;
      var made := utils.Create(CreateOptions(pkgRoot, n, tplFile, dirName, a), builtIn);
      CreatePackageRegisters(d0, packages, names, aliases, pkgRoot, builtIn, name, tplFile, dirName, aliasName, fs.entries, made);
      if made.Ok? {
        ToLowerIdempotent(name);
        ListedAdd(packages, names, n, made.value);
        packages := packages[n := made.value];
        names := names + [n];
        r := Pass;
      } else {
        r := Fail(made.error);
      }
    }

    // -------------------------------------------------------------------
    // install

    /** One dependency of the external branch of `install`, over every
        target: the name is deleted from the three records and, unless
        `isDev`, written back as the placeholder. */
    method ExternalDep(dep: string, targets: seq<string>, isPeer: bool, isDev: bool) returns (r: Outcome)
      modifies this`packages
      ensures packages.Keys == old(packages).Keys
      ensures Matches(packages, r, ExternalOne(old(packages), aliases, dep, targets, isPeer, isDev))
    {
      ghost var whole := ExternalOne(packages, aliases, dep, targets, isPeer, isDev);
      ghost var keys := packages.Keys;
      var j := 0;
      r := Pass;
      assert targets[0..] == targets;
      while j < |targets| && r.Pass?
        invariant j <= |targets| && packages.Keys == keys
        invariant r.Fail? ==> whole == Err(r.error)
        invariant r.Pass? ==> ExternalOne(packages, aliases, dep, targets[j..], isPeer, isDev) == whole
      {
        r := ExternalTurn(dep, targets, j, isPeer, isDev);
        j := j + 1;
      }
    }

    /** One target of the external branch's inner loop: the dependency is
        recorded in the target's manifest. */
    method ExternalTurn(dep: string, targets: seq<string>, j: nat, isPeer: bool, isDev: bool) returns (r: Outcome)
      requires j < |targets|
      modifies this`packages
      ensures packages.Keys == old(packages).Keys
      ensures r.Fail? ==> ExternalOne(old(packages), aliases, dep, targets[j..], isPeer, isDev) == Err(r.error)
      ensures r.Pass? ==> ExternalOne(old(packages), aliases, dep, targets[j..], isPeer, isDev) ==
                            ExternalOne(packages, aliases, dep, targets[j + 1..], isPeer, isDev)
    {
      ExternalOneStep(packages, aliases, dep, targets, j, isPeer, isDev);
      var key := Lookup(packages, aliases, targets[j]);
      if key.Err? {
        r := Fail(key.error);
      } else {
        var p := ExternalEdit(packages[key.value], dep, isPeer, isDev);
        if p.Err? {
          r := Fail(p.error);
        } else {
          packages := packages[key.value := p.value];
          r := Pass;
        }
      }
    }

    /** The external branch of `install`: each remote dependency in turn. */
    method ExternalBranch(remote: seq<string>, targets: seq<string>, isPeer: bool, isDev: bool) returns (r: Outcome)
      modifies this`packages
      ensures packages.Keys == old(packages).Keys
      ensures Matches(packages, r, ExternalPass(old(packages), aliases, remote, targets, isPeer, isDev))
    {
      ghost var whole := ExternalPass(packages, aliases, remote, targets, isPeer, isDev);
      ghost var keys := packages.Keys;
      var i := 0;
      assert remote[0..] == remote;
      while i < |remote|
        invariant i <= |remote| && packages.Keys == keys
        invariant ExternalPass(packages, aliases, remote[i..], targets, isPeer, isDev) == whole
      {
        ExternalPassStep(packages, aliases, remote, targets, i, isPeer, isDev);
        r := ExternalDep(remote[i], targets, isPeer, isDev);
        if r.Fail? {
          return;
        }
        i := i + 1;
      }
      r := Pass;
    }

    /** The registry part of one (dependency, target) turn of the local
        branch of `install`: look the target up, skip the dependency
        itself, refuse a recursive dependency, and record it unless
        `noSave`. */
    method RecordLocal(depKey: string, target: string, isPeer: bool, isDev: bool, depPath: seq<string>, noSave: bool)
      returns (r: Outcome, dep: Package, pkg: Package)
      requires depKey in packages
      modifies this`packages
      ensures packages.Keys == old(packages).Keys
      ensures Matches(packages, r, LocalStep(old(packages), aliases, depKey, target, isPeer, isDev, depPath, noSave))
      ensures r.Pass? ==> Lookup(old(packages), aliases, target).Ok? &&
                          pkg == old(packages)[Lookup(old(packages), aliases, target).value] &&
                          dep == old(packages)[depKey] == packages[depKey]
    {
      dep := packages[depKey];
      var key := Lookup(packages, aliases, target);
      if key.Err? {
        return Fail(key.error), dep, dep;
      }
      pkg := packages[key.value];
      if dep.name == pkg.name {
        return Pass, dep, pkg;
      }
      var recursive := Recursive(dep, pkg.name, depPath);
      if recursive.Err? {
        return Fail(recursive.error), dep, pkg;
      }
      if recursive.value {
        return Fail(RecursiveDep(pkg.name, dep.name)), dep, pkg;
      }
      if !noSave {
        var p := LocalEdit(pkg, dep.name, isPeer, isDev);
        if p.Err? {
          return Fail(p.error), dep, pkg;
        }
        packages := packages[key.value := p.value];
      }
      r := Pass;
    }

    /** One (dependency, target) turn of the local branch of `install`:
        after the registry part, install the dependency's own production
        local dependencies into the target, and link it there. */
    method LocalTarget(depKey: string, target: string, isPeer: bool, isDev: bool, depPath: seq<string>,
                       noSave: bool, noBootStrap: bool, fuel: nat) returns (r: Outcome)
      requires Valid() && depKey in packages
      modifies this`packages, npm, fs
      ensures Valid() && packages.Keys == old(packages).Keys
      ensures NoAliasKeys(old(packages)) ==>
                Sound(packages, r, LocalStep(old(packages), aliases, depKey, target, isPeer, isDev, depPath, noSave))
      decreases fuel, 1
    {
      ghost var p0 := packages;
      var dep, pkg;
      r, dep, pkg := RecordLocal(depKey, target, isPeer, isDev, depPath, noSave);
      SameKeys(p0, packages, names);
      if r.Pass? && dep.name != pkg.name {
        r := LinkLocal(dep, pkg, depPath, noBootStrap, fuel);
      }
    }

    /** The rest of one local turn once the registry part passed: from the
        target's directory, the dependency's own production local
        dependencies are installed into the target without saving, then
        the dependency is linked. */
    method LinkLocal(dep: Package, pkg: Package, depPath: seq<string>, noBootStrap: bool, fuel: nat) returns (r: Outcome)
      requires Valid()
      modifies this`packages, npm, fs
      ensures Valid() && packages.Keys == old(packages).Keys
      ensures NoAliasKeys(old(packages)) && r.Pass? ==> packages == old(packages)
      decreases fuel, 0
    {
      npm.Chdir(pkg.root);
      var indirect := ExtractLocalDeps(packages, dep, true);
      if indirect.Err? {
        return Fail(indirect.error);
      }
      if indirect.value != [] {
        if fuel == 0 {
          return Fail(FuelExhausted);
        }
        r := InstallQuietly(indirect.value, pkg.name, depPath + [pkg.name], noBootStrap, fuel - 1);
        if r.Fail? {
          return;
        }
      }
      r := npm.Link(dep.name, dep.root);
    }

    /** A nested install of registered packages into one target, without
        saving: it leaves the registry as it was. */
    method InstallQuietly(deps: seq<string>, target: string, depPath: seq<string>, noBootStrap: bool, fuel: nat)
      returns (r: Outcome)
      requires Valid() && forall d :: d in deps ==> d in packages
      modifies this`packages, npm, fs
      ensures Valid() && packages.Keys == old(packages).Keys
      ensures NoAliasKeys(old(packages)) && r.Pass? ==> packages == old(packages)
      decreases fuel, 7
    {
      ghost var before := packages;
      r := Install(deps, [target], false, false, depPath, true, noBootStrap, fuel);
      if r.Pass? && NoAliasKeys(before) {
        QuietInstall(before, aliases, names, deps, [target], false, false, depPath);
      }
    }

    /** One local dependency of the local branch of `install`, over every
        target. */
    method LocalDep(depKey: string, targets: seq<string>, isPeer: bool, isDev: bool, depPath: seq<string>,
                    noSave: bool, noBootStrap: bool, fuel: nat) returns (r: Outcome)
      requires Valid() && depKey in packages
      modifies this`packages, npm, fs
      ensures Valid() && packages.Keys == old(packages).Keys
      ensures NoAliasKeys(old(packages)) ==>
                Sound(packages, r, LocalTargets(old(packages), aliases, depKey, targets, isPeer, isDev, depPath, noSave))
      decreases fuel, 2
    {
      ghost var p0 := packages;
      ghost var whole := LocalTargets(packages, aliases, depKey, targets, isPeer, isDev, depPath, noSave);
      var j := 0;
      assert targets[0..] == targets;
      while j < |targets|
        invariant j <= |targets| && packages.Keys == p0.Keys && Valid()
        invariant NoAliasKeys(p0) ==> LocalTargets(packages, aliases, depKey, targets[j..], isPeer, isDev, depPath, noSave) == whole
      {
        LocalTargetsStep(packages, aliases, depKey, targets, j, isPeer, isDev, depPath, noSave);
        SameKeys(p0, packages, names);
        r := LocalTarget(depKey, targets[j], isPeer, isDev, depPath, noSave, noBootStrap, fuel);
        if r.Fail? {
          return;
        }
        j := j + 1;
      }
      r := Pass;
    }

    /** The local branch of `install`: each local dependency in turn,
        looked up first. */
    method LocalBranch(local: seq<string>, targets: seq<string>, isPeer: bool, isDev: bool, depPath: seq<string>,
                       noSave: bool, noBootStrap: bool, fuel: nat) returns (r: Outcome)
      requires Valid()
      modifies this`packages, npm, fs
      ensures Valid() && packages.Keys == old(packages).Keys
      ensures NoAliasKeys(old(packages)) ==>
                Sound(packages, r, LocalPass(old(packages), aliases, local, targets, isPeer, isDev, depPath, noSave))
      decreases fuel, 3
    {
      ghost var p0 := packages;
      ghost var whole := LocalPass(packages, aliases, local, targets, isPeer, isDev, depPath, noSave);
      var i := 0;
      assert local[0..] == local;
      while i < |local|
        invariant i <= |local| && packages.Keys == p0.Keys && Valid()
        invariant NoAliasKeys(p0) ==> LocalPass(packages, aliases, local[i..], targets, isPeer, isDev, depPath, noSave) == whole
      {
        LocalPassStep(packages, aliases, local, targets, i, isPeer, isDev, depPath, noSave);
        var depKey := Lookup(packages, aliases, local[i]);
        if depKey.Err? {
          return Fail(depKey.error);
        }
        SameKeys(p0, packages, names);
        r := LocalDep(depKey.value, targets, isPeer, isDev, depPath, noSave, noBootStrap, fuel);
        if r.Fail? {
          return;
        }
        i := i + 1;
      }
      r := Pass;
    }

    /** The closing loop of `install` and `uninstall`: every target is
        looked up and saved. */
    method SaveAll(targets: seq<string>) returns (r: Outcome)
      requires Valid()
      modifies fs
      ensures Valid()
      ensures r.Pass? ==> forall t :: t in targets ==> Lookup(packages, aliases, t).Ok?
    {
      var i := 0;
      while i < |targets|
        invariant i <= |targets| && Valid()
        invariant forall t :: t in targets[..i] ==> Lookup(packages, aliases, t).Ok?
      {
        var key := Lookup(packages, aliases, targets[i]);
        if key.Err? {
          return Fail(key.error);
        }
        var saved := utils.Save(packages[key.value]);
        if saved.Err? {
          return Fail(saved.error);
        }
        assert targets[..i + 1] == targets[..i] + [targets[i]];
        i := i + 1;
      }
      assert targets[..i] == targets;
      r := Pass;
    }

    /** `_bootstrapLocal()`: every package, in key order, has its local
        dependencies installed into it without saving. */
    method BootstrapLocal(fuel: nat) returns (r: Outcome)
      requires Valid()
      modifies this`packages, npm, fs
      ensures Valid() && packages.Keys == old(packages).Keys
      ensures NoAliasKeys(old(packages)) && r.Pass? ==> packages == old(packages)
      decreases fuel, 1
    {
      ghost var p0 := packages;
      var i := 0;
      while i < |names|
        invariant i <= |names| && packages.Keys == p0.Keys && Valid()
        invariant NoAliasKeys(p0) ==> packages == p0
      {
        assert names[i] in packages;
        var pkg := packages[names[i]];
        var deps := ExtractLocalDeps(packages, pkg, false);
        if deps.Err? {
          return Fail(deps.error);
        }
        if fuel == 0 {
          return Fail(FuelExhausted);
        }
        SameKeys(p0, packages, names);
        r := InstallQuietly(deps.value, pkg.name, [], true, fuel - 1);
        if r.Fail? {
          return;
        }
        i := i + 1;
      }
      r := Pass;
    }

    /** `install(deps, pkgs, isPeer, isDev, depPath, noSave, noBootStrap)`:
        the targets are checked (an unknown one fails before anything
        happens), the remote dependencies go to npm and into the records of
        every target, the local ones are recorded, installed and linked,
        every target is saved and, when a local dependency was installed,
        the local bootstrap runs. `fuel` bounds the nested installs. The
        dependency counter is not touched. */
    method Install(deps: seq<string>, pkgs: seq<string>, isPeer: bool, isDev: bool, depPath: seq<string>,
                   noSave: bool, noBootStrap: bool, fuel: nat) returns (r: Outcome)
      requires Valid()
      modifies this`packages, npm, fs
      ensures Valid() && packages.Keys == old(packages).Keys
      ensures var t := Targets(old(packages), aliases, names, LowerAll(pkgs));
              t.Err? ==> r == Fail(t.error) && packages == old(packages) && fs.entries == old(fs.entries) &&
                         npm.cwd == old(npm.cwd) && npm.commands == old(npm.commands)
      ensures NoAliasKeys(old(packages)) ==>
                Sound(packages, r, InstallEdits(old(packages), aliases, names, deps, pkgs, isPeer, isDev, depPath, noSave))
      decreases fuel, 6
    {
      var targets := Targets(packages, aliases, names, LowerAll(pkgs));
      if targets.Err? {
        return Fail(targets.error);
      }
      r := InstallBranchesRun(LowerAll(deps), targets.value, isPeer, isDev, depPath, noSave, noBootStrap, fuel);
    }

    /** `install` once the targets are settled: the remote dependencies go
        to npm from the root, both branches edit the registry, every target
        is saved and, when a local dependency was installed, the local
        bootstrap runs. */
    method InstallBranchesRun(ds: seq<string>, targets: seq<string>, isPeer: bool, isDev: bool, depPath: seq<string>,
                              noSave: bool, noBootStrap: bool, fuel: nat) returns (r: Outcome)
      requires Valid()
      modifies this`packages, npm, fs
      ensures Valid() && packages.Keys == old(packages).Keys
      ensures NoAliasKeys(old(packages)) ==>
                Sound(packages, r, InstallBranches(old(packages), aliases, ds, targets, isPeer, isDev, depPath, noSave))
      decreases fuel, 5
    {
      var local := Local(packages, aliases, ds);
      r := EditBranches(ds, targets, isPeer, isDev, depPath, noSave, noBootStrap, fuel);
      if r.Pass? {
        r := SaveAndBootstrap(targets, local != [] && !noBootStrap, fuel);
      }
    }

    /** The registry part of `install`: npm installs the remote
        dependencies from the root, then the external and the local branch
        run. */
    method EditBranches(ds: seq<string>, targets: seq<string>, isPeer: bool, isDev: bool, depPath: seq<string>,
                        noSave: bool, noBootStrap: bool, fuel: nat) returns (r: Outcome)
      requires Valid()
      modifies this`packages, npm, fs
      ensures Valid() && packages.Keys == old(packages).Keys
      ensures NoAliasKeys(old(packages)) ==>
                Sound(packages, r, InstallBranches(old(packages), aliases, ds, targets, isPeer, isDev, depPath, noSave))
      decreases fuel, 4
    {
      var remote := Remote(packages, aliases, ds);
      var local := Local(packages, aliases, ds);
      npm.Chdir(root);
      r := npm.Install(remote, false, false);
      if r.Fail? {
        return;
      }
      ghost var p0 := packages;
      r := ExternalBranch(remote, targets, isPeer, isDev);
      if r.Pass? {
        SameKeys(p0, packages, names);
        r := LocalBranch(local, targets, isPeer, isDev, depPath, noSave, noBootStrap, fuel);
      }
    }

    /** The end of `install`: every target is saved, then the local
        bootstrap runs when asked to. */
    method SaveAndBootstrap(targets: seq<string>, bootstrap: bool, fuel: nat) returns (r: Outcome)
      requires Valid()
      modifies this`packages, npm, fs
      ensures Valid() && packages.Keys == old(packages).Keys
      ensures NoAliasKeys(old(packages)) && r.Pass? ==> packages == old(packages)
      decreases fuel, 4
    {
      r := SaveAll(targets);
      if r.Pass? && bootstrap {
        r := BootstrapLocal(fuel);
      }
    }

    // -------------------------------------------------------------------
    // uninstall

    /** One remote dependency of `_uninstallRemoteDeps`, over every
        target: the name is deleted from the three records, then the
        target removes the whole list from the counter. */
    method RemoteDep(dep: string, deps: seq<string>, targets: seq<string>) returns (r: Outcome)
      requires counter.Valid()
      modifies this`packages, counter
      ensures counter.Valid() && packages.Keys == old(packages).Keys
      ensures Matches(packages, r, RemoteOne(old(packages), aliases, dep, targets))
      ensures r.Pass? ==> counter.table == RemoveEach(old(counter.table), targets, deps)
    {
      ghost var whole := RemoteOne(packages, aliases, dep, targets);
      ghost var t0 := counter.table;
      ghost var keys := packages.Keys;
      var j := 0;
      r := Pass;
      assert targets[0..] == targets;
      while j < |targets| && r.Pass?
        invariant j <= |targets| && packages.Keys == keys && counter.Valid()
        invariant r.Fail? ==> whole == Err(r.error)
        invariant r.Pass? ==> RemoteOne(packages, aliases, dep, targets[j..]) == whole &&
                              counter.table == RemoveEach(t0, targets[..j], deps)
      {
        RemoveEachSnoc(t0, targets, j, deps);
        r := RemoteTurn(dep, deps, targets, j);
        j := j + 1;
      }
      if r.Pass? {
        assert targets[..j] == targets;
      }
    }

    /** One target of `_uninstallRemoteDeps`' inner loop: the dependency
        leaves the target's records, and the counter forgets the target's
        use of every dependency. */
    method RemoteTurn(dep: string, deps: seq<string>, targets: seq<string>, j: nat) returns (r: Outcome)
      requires counter.Valid() && j < |targets|
      modifies this`packages, counter
      ensures counter.Valid() && packages.Keys == old(packages).Keys
      ensures r.Fail? ==> RemoteOne(old(packages), aliases, dep, targets[j..]) == Err(r.error)
      ensures r.Pass? ==> RemoteOne(old(packages), aliases, dep, targets[j..]) == RemoteOne(packages, aliases, dep, targets[j + 1..]) &&
                          counter.table == AfterRemove(old(counter.table), Pkg(targets[j]), deps)
    {
      RemoteOneStep(packages, aliases, dep, targets, j);
      var key := Lookup(packages, aliases, targets[j]);
      if key.Err? {
        return Fail(key.error);
      }
      var p := Unrecord(packages[key.value], dep);
      if p.Err? {
        return Fail(p.error);
      }
      packages := packages[key.value := p.value];
      counter.Remove(Pkg(targets[j]), deps);
      r := Pass;
    }

    /** `_uninstallRemoteDeps(deps, pkgs)`: every dependency in turn is
        removed from every target, then `npm un` runs at the root for the
        names the counter no longer reaches. */
    method UninstallRemoteDeps(remote: seq<string>, targets: seq<string>) returns (r: Outcome)
      requires Valid()
      modifies this`packages, counter, npm
      ensures Valid() && packages.Keys == old(packages).Keys
      ensures var e := RemotePass(old(packages), aliases, remote, targets);
              (e.Err? ==> r == Fail(e.error) && npm.cwd == old(npm.cwd) && npm.commands == old(npm.commands)) &&
              (e.Ok? ==> packages == e.value &&
                         counter.table == RemoteCounts(old(counter.table), |remote|, targets, remote) &&
                         npm.cwd == root &&
                         var un := RunAll(npm.failing, UninstallCommands(root, Unreferenced(counter.table, remote)));
                         npm.commands == old(npm.commands) + un.0 && r == un.1)
    {
      ghost var whole := RemotePass(packages, aliases, remote, targets);
      ghost var t0 := counter.table;
      ghost var p0 := packages;
      var i := 0;
      assert remote[0..] == remote;
      while i < |remote|
        invariant i <= |remote| && packages.Keys == p0.Keys && counter.Valid()
        invariant npm.cwd == old(npm.cwd) && npm.commands == old(npm.commands)
        invariant RemotePass(packages, aliases, remote[i..], targets) == whole
        invariant counter.table == RemoteCounts(t0, i, targets, remote)
      {
        RemotePassStep(packages, aliases, remote, targets, i);
        r := RemoteDep(remote[i], remote, targets);
        if r.Fail? {
          SameKeys(p0, packages, names);
          return;
        }
        i := i + 1;
      }
      SameKeys(p0, packages, names);
      r := UninstallUnreferenced(remote);
    }

    /** The close of `_uninstallRemoteDeps`: `npm un` at the root for the
        names the counter's global flattening no longer reaches. */
    method UninstallUnreferenced(remote: seq<string>) returns (r: Outcome)
      requires counter.Valid()
      modifies npm
      ensures var un := RunAll(npm.failing, UninstallCommands(root, Unreferenced(counter.table, remote)));
              npm.cwd == root && npm.commands == old(npm.commands) + un.0 && r == un.1
    {
      var refs := counter.GenerateMap(Global);
      npm.Chdir(root);
      var gone := Filter(remote, v => v !in refs);
      ghost var t := counter.table;
      FilterAgree(remote, v => v !in refs, x => Reach(t, Global, [], x) == 0);
      r := npm.Uninstall(gone, false, false);
    }

    /** The record and counter part of one target of
        `_uninstallLocalDeps`: each dependency, looked up, is deleted from
        the target's records and removed from its counts, unless it is the
        target itself. */
    method DropDeps(key: string, deps: seq<string>) returns (r: Outcome)
      requires counter.Valid() && key in packages
      modifies this`packages, counter
      ensures counter.Valid() && packages.Keys == old(packages).Keys
      ensures Matches(packages, r, LocalDrop(old(packages), aliases, key, deps))
      ensures r.Pass? ==> counter.table == RemovePairs(old(counter.table), DropPairs(old(packages), aliases, old(packages)[key].name, deps))
    {
      ghost var p0 := packages;
      ghost var t0 := counter.table;
      ghost var whole := LocalDrop(packages, aliases, key, deps);
      var j := 0;
      assert deps[0..] == deps;
      while j < |deps|
        invariant j <= |deps| && packages.Keys == p0.Keys && counter.Valid()
        invariant Edited(p0, packages)
        invariant LocalDrop(packages, aliases, key, deps[j..]) == whole
        invariant counter.table == RemovePairs(t0, DropPairs(p0, aliases, p0[key].name, deps[..j]))
      {
        LocalDropStep(packages, aliases, key, deps, j);
        r := DropOne(key, deps, j, p0, t0);
        if r.Fail? {
          return;
        }
        j := j + 1;
      }
      assert deps[..j] == deps;
      r := Pass;
    }

    /** One turn of `DropDeps`: the next dependency is dropped from the
        records and the counts. */
    method DropOne(key: string, deps: seq<string>, j: nat, ghost p0: Packages, ghost t0: Table) returns (r: Outcome)
      requires counter.Valid() && ValidTable(t0) && key in packages && j < |deps| && Edited(p0, packages)
      requires counter.table == RemovePairs(t0, DropPairs(p0, aliases, p0[key].name, deps[..j]))
      modifies this`packages, counter
      ensures counter.Valid() && Edited(p0, packages)
      ensures Matches(packages, r, DropStep(old(packages), aliases, key, deps[j]))
      ensures r.Pass? ==> counter.table == RemovePairs(t0, DropPairs(p0, aliases, p0[key].name, deps[..j + 1]))
    {
      DropOneStep(p0, packages, aliases, key, deps, j, t0);
      var owner := packages[key].name;
      var drop;
      r, drop := DropEdit(key, deps[j]);
      if drop.Some? {
        counter.Remove(Pkg(owner), [drop.value]);
      }
    }

    /** The registry half of one turn of the inner loop of
        `_uninstallLocalDeps`: the name the counter must forget, if any, is
        returned. */
    method DropEdit(key: string, x: string) returns (r: Outcome, drop: Option<string>)
      requires key in packages
      modifies this`packages
      ensures Matches(packages, r, DropStep(old(packages), aliases, key, x))
      ensures r.Fail? ==> packages == old(packages)
      ensures var found := Lookup(old(packages), aliases, x);
              (drop.Some? <==> r.Pass? && found.Ok? && old(packages)[found.value].name != old(packages)[key].name) &&
              (drop.Some? ==> drop.value == old(packages)[found.value].name)
    {
      var found := Lookup(packages, aliases, x);
      drop := None;
      if found.Err? {
        r := Fail(found.error);
      } else {
        var dep := packages[found.value];
        var pkg := packages[key];
        if dep.name == pkg.name {
          r := Pass;
        } else {
          var p := Unrecord(pkg, dep.name);
          if p.Err? {
            r := Fail(p.error);
          } else {
            packages := packages[key := p.value];
            drop := Some(dep.name);
            r := Pass;
          }
        }
      }
    }

    /** `unlink(d)` for each name in turn, from the helper's directory. */
    method UnlinkEach(gone: seq<string>) returns (r: Outcome)
      requires npm.fs == fs
      modifies fs
      ensures (fs.entries, r) == UnlinkAll(old(fs.entries), npm.cwd, gone)
    {
      ghost var whole := UnlinkAll(fs.entries, npm.cwd, gone);
      var i := 0;
      assert gone[0..] == gone;
      while i < |gone|
        invariant i <= |gone| && UnlinkAll(fs.entries, npm.cwd, gone[i..]) == whole
      {
        assert gone[i..][1..] == gone[i + 1..];
        r := npm.Unlink(gone[i]);
        if r.Fail? {
          return;
        }
        i := i + 1;
      }
      r := Pass;
    }

    /** One target of `_uninstallLocalDeps`: the records and counts are
        dropped, then, from the target's root, every name its flattened
        counts reached before and no longer reach is unlinked. */
    method DropTarget(target: string, deps: seq<string>) returns (r: Outcome, ghost gone: seq<string>)
      requires Valid()
      modifies this`packages, counter, npm, fs
      ensures Valid() && packages.Keys == old(packages).Keys
      ensures var key := Lookup(old(packages), aliases, target);
              (key.Err? ==> r == Fail(key.error) && packages == old(packages) && counter.table == old(counter.table)) &&
              (key.Ok? ==> Sound(packages, r, LocalDrop(old(packages), aliases, key.value, deps)))
      ensures r.Pass? ==>
                var key := Lookup(old(packages), aliases, target).value;
                var owner := Pkg(old(packages)[key].name);
                counter.table == RemovePairs(old(counter.table), DropPairs(old(packages), aliases, owner.name, deps)) &&
                npm.cwd == old(packages)[key].root &&
                (forall x :: x in gone <==> Reach(old(counter.table), owner, [], x) > 0 && Reach(counter.table, owner, [], x) == 0) &&
                (fs.entries, Pass) == UnlinkAll(old(fs.entries), npm.cwd, gone)
    {
      gone := [];
      ghost var p0 := packages;
      var key := Lookup(packages, aliases, target);
      if key.Err? {
        return Fail(key.error), gone;
      }
      var pkg := packages[key.value];
      var prev := counter.GenerateMap(Pkg(pkg.name));
      r := DropDeps(key.value, deps);
      SameKeys(p0, packages, names);
      if r.Fail? {
        return;
      }
      var final := counter.GenerateMap(Pkg(pkg.name));
      npm.Chdir(pkg.root);
      var stale := Filter(SortedKeysOf(prev), v => v !in final);
      gone := stale;
      r := UnlinkEach(stale);
    }

    /** `_cleanLocalPackageNodeModules()`: `rm -rf node_modules` in every
        package's root, in key order. */
    method CleanNodeModules() returns (r: Outcome)
      requires Valid()
      modifies fs
      ensures (fs.entries, r) == CleanTrees(old(fs.entries), npm.failing, packages, names)
    {
      ghost var whole := CleanTrees(fs.entries, npm.failing, packages, names);
      var i := 0;
      assert names[0..] == names;
      while i < |names|
        invariant i <= |names| && CleanTrees(fs.entries, npm.failing, packages, names[i..]) == whole
      {
        assert names[i..][1..] == names[i + 1..];
        assert names[i] in packages;
        var root := packages[names[i]].root;
        if RemoveModulesCommand(root) in npm.failing {
          return Exec(npm.failing, RemoveModulesCommand(root));
        }
        fs.RemoveAll(Concat(root, "node_modules"));
        i := i + 1;
      }
      r := Pass;
    }

    /** `_uninstallLocalDeps(deps, pkgs)`: every target in turn drops the
        local dependencies; when there were any, every package's
        `node_modules` is removed and the local bootstrap runs. */
    method UninstallLocalDeps(local: seq<string>, targets: seq<string>, fuel: nat) returns (r: Outcome)
      requires Valid()
      modifies this`packages, counter, npm, fs
      ensures Valid() && packages.Keys == old(packages).Keys
      ensures NoAliasKeys(old(packages)) ==> Sound(packages, r, LocalRemovePass(old(packages), aliases, targets, local))
      ensures r.Pass? ==> counter.table == RemovePairs(old(counter.table), LocalPairs(old(packages), aliases, targets, local))
    {
      ghost var p0 := packages;
      ghost var t0 := counter.table;
      ghost var whole := LocalRemovePass(packages, aliases, targets, local);
      var i := 0;
      r := Pass;
      assert targets[0..] == targets;
      while i < |targets| && r.Pass?
        invariant i <= |targets| && packages.Keys == p0.Keys && Valid()
        invariant r.Pass? ==> Edited(p0, packages) &&
                              LocalRemovePass(packages, aliases, targets[i..], local) == whole &&
                              counter.table == RemovePairs(t0, LocalPairs(p0, aliases, targets[..i], local))
      {
        r := LocalTurn(targets, local, i, p0, t0);
        i := i + 1;
      }
      if r.Pass? {
        assert targets[..i] == targets;
        if local != [] {
          r := CleanNodeModules();
          if r.Pass? {
            r := BootstrapLocal(fuel);
          }
        }
      }
    }

    /** One target of `_uninstallLocalDeps`: its local dependencies are
        dropped, and the registry and the counter move one step along
        `LocalRemovePass` and `LocalPairs`. */
    method LocalTurn(targets: seq<string>, local: seq<string>, i: nat, ghost p0: Packages, ghost t0: Table)
      returns (r: Outcome)
      requires Valid() && i < |targets| && ValidTable(t0)
      requires packages.Keys == p0.Keys && Edited(p0, packages)
      requires counter.table == RemovePairs(t0, LocalPairs(p0, aliases, targets[..i], local))
      modifies this`packages, counter, npm, fs
      ensures Valid() && packages.Keys == old(packages).Keys
      ensures r.Pass? ==> Edited(p0, packages) &&
                          LocalRemovePass(old(packages), aliases, targets[i..], local) ==
                            LocalRemovePass(packages, aliases, targets[i + 1..], local) &&
                          counter.table == RemovePairs(t0, LocalPairs(p0, aliases, targets[..i + 1], local))
    {
      LocalRemovePassStep(packages, aliases, targets, local, i);
      LocalPairsSnoc(p0, aliases, targets, local, i);
      LookupKeys(p0, packages, aliases, targets[i]);
      ghost var before := packages;
      ghost var gone;
      r, gone := DropTarget(targets[i], local);
      if r.Pass? {
        ghost var key := Lookup(before, aliases, targets[i]).value;
        LocalDropClears(before, aliases, key, local);
        EditedTransitive(p0, before, packages);
        DropPairsEdited(p0, before, aliases, before[key].name, local);
        RemovePairsAppend(t0, LocalPairs(p0, aliases, targets[..i], local), DropPairs(p0, aliases, p0[key].name, local));
      }
    }

    /** `uninstall(deps, pkgs)`: the remote and local dependencies are
        chosen against the counter's global flattening, the targets are
        looked up and checked, both phases run, and every target is saved. */
    method Uninstall(deps: seq<string>, pkgs: seq<string>, fuel: nat) returns (r: Outcome)
      requires Valid()
      modifies this`packages, counter, npm, fs
      ensures Valid() && packages.Keys == old(packages).Keys
      ensures var tg := UninstallTargets(old(packages), aliases, names, pkgs);
              (tg.Err? ==> r == Fail(tg.error) && packages == old(packages) && counter.table == old(counter.table) &&
                           fs.entries == old(fs.entries) && npm.cwd == old(npm.cwd) && npm.commands == old(npm.commands)) &&
              (tg.Ok? && r.Pass? ==> counter.table == UninstallCounts(old(packages), aliases, tg.value, old(counter.table), deps))
      ensures NoAliasKeys(old(packages)) ==>
                Sound(packages, r, UninstallPlan(old(packages), aliases, names, old(counter.table), deps, pkgs))
    {
      ghost var p0 := packages;
      ghost var t0 := counter.table;
      var refs := counter.GenerateMap(Global);
      var ps, als := packages, aliases;
      var unfound := Filter(deps, x => Find(ps, als, x).None?);
      var remote := Filter(unfound, x => x in refs);
      FilterAgree(unfound, x => x in refs, x => Reach(t0, Global, [], x) > 0);
      assert remote == UninstallRemote(p0, aliases, t0, deps);
      var found := FoundNames(packages, aliases, deps);
      var local := Filter(found, x => x != "" && x in refs);
      FilterAgree(found, x => x != "" && x in refs, x => x != "" && Reach(t0, Global, [], x) > 0);
      assert local == UninstallLocal(p0, aliases, t0, deps);
      var mapped := TargetNames(packages, aliases, pkgs);
      if mapped.Err? {
        r := Fail(mapped.error);
      } else {
        var targets := Targets(packages, aliases, names, mapped.value);
        if targets.Err? {
          r := Fail(targets.error);
        } else {
          r := UninstallRun(remote, local, targets.value, fuel);
        }
      }
    }

    /** `uninstall` once its targets and its two lists are known: the
        remote phase, the local phase, then every target is saved. */
    method UninstallRun(remote: seq<string>, local: seq<string>, targets: seq<string>, fuel: nat) returns (r: Outcome)
      requires Valid()
      modifies this`packages, counter, npm, fs
      ensures Valid() && packages.Keys == old(packages).Keys
      ensures r.Pass? ==> counter.table == RemovePairs(RemoteCounts(old(counter.table), |remote|, targets, remote),
                                                        LocalPairs(old(packages), aliases, targets, local))
      ensures NoAliasKeys(old(packages)) ==> Sound(packages, r, UninstallEdits(old(packages), aliases, targets, remote, local))
    {
      ghost var p0 := packages;
      r := UninstallRemoteDeps(remote, targets);
      if r.Pass? {
        ghost var mid := packages;
        SameKeys(p0, mid, names);
        r := UninstallLocalDeps(local, targets, fuel);
        if r.Pass? {
          RemotePassClears(p0, aliases, remote, targets);
          LocalPairsEdited(p0, mid, aliases, targets, local);
          r := SaveAll(targets);
        }
      }
    }

    // -------------------------------------------------------------------
    // release

    /** `_backupPackageJson()`: the backup directory is created, then every
        releasable manifest is copied into it. */
    method BackupManifests() returns (r: Outcome)
      requires Valid()
      modifies fs
      ensures (fs.entries, r) == Backup(old(fs.entries), root, packages, names)
    {
      r := fs.MkdirP(BackupDir(root));
      if r.Fail? {
        return;
      }
      ghost var whole := BackupFiles(fs.entries, root, packages, names);
      var i := 0;
      assert names[0..] == names;
      while i < |names|
        invariant i <= |names| && BackupFiles(fs.entries, root, packages, names[i..]) == whole
      {
        assert names[i..][1..] == names[i + 1..];
        assert names[i] in packages;
        var pkg := packages[names[i]];
        if !pkg.noRelease {
          r := fs.CopyFile(ManifestOf(pkg), BackupPath(root, pkg));
          if r.Fail? {
            return;
          }
        }
        i := i + 1;
      }
      r := Pass;
    }

    /** The first loop of `_setupDependencies`: every releasable package
        takes the new version. */
    method StampVersions(version: string)
      requires Valid()
      modifies this`packages
      ensures Valid()
      ensures packages == StampAll(old(packages), names, version)
    {
      ghost var whole := StampAll(packages, names, version);
      ghost var p0 := packages;
      var i := 0;
      assert names[0..] == names;
      while i < |names|
        invariant i <= |names| && packages.Keys == p0.Keys
        invariant StampAll(packages, names[i..], version) == whole
      {
        assert names[i] in p0;
        StampAllStep(packages, names, i, version);
        var pkg := packages[names[i]];
        if !pkg.noRelease {
          packages := packages[names[i] := Stamp(pkg, version)];
        }
        i := i + 1;
      }
      SameKeys(p0, packages, names);
    }

    /** The second loop of `_setupDependencies`: each releasable package is
        stamped again, has its runtime and peer records resolved to release
        ranges and npm's hooks removed, and its manifest is written. A
        package whose rewrite stops half-way stays in the registry as far
        as it got. */
    method PrepareManifests(version: string) returns (r: Outcome)
      requires Valid()
      modifies this`packages, fs
      ensures Valid() && packages.Keys == old(packages).Keys
      ensures (fs.entries, packages, r) == SetupRest(old(fs.entries), old(packages), rootPackage, names, version)
    {
      ghost var whole := SetupRest(fs.entries, packages, rootPackage, names, version);
      ghost var p0 := packages;
      var i := 0;
      assert names[0..] == names;
      while i < |names|
        invariant i <= |names| && packages.Keys == p0.Keys
        invariant SetupRest(fs.entries, packages, rootPackage, names[i..], version) == whole
      {
        assert names[i..][1..] == names[i + 1..];
        var key := names[i];
        assert key in p0;
        if !packages[key].noRelease {
          var (p, o) := Prepare(packages, rootPackage, key, version);
          packages := packages[key := p];
          if o.Fail? {
            SameKeys(p0, packages, names);
            return o;
          }
          r := fs.WriteJson(Concat(p.root, ManifestName), JObj(p.raw));
          if r.Fail? {
            SameKeys(p0, packages, names);
            return;
          }
        }
        i := i + 1;
      }
      SameKeys(p0, packages, names);
      r := Pass;
    }

    /** `_setupDependencies(version)`. */
    method SetupDependencies(version: string) returns (r: Outcome)
      requires Valid()
      modifies this`packages, fs
      ensures Valid() && packages.Keys == old(packages).Keys
      ensures (fs.entries, packages, r) == Setup(old(fs.entries), old(packages), rootPackage, names, version)
    {
      StampVersions(version);
      r := PrepareManifests(version);
    }

    /** A hook loop of `release`: from the directory of every releasable
        package, its `hook` script is run when it defines one. */
    method RunHooks(hook: string) returns (r: Outcome)
      requires npm.fs == fs && forall k :: k in names ==> k in packages
      modifies npm
      ensures npm.commands == old(npm.commands) + HookCommands(fs.entries, npm.failing, packages, names, hook).0
      ensures r == HookCommands(fs.entries, npm.failing, packages, names, hook).1
    {
      ghost var d, ps := fs.entries, packages;
      ghost var whole := HookCommands(d, npm.failing, ps, names, hook);
      ghost var done: seq<Command> := [];
      var i := 0;
      assert names[0..] == names;
      while i < |names|
        invariant i <= |names| && npm.commands == old(npm.commands) + done
        invariant HookAt(d, npm.failing, ps, names, hook, i, done, whole)
      {
        ghost var now;
        r, now := RunHook(names[i], hook);
        HookAdvance(d, npm.failing, ps, names, hook, i, done, whole, now, r);
        if r.Fail? {
          return;
        }
        done := done + now;
        i := i + 1;
      }
      assert done + [] == done;
      r := Pass;
    }

    /** One turn of a hook loop. */
    method RunHook(key: string, hook: string) returns (r: Outcome, ghost now: seq<Command>)
      requires key in packages && npm.fs == fs
      modifies npm
      ensures npm.commands == old(npm.commands) + now
      ensures !RunsHook(packages[key], hook) ==> now == [] && r == Pass
      ensures RunsHook(packages[key], hook) ==> (now, r) == RunSpec(fs.entries, npm.failing, packages[key].root, hook)
    {
      now := [];
      r := Pass;
      var pkg := packages[key];
      if !pkg.noRelease {
        npm.Chdir(pkg.root);
        if hook in pkg.scripts && pkg.scripts[hook] != "" {
          now := RunSpec(fs.entries, npm.failing, pkg.root, hook).0;
          r := npm.Run(hook);
        }
      }
    }

    /** The publish loop of `release`: `npm publish` from the directory of
        every releasable package, until one fails. */
    method PublishAll(versions: map<string, string>, confirmed: bool) returns (r: Outcome)
      requires forall k :: k in names ==> k in packages
      modifies npm
      ensures var run := RunAll(npm.failing, PublishCommands(packages, names, versions, confirmed));
              npm.commands == old(npm.commands) + run.0 && r == run.1
    {
      ghost var whole := RunAll(npm.failing, PublishCommands(packages, names, versions, confirmed));
      ghost var done: seq<Command> := [];
      var i := 0;
      assert names[0..] == names;
      while i < |names|
        invariant i <= |names| && npm.commands == old(npm.commands) + done
        invariant PublishAt(npm.failing, packages, names, versions, confirmed, i, done, whole)
      {
        ghost var before := npm.commands;
        r := PublishOne(names[i], versions, confirmed);
        ghost var now := npm.commands[|before|..];
        assert npm.commands == before + now;
        PublishAdvance(npm.failing, packages, names, versions, confirmed, i, done, whole, now, r);
        if r.Fail? {
          return;
        }
        done := done + now;
        i := i + 1;
      }
      assert done + [] == done;
      r := Pass;
    }

    /** One turn of the publish loop: the extra arguments are `--dry-run`
        unless confirmed, and `--access=public` for a package with no
        published version that is not `privateAccess`. */
    method PublishOne(key: string, versions: map<string, string>, confirmed: bool) returns (r: Outcome)
      requires key in packages
      modifies npm
      ensures var c := PublishCommand(packages[key], key, versions, confirmed);
              npm.commands == old(npm.commands) + (if packages[key].noRelease then [] else [c]) &&
              r == if packages[key].noRelease then Pass else Exec(npm.failing, c)
    {
      r := Pass;
      var pkg := packages[key];
      if !pkg.noRelease {
        npm.Chdir(pkg.root);
        var args: seq<string> := [];
        if !confirmed {
          args := args + ["--dry-run"];
        }
        if !(key in versions && versions[key] != "") && !pkg.privateAccess {
          args := args + ["--access=public"];
        }
        assert args == PublishArgs(confirmed, Published(versions, key), pkg.privateAccess);
        r := npm.Publish(args);
      }
    }

    /** `_cleanPackageJsonBackup()`: with a backup directory, every
        releasable package whose backup file exists gets it back as its
        manifest, and the backup file is removed. */
    method CleanBackup() returns (r: Outcome)
      requires Valid()
      modifies fs
      ensures (fs.entries, r) == Clean(old(fs.entries), root, packages, names)
    {
      if !IsDir(fs.entries, BackupDir(root)) {
        return Pass;
      }
      ghost var whole := RestoreFiles(fs.entries, root, packages, names);
      var i := 0;
      assert names[0..] == names;
      while i < |names|
        invariant i <= |names| && RestoreFiles(fs.entries, root, packages, names[i..]) == whole
      {
        assert names[i..][1..] == names[i + 1..];
        assert names[i] in packages;
        var pkg := packages[names[i]];
        if !pkg.noRelease && IsFile(fs.entries, BackupPath(root, pkg)) {
          r := fs.CopyFile(BackupPath(root, pkg), ManifestOf(pkg));
          if r.Fail? {
            return;
          }
          r := fs.RemoveFile(BackupPath(root, pkg));
          if r.Fail? {
            return;
          }
        }
        i := i + 1;
      }
      r := Pass;
    }

    /** The hooks and publishing of `release`. */
    method PublishSteps(versions: map<string, string>, confirmed: bool) returns (r: Outcome)
      requires npm.fs == fs && forall k :: k in names ==> k in packages
      modifies npm
      ensures var (cmds, o) := Publishing(fs.entries, npm.failing, packages, names, versions, confirmed);
              npm.commands == old(npm.commands) + cmds && r == o
    {
      ghost var c0 := npm.commands;
      ghost var pre := HookCommands(fs.entries, npm.failing, packages, names, "ottoia:prepublish");
      ghost var post := HookCommands(fs.entries, npm.failing, packages, names, "ottoia:postpublish");
      ghost var pub := RunAll(npm.failing, PublishCommands(packages, names, versions, confirmed));
      r := RunHooks("ottoia:prepublish");
      if r.Pass? {
        r := PublishAll(versions, confirmed);
        if r.Pass? {
          r := RunHooks("ottoia:postpublish");
          AppendShift3(c0, pre.0, pub.0, post.0);
        } else {
          assert c0 + pre.0 + pub.0 == c0 + (pre.0 + pub.0);
        }
      }
    }

    /** The `try` block of `release` once the manifests are backed up. */
    method SetupThenPublish(version: string, versions: map<string, string>, confirmed: bool) returns (r: Outcome)
      requires Valid()
      modifies this`packages, npm, fs
      ensures Valid() && packages.Keys == old(packages).Keys
      ensures var run := SetupAndPublish(old(fs.entries), npm.failing, old(packages), rootPackage, names, version, versions, confirmed);
              fs.entries == run.0 && packages == run.1 && npm.commands == old(npm.commands) + run.2 && r == run.3
    {
      r := SetupDependencies(version);
      if r.Fail? {
        return;
      }
      assert forall k :: k in names ==> k in packages;
      r := PublishSteps(versions, confirmed);
    }

    /** The `try` block of `release`. */
    method TryReleasing(version: string, versions: map<string, string>, confirmed: bool) returns (r: Outcome)
      requires Valid()
      modifies this`packages, npm, fs
      ensures Valid() && packages.Keys == old(packages).Keys
      ensures var tried := TryRelease(old(fs.entries), npm.failing, old(packages), rootPackage, root, names, version, versions, confirmed);
              fs.entries == tried.0 && packages == tried.1 && npm.commands == old(npm.commands) + tried.2 && r == tried.3
    {
      r := BackupManifests();
      if r.Fail? {
        return;
      }
      r := SetupThenPublish(version, versions, confirmed);
    }

    /** `release(opts)`: the environment's configuration is required; the
        published versions under its tag give the base version, from which
        the versioner (`custom` standing for a user versioner's answer)
        names the new one; then the `try` block runs and the backup is
        restored in every case. `replies` are the registry's answers, one
        per package. */
    method Release(env: string, confirmed: bool, withBreakingChanges: bool, withNewFeatures: bool,
                   replies: seq<Reply>, custom: string) returns (r: Outcome)
      requires Valid()
      requires |replies| == |names| && forall i :: 0 <= i < |replies| ==> DistinctTags(replies[i].distTags)
      modifies this`packages, npm, fs
      ensures Valid() && packages.Keys == old(packages).Keys
      ensures var cfg := ReleaseConfig(rootPackage, env);
              cfg.Err? ==> r == Fail(cfg.error) &&
                           packages == old(packages) && fs.entries == old(fs.entries) && npm.commands == old(npm.commands)
      ensures var cfg := ReleaseConfig(rootPackage, env);
              cfg.Ok? ==>
              var versions := CollectVersions(names, Settle(names, replies, ReleaseTag(cfg.value)), 0, map[]);
              (versions.Err? ==> r == Fail(versions.error) &&
                                 packages == old(packages) && fs.entries == old(fs.entries) && npm.commands == old(npm.commands)) &&
              (versions.Ok? ==>
                 var version := ReleaseVersion(cfg.value, names, versions.value, env, withBreakingChanges, withNewFeatures, custom);
                 var run := ReleaseRun(old(fs.entries), npm.failing, old(packages), rootPackage, root, names, version, versions.value, confirmed);
                 fs.entries == run.0 && packages == run.1 && npm.commands == old(npm.commands) + run.2 && r == run.3)
    {
      var cfg := ReleaseConfig(rootPackage, env);
      if cfg.Err? {
        return Fail(cfg.error);
      }
      var versions := npm.GetCurrentVersionSet(names, replies, ReleaseTag(cfg.value));
      if versions.Err? {
        return Fail(versions.error);
      }
      var version := ReleaseVersion(cfg.value, names, versions.value, env, withBreakingChanges, withNewFeatures, custom);
      r := TryReleasing(version, versions.value, confirmed);
      var cleaned := CleanBackup();
      if cleaned.Fail? {
        r := cleaned;
      }
    }
  }
}
