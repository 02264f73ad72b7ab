/** The dependency reference counter: for every owner (a package, or the
    global bucket that mirrors every change) a record from dependency name
    to the number of times it was added and not yet removed, and the
    transitive flattening of that table. */
module DependencyCounter {
  import Text

  /** Whose counts a bucket holds. The global bucket is keyed by a symbol
      in the source, so no package name can reach it. */
  datatype Owner = Global | Pkg(name: string)

  type Bucket = map<string, nat>
  type Table = map<Owner, Bucket>

  /** `bucket[d] ?? 0`. */
  function Get(m: Bucket, d: string): nat {
    if d in m then m[d] else 0
  }

  /** `this._packages[owner] ?? {}`. */
  function BucketOf(t: Table, o: Owner): Bucket {
    if o in t then t[o] else map[]
  }

  /** No stored count is zero: an entry that reaches zero is deleted. */
  predicate Positive(m: Bucket) {
    forall d :: d in m ==> m[d] > 0
  }

  /** The global bucket exists and every bucket stores positive counts. */
  predicate ValidTable(t: Table) {
    Global in t && forall o :: o in t ==> Positive(t[o])
  }

  // ---------------------------------------------------------------------
  // add and remove as functions of the table

  /** The loop of `add` over `deps`, applied to one bucket. */
  function Inc(m: Bucket, deps: seq<string>): (r: Bucket)
    ensures Positive(m) ==> Positive(r)
  {
    if deps == [] then m
    else
      var r := Inc(m, deps[..|deps| - 1]);
      var d := deps[|deps| - 1];
      r[d := 1 + Get(r, d)]
  }

  /** Each occurrence of a name adds one to its count. */
  lemma {:induction false} IncCounts(m: Bucket, deps: seq<string>, d: string)
    ensures Get(Inc(m, deps), d) == Get(m, d) + multiset(deps)[d]
  {
    if deps != [] {
      var init := deps[..|deps| - 1];
      assert deps == init + [deps[|deps| - 1]];
      IncCounts(m, init, d);
    }
  }

  /** The loop of `remove` over `deps`, applied to one bucket: a name with
      no count is skipped, and a count that reaches zero is deleted. */
  function Dec(m: Bucket, deps: seq<string>): (r: Bucket)
    requires Positive(m)
    ensures Positive(r)
    ensures forall d :: Get(r, d) == if multiset(deps)[d] <= Get(m, d) then Get(m, d) - multiset(deps)[d] else 0
    ensures forall d :: d in r ==> d in m
  {
    if deps == [] then m
    else
      var init, d := deps[..|deps| - 1], deps[|deps| - 1];
      assert deps == init + [d];
      var r := Dec(m, init);
      if d !in r then r
      else if r[d] == 1 then r - {d}
      else r[d := r[d] - 1]
  }

  function AddTo(t: Table, o: Owner, deps: seq<string>): Table {
    t[o := Inc(BucketOf(t, o), deps)]
  }

  /** The table after `add(o, deps)`: the owner's bucket is created if
      missing, and a package owner's change is mirrored to the global one. */
  function AfterAdd(t: Table, o: Owner, deps: seq<string>): Table {
    var t1 := AddTo(t, o, deps);
    if o == Global then t1 else AddTo(t1, Global, deps)
  }

  /** `remove` on one owner: a missing owner's `{}` is never stored. */
  function RemoveFrom(t: Table, o: Owner, deps: seq<string>): Table
    requires ValidTable(t)
  {
    if o in t then t[o := Dec(t[o], deps)] else t
  }

  /** The table after `remove(o, deps)`: the global bucket is decremented
      too, whether or not the owner held the names. */
  function AfterRemove(t: Table, o: Owner, deps: seq<string>): Table
    requires ValidTable(t)
  {
    var t1 := RemoveFrom(t, o, deps);
    if o == Global then t1 else RemoveFrom(t1, Global, deps)
  }

  /** `add` raises the owner's count of each listed name once per
      occurrence and mirrors the increase to the global bucket; no other
      bucket changes and the table stays valid. */
  lemma AddCounts(t: Table, o: Owner, deps: seq<string>, d: string)
    requires ValidTable(t)
    ensures ValidTable(AfterAdd(t, o, deps))
    ensures o in AfterAdd(t, o, deps)
    ensures Get(AfterAdd(t, o, deps)[o], d) == Get(BucketOf(t, o), d) + multiset(deps)[d]
    ensures o != Global ==> Get(AfterAdd(t, o, deps)[Global], d) == Get(t[Global], d) + multiset(deps)[d]
    ensures forall o' :: o' != o && o' != Global ==> BucketOf(AfterAdd(t, o, deps), o') == BucketOf(t, o')
  {
    IncCounts(BucketOf(t, o), deps, d);
    if o != Global {
      IncCounts(t[Global], deps, d);
    }
  }

  /** `remove` lowers the owner's and the global counts by the number of
      occurrences, stopping at zero; no other bucket changes. */
  lemma RemoveFloors(t: Table, o: Owner, deps: seq<string>, d: string)
    requires ValidTable(t)
    ensures ValidTable(AfterRemove(t, o, deps))
    ensures var c, m := multiset(deps)[d], Get(BucketOf(t, o), d);
            Get(BucketOf(AfterRemove(t, o, deps), o), d) == if c <= m then m - c else 0
    ensures o != Global ==>
              var c, g := multiset(deps)[d], Get(t[Global], d);
              Get(AfterRemove(t, o, deps)[Global], d) == if c <= g then g - c else 0
    ensures forall o' :: o' != o && o' != Global ==> BucketOf(AfterRemove(t, o, deps), o') == BucketOf(t, o')
  {
  }

  // ---------------------------------------------------------------------
  // The global bucket as the sum of the package buckets

  function PkgOwners(t: Table): set<Owner> {
    set o | o in t && o.Pkg?
  }

  /** The sum of `d`'s counts over the owners `os`. */
  ghost function SumCounts(t: Table, os: set<Owner>, d: string): nat
    decreases os
  {
    if os == {} then 0
    else
      var o :| o in os;
      Get(BucketOf(t, o), d) + SumCounts(t, os - {o}, d)
  }

  /** Any element can be taken out of the sum first. */
  lemma {:induction false} SumCountsPick(t: Table, os: set<Owner>, d: string, x: Owner)
    requires x in os
    ensures SumCounts(t, os, d) == Get(BucketOf(t, x), d) + SumCounts(t, os - {x}, d)
    decreases os
  {
    var o :| o in os && SumCounts(t, os, d) == Get(BucketOf(t, o), d) + SumCounts(t, os - {o}, d);
    if o != x {
      SumCountsPick(t, os - {o}, d, x);
      SumCountsPick(t, os - {x}, d, o);
      assert os - {o} - {x} == os - {x} - {o};
    }
  }

  /** Two tables that agree on every owner in `os` have the same sum. */
  lemma {:induction false} SumCountsAgree(t: Table, t': Table, os: set<Owner>, d: string)
    requires forall o :: o in os ==> Get(BucketOf(t, o), d) == Get(BucketOf(t', o), d)
    ensures SumCounts(t, os, d) == SumCounts(t', os, d)
    decreases os
  {
    if os != {} {
      var o :| o in os;
      SumCountsPick(t, os, d, o);
      SumCountsPick(t', os, d, o);
      SumCountsAgree(t, t', os - {o}, d);
    }
  }

  /** Owners whose counts of `d` are zero add nothing. */
  lemma {:induction false} SumCountsZero(t: Table, os: set<Owner>, extra: set<Owner>, d: string)
    requires os !! extra
    requires forall o :: o in extra ==> Get(BucketOf(t, o), d) == 0
    ensures SumCounts(t, os + extra, d) == SumCounts(t, os, d)
    decreases extra
  {
    if extra != {} {
      var o :| o in extra;
      assert Get(BucketOf(t, o), d) == 0;
      SumCountsPick(t, os + extra, d, o);
      assert os + extra - {o} == os + (extra - {o});
      SumCountsZero(t, os, extra - {o}, d);
      assert SumCounts(t, os + extra, d) == SumCounts(t, os + (extra - {o}), d);
    } else {
      assert os + extra == os;
    }
  }

  /** The sum over all package buckets. */
  ghost function Total(t: Table, d: string): nat {
    SumCounts(t, PkgOwners(t), d)
  }

  /** Changing one package bucket changes the total by the difference. */
  lemma TotalChange(t: Table, t': Table, p: string, d: string)
    requires forall o :: o != Pkg(p) && o.Pkg? ==> BucketOf(t, o) == BucketOf(t', o)
    ensures Total(t', d) + Get(BucketOf(t, Pkg(p)), d) == Total(t, d) + Get(BucketOf(t', Pkg(p)), d)
  {
    var os := PkgOwners(t) + PkgOwners(t') + {Pkg(p)};
    var rest := os - {Pkg(p)};
    SumCountsZero(t, PkgOwners(t), os - PkgOwners(t), d);
    assert PkgOwners(t) + (os - PkgOwners(t)) == os;
    SumCountsZero(t', PkgOwners(t'), os - PkgOwners(t'), d);
    assert PkgOwners(t') + (os - PkgOwners(t')) == os;
    SumCountsPick(t, os, d, Pkg(p));
    SumCountsPick(t', os, d, Pkg(p));
    SumCountsAgree(t, t', rest, d);
  }

  /** A package bucket never holds more than the total. */
  lemma TotalBounds(t: Table, p: string, d: string)
    ensures Get(BucketOf(t, Pkg(p)), d) <= Total(t, d)
  {
    if Pkg(p) in t {
      SumCountsPick(t, PkgOwners(t), d, Pkg(p));
    }
  }

  /** The global bucket is the sum of the package buckets. */
  ghost predicate Consistent(t: Table) {
    ValidTable(t) && forall d :: Get(t[Global], d) == Total(t, d)
  }

  /** `add` on a package keeps the global bucket equal to the sum. */
  lemma AddKeepsConsistent(t: Table, p: string, deps: seq<string>)
    requires Consistent(t)
    ensures Consistent(AfterAdd(t, Pkg(p), deps))
  {
    var t' := AfterAdd(t, Pkg(p), deps);
    forall d
      ensures Get(t'[Global], d) == Total(t', d)
    {
      AddCounts(t, Pkg(p), deps, d);
      TotalChange(t, t', p, d);
    }
  }

  /** `remove` on a package keeps the global bucket equal to the sum
      exactly when, for every listed name, the package held at least as
      many counts as the list removes, or no other package holds it. */
  lemma RemoveConsistency(t: Table, p: string, deps: seq<string>)
    requires Consistent(t)
    ensures Consistent(AfterRemove(t, Pkg(p), deps)) <==>
            forall d :: multiset(deps)[d] <= Get(BucketOf(t, Pkg(p)), d) || Get(t[Global], d) == Get(BucketOf(t, Pkg(p)), d)
  {
    var t' := AfterRemove(t, Pkg(p), deps);
    forall d
      ensures Get(t'[Global], d) == Total(t', d) <==>
              multiset(deps)[d] <= Get(BucketOf(t, Pkg(p)), d) || Get(t[Global], d) == Get(BucketOf(t, Pkg(p)), d)
    {
      RemoveFloors(t, Pkg(p), deps, d);
      TotalChange(t, t', p, d);
      TotalBounds(t, p, d);
    }
  }

  // ---------------------------------------------------------------------
  // generateMap

  function OwnerNames(t: Table): set<string> {
    set o | o in t && o.Pkg? :: o.name
  }

  function PathSet(path: seq<string>): set<string> {
    set x | x in path
  }

  /** Owners not yet on the path: the recursion's bound. */
  function Unvisited(t: Table, path: seq<string>): nat {
    |OwnerNames(t) - PathSet(path)|
  }

  lemma StepDecreases(t: Table, path: seq<string>, k: string)
    requires Pkg(k) in t && k !in path
    ensures Unvisited(t, path + [k]) < Unvisited(t, path)
  {
    assert k in OwnerNames(t);
    assert OwnerNames(t) - PathSet(path + [k]) == (OwnerNames(t) - PathSet(path)) - {k};
  }

  /** What `_generateMap(o, stack, path)` adds to `stack[d]`. */
  function Reach(t: Table, o: Owner, path: seq<string>, d: string): nat
    decreases Unvisited(t, path), 1
  {
    if o !in t then 0 else ReachKeys(t, o, path, SortedKeysOf(t[o]), d)
  }

  /** The contribution of the keys `ks` of `t[o]`, each adding its own count
      and, when it names an owner not yet on the path, that owner's
      flattening with the path extended by it. */
  function ReachKeys(t: Table, o: Owner, path: seq<string>, ks: seq<string>, d: string): nat
    requires o in t
    decreases Unvisited(t, path), 0, |ks|
  {
    if ks == [] then 0
    else
      var k := ks[|ks| - 1];
      ReachKeys(t, o, path, ks[..|ks| - 1], d) + ReachStep(t, o, path, k, d)
  }

  function ReachStep(t: Table, o: Owner, path: seq<string>, k: string, d: string): nat
    requires o in t
    decreases Unvisited(t, path), 0, 0
  {
    (if k == d then Get(t[o], k) else 0) +
    (if Pkg(k) in t && k !in path then
       StepDecreases(t, path, k);
       Reach(t, Pkg(k), path + [k], d)
     else 0)
  }

  function SortedKeysOf(m: Bucket): (r: seq<string>)
    ensures forall x :: x in r <==> x in m
    ensures forall i, j :: 0 <= i < j < |r| ==> r[i] != r[j]
  {
    Text.SortedKeys(m)
  }

  /** Each listed key contributes at least its direct count. */
  lemma {:induction false} ReachKeysDirect(t: Table, o: Owner, path: seq<string>, ks: seq<string>, d: string)
    requires o in t && d in ks
    ensures ReachKeys(t, o, path, ks, d) >= Get(t[o], d)
    decreases |ks|
  {
    if ks[|ks| - 1] != d {
      ReachKeysDirect(t, o, path, ks[..|ks| - 1], d);
    }
  }

  /** For a known owner, each direct dependency is reached at least as
      often as the owner counts it. */
  lemma ReachAtLeastDirect(t: Table, o: Owner, path: seq<string>, d: string)
    requires o in t
    ensures Reach(t, o, path, d) >= Get(t[o], d)
  {
    if d in t[o] {
      ReachKeysDirect(t, o, path, SortedKeysOf(t[o]), d);
    }
  }

  /** A name that no bucket lists is never reached. */
  lemma {:induction false} ReachUnlisted(t: Table, o: Owner, path: seq<string>, d: string)
    requires forall o' :: o' in t ==> d !in t[o']
    ensures Reach(t, o, path, d) == 0
    decreases Unvisited(t, path), 1
  {
    if o in t {
      ReachKeysUnlisted(t, o, path, SortedKeysOf(t[o]), d);
    }
  }

  lemma {:induction false} ReachKeysUnlisted(t: Table, o: Owner, path: seq<string>, ks: seq<string>, d: string)
    requires o in t
    requires forall o' :: o' in t ==> d !in t[o']
    ensures ReachKeys(t, o, path, ks, d) == 0
    decreases Unvisited(t, path), 0, |ks|
  {
    if ks != [] {
      var k := ks[|ks| - 1];
      ReachKeysUnlisted(t, o, path, ks[..|ks| - 1], d);
      if Pkg(k) in t && k !in path {
        StepDecreases(t, path, k);
        ReachUnlisted(t, Pkg(k), path + [k], d);
      }
    }
  }

  lemma ValidUpdate(t: Table, o: Owner, b: Bucket)
    requires ValidTable(t) && Positive(b)
    ensures ValidTable(t[o := b])
  {
  }

  lemma IncSnoc(m: Bucket, deps: seq<string>, i: nat)
    requires i < |deps|
    ensures Inc(m, deps[..i + 1]) == Inc(m, deps[..i])[deps[i] := 1 + Get(Inc(m, deps[..i]), deps[i])]
  {
    assert deps[..i + 1][..i] == deps[..i];
  }

  lemma DecSnoc(m: Bucket, deps: seq<string>, i: nat)
    requires i < |deps| && Positive(m)
    ensures var r, d := Dec(m, deps[..i]), deps[i];
            Dec(m, deps[..i + 1]) == if d !in r then r else if r[d] == 1 then r - {d} else r[d := r[d] - 1]
  {
    assert deps[..i + 1][..i] == deps[..i];
  }

  lemma ReachKeysSnoc(t: Table, o: Owner, path: seq<string>, ks: seq<string>, i: nat, d: string)
    requires o in t && i < |ks|
    ensures ReachKeys(t, o, path, ks[..i + 1], d) == ReachKeys(t, o, path, ks[..i], d) + ReachStep(t, o, path, ks[i], d)
  {
    assert ks[..i + 1][..i] == ks[..i];
  }

  // ---------------------------------------------------------------------
  // The counter object

  class DependencyCounter {
    var table: Table

    ghost predicate Valid()
      reads this
    {
      ValidTable(table)
    }

    constructor ()
      ensures Valid() && table == map[Global := map[]]
    {
      table := map[Global := map[]];
    }

    /** `add(owner, deps)`. */
    method Add(owner: Owner, deps: seq<string>)
      requires Valid()
      modifies this
      ensures Valid()
      ensures table == AfterAdd(old(table), owner, deps)
      decreases if owner == Global then 0 else 1
    {
      ghost var start := BucketOf(table, owner);
      var pkg: Bucket := BucketOf(table, owner);
      table := table[owner := pkg];
      var i := 0;
      assert deps[..0] == [];
      while i < |deps|
        invariant 0 <= i <= |deps|
        invariant pkg == Inc(start, deps[..i]) && Positive(pkg)
        invariant table == old(table)[owner := pkg]
      {
        var d := deps[i];
        IncSnoc(start, deps, i);
        var c: nat := 1 + Get(pkg, d);
        pkg := pkg[d := c];
        table := table[owner := pkg];
        i := i + 1;
      }
      assert deps[..i] == deps;
      ValidUpdate(old(table), owner, pkg);
      if owner != Global {
        Add(Global, deps);
      }
    }

    /** `remove(owner, deps)`. */
    method Remove(owner: Owner, deps: seq<string>)
      requires Valid()
      modifies this
      ensures Valid()
      ensures table == AfterRemove(old(table), owner, deps)
      decreases if owner == Global then 0 else 1
    {
      if owner in table {
        var pkg: Bucket := table[owner];
        var i := 0;
        while i < |deps|
          invariant 0 <= i <= |deps| && owner in old(table)
          invariant pkg == Dec(old(table)[owner], deps[..i])
          invariant table == old(table)[owner := pkg] && Valid()
        {
          var d := deps[i];
          DecSnoc(old(table)[owner], deps, i);
          if d in pkg {
            if pkg[d] == 1 {
              pkg := pkg - {d};
            } else {
              var c: nat := pkg[d] - 1;
              pkg := pkg[d := c];
            }
          }
          table := table[owner := pkg];
          i := i + 1;
        }
        assert deps[..i] == deps;
      }
      if owner != Global {
        Remove(Global, deps);
      }
    }

    /** `_generateMap(owner, stack, path)`: adds the flattening of the
        owner's counts into `stack`. */
    method GenerateInto(owner: Owner, stack: Bucket, path: seq<string>) returns (out: Bucket)
      requires Valid() && Positive(stack)
      ensures Positive(out)
      ensures forall d :: Get(out, d) == Get(stack, d) + Reach(table, owner, path, d)
      decreases Unvisited(table, path), 1
    {
      out := stack;
      if owner !in table {
        return;
      }
      var ks := SortedKeysOf(table[owner]);
      var i := 0;
      while i < |ks|
        invariant 0 <= i <= |ks| && Positive(out)
        invariant forall d :: Get(out, d) == Get(stack, d) + ReachKeys(table, owner, path, ks[..i], d)
      {
        ghost var before := out;
        out := VisitKey(owner, ks[i], out, path);
        forall d
          ensures Get(out, d) == Get(stack, d) + ReachKeys(table, owner, path, ks[..i + 1], d)
        {
          ReachKeysSnoc(table, owner, path, ks, i, d);
        }
        i := i + 1;
      }
      assert ks[..i] == ks;
    }

    /** One turn of the loop of `_generateMap`: count the key, then descend
        into it when it names an owner that is not on the path. */
    method VisitKey(owner: Owner, k: string, stack: Bucket, path: seq<string>) returns (out: Bucket)
      requires Valid() && Positive(stack) && owner in table && k in table[owner]
      ensures Positive(out)
      ensures forall d :: Get(out, d) == Get(stack, d) + ReachStep(table, owner, path, k, d)
      decreases Unvisited(table, path), 0
    {
      var c: nat := table[owner][k] + Get(stack, k);
      out := stack[k := c];
      ghost var counted := out;
      assert forall d :: Get(counted, d) == Get(stack, d) + (if k == d then table[owner][k] else 0);
      if Pkg(k) in table && k !in path {
        StepDecreases(table, path, k);
        out := GenerateInto(Pkg(k), out, path + [k]);
      }
    }

    /** `generateMap(owner)`: how often each name is reached from the
        owner; an unknown owner gives an empty record. */
    method GenerateMap(owner: Owner) returns (m: Bucket)
      requires Valid()
      ensures Positive(m)
      ensures forall d :: Get(m, d) == Reach(table, owner, [], d)
      ensures forall d :: d in m <==> Reach(table, owner, [], d) > 0
      ensures owner !in table ==> m == map[]
    {
      m := GenerateInto(owner, map[], []);
    }

    /** `isDependingOn(dep, owner)`. */
    method IsDependingOn(dep: string, owner: Owner) returns (b: bool)
      requires Valid()
      ensures b <==> Reach(table, owner, [], dep) > 0
    {
      var m := GenerateMap(owner);
      b := Get(m, dep) != 0;
    }
  }
}
