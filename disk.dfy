/** The file system as the package manager sees it through its file
    utilities: absolute paths mapped to directories, files and symbolic
    links. A directory's listing is derived from the paths under it. */
module Disk {
  import opened Errors
  import opened Text
  import opened Json

  /** What a file holds: a JSON document, or text that does not parse. */
  datatype Content = JsonText(value: Json) | PlainText(text: string)

  datatype Entry = Dir | File(content: Content) | Link(target: string)

  type Disk = map<string, Entry>

  /** `concatPath(a, b)` for a plain relative segment: the two are joined
      with `/`. The `.`, `..` and absolute segments that `path.resolve`
      would collapse are not resolved. */
  function Concat(a: string, b: string): (r: string)
    ensures |r| > |a|
  {
    a + "/" + b
  }

  /** The directory part of a path: everything before its last `/`. */
  function Parent(p: string): (r: string)
    ensures |r| <= |p| && r == p[..|r|]
    ensures p != [] ==> |r| < |p|
  {
    if p == [] then []
    else if p[|p| - 1] == '/' then p[..|p| - 1]
    else Parent(p[..|p| - 1])
  }

  lemma ParentOfConcat(a: string, b: string)
    requires '/' !in b
    ensures Parent(Concat(a, b)) == a
    decreases |b|
  {
    if b != [] {
      var c := Concat(a, b[..|b| - 1]);
      assert Concat(a, b)[..|Concat(a, b)| - 1] == c;
      ParentOfConcat(a, b[..|b| - 1]);
    } else {
      assert Concat(a, b)[..|Concat(a, b)| - 1] == a;
    }
  }

  predicate Exists(d: Disk, p: string) { p in d }

  predicate IsDir(d: Disk, p: string) { p in d && d[p].Dir? }

  predicate IsFile(d: Disk, p: string) { p in d && d[p].File? }

  /** The paths directly under `p`. */
  function Children(d: Disk, p: string): set<string> {
    set k | k in d && k != [] && Parent(k) == p
  }

  /** `readDir(p)`: the full paths of the entries of a directory. The model
      lists them in lexicographic order. */
  function ReadDir(d: Disk, p: string): (r: Result<seq<string>>)
    ensures r.Err? <==> !IsDir(d, p)
    ensures r.Ok? ==> forall c :: c in r.value <==> c in Children(d, p)
    ensures r.Ok? ==> forall c :: c in r.value ==> c in d && |c| > |p|
  {
    if !IsDir(d, p) then Err(if p in d then PathConflict(p) else FileNotFound(p))
    else Ok(SortedSet(Children(d, p)))
  }

  /** `readJsonFile(p)`: a missing file is a file-system error, text that
      is not JSON is `INVALID_JSON_FILE`. */
  function ReadJsonFile(d: Disk, p: string): (r: Result<Json>)
    ensures r.Ok? <==> IsFile(d, p) && d[p].content.JsonText?
    ensures r.Ok? ==> d[p] == File(JsonText(r.value))
    ensures IsFile(d, p) && d[p].content.PlainText? ==> r == Err(InvalidJsonFile(p))
  {
    if !IsFile(d, p) then Err(if p in d then PathConflict(p) else FileNotFound(p))
    else match d[p].content
      case JsonText(j) => Ok(j)
      case PlainText(_) => Err(InvalidJsonFile(p))
  }

  /** The path itself and every ancestor of it below the root. */
  function Ancestors(p: string): (r: set<string>)
    ensures p != [] ==> p in r
    ensures forall q :: q in r ==> q != [] && |q| <= |p| && q == p[..|q|]
  {
    if p == [] then {}
    else
      var up := Parent(p);
      var r := {p} + Ancestors(up);
      assert forall q :: q in Ancestors(up) ==> q == up[..|q|] == p[..|q|];
      r
  }

  /** `mkdir -p`: fails when some ancestor is not a directory; otherwise
      creates the missing ones and leaves everything else as it was. */
  function Mkdirs(d: Disk, p: string): (r: Result<Disk>)
  {
    var missing := Ancestors(p) - d.Keys;
    if exists q :: q in Ancestors(p) && q in d && !d[q].Dir? then Err(PathConflict(p))
    else Ok(map q | q in d.Keys + missing :: if q in d then d[q] else Dir)
  }

  /** `mkdir -p` succeeds exactly when no ancestor is something other than
      a directory, and then adds the missing ancestors as directories. */
  lemma MkdirsMeaning(d: Disk, p: string)
    ensures var r := Mkdirs(d, p);
            (r.Ok? <==> forall q :: q in Ancestors(p) && q in d ==> d[q].Dir?) &&
            (r.Ok? ==> r.value.Keys == d.Keys + Ancestors(p)) &&
            (r.Ok? ==> forall q :: q in r.value ==> r.value[q] == if q in d then d[q] else Dir)
  {
    var r := Mkdirs(d, p);
    if r.Ok? {
      assert r.value.Keys == d.Keys + (Ancestors(p) - d.Keys);
    }
  }

  lemma MkdirsIdempotent(d: Disk, p: string)
    requires Mkdirs(d, p).Ok?
    ensures Mkdirs(Mkdirs(d, p).value, p) == Mkdirs(d, p)
    ensures p != [] ==> IsDir(Mkdirs(d, p).value, p)
  {
    MkdirsMeaning(d, p);
    var d1 := Mkdirs(d, p).value;
    MkdirsMeaning(d1, p);
    assert Mkdirs(d1, p).Ok?;
    assert Mkdirs(d1, p).value == d1;
  }

  /** `mkdir -p` of a directory whose ancestors all exist changes nothing. */
  lemma MkdirsNoop(d: Disk, p: string)
    requires forall q :: q in Ancestors(p) ==> IsDir(d, q)
    ensures Mkdirs(d, p) == Ok(d)
  {
    MkdirsMeaning(d, p);
    assert !exists q :: q in Ancestors(p) && q in d && !d[q].Dir?;
    var m := Mkdirs(d, p).value;
    assert m.Keys == d.Keys;
    assert forall q :: q in m ==> m[q] == d[q];
    assert m == d;
  }

  /** After `mkdir -p`, the path and its ancestors are directories, and
      every directory that was there still is. */
  lemma MkdirsDirs(d: Disk, p: string)
    requires Mkdirs(d, p).Ok?
    ensures forall q :: q in Ancestors(p) ==> IsDir(Mkdirs(d, p).value, q)
    ensures forall q :: IsDir(d, q) ==> IsDir(Mkdirs(d, p).value, q)
  {
    MkdirsMeaning(d, p);
  }

  /** Writing a file needs an existing parent directory and fails on a
      directory; any earlier file or link at the path is replaced. */
  function WriteAt(d: Disk, p: string, c: Content): (r: Result<Disk>)
    ensures r.Ok? <==> IsDir(d, Parent(p)) && !IsDir(d, p)
    ensures r.Ok? ==> r.value == d[p := File(c)]
  {
    if !IsDir(d, Parent(p)) then Err(FileNotFound(p))
    else if IsDir(d, p) then Err(PathConflict(p))
    else Ok(d[p := File(c)])
  }

  /** `copyFile(src, dst)`: the source must be a file, and the copy is
      written like any other file. */
  function CopyAt(d: Disk, src: string, dst: string): (r: Result<Disk>)
    ensures r.Ok? <==> IsFile(d, src) && IsDir(d, Parent(dst)) && !IsDir(d, dst)
    ensures r.Ok? ==> r.value == d[dst := d[src]]
    ensures !IsFile(d, src) ==> r == Err(FileNotFound(src))
  {
    if !IsFile(d, src) then Err(FileNotFound(src)) else WriteAt(d, dst, d[src].content)
  }

  /** `removeFile(p)`: unlinks a file or a symbolic link, never a
      directory. */
  function RemoveAt(d: Disk, p: string): (r: Result<Disk>)
    ensures r.Ok? <==> p in d && !d[p].Dir?
    ensures r.Ok? ==> r.value == d - {p}
  {
    if p !in d then Err(FileNotFound(p))
    else if d[p].Dir? then Err(PathConflict(p))
    else Ok(d - {p})
  }

  /** `p` itself or a path below it. */
  predicate Within(q: string, p: string) {
    q == p || StartsWith(q, p + "/")
  }

  /** `rm -rf p`: the path and everything below it are gone, the rest is
      untouched; it never fails. */
  function RemoveTree(d: Disk, p: string): (r: Disk)
    ensures forall q :: q in r <==> q in d && !Within(q, p)
    ensures forall q :: q in r ==> r[q] == d[q]
  {
    map q | q in d && !Within(q, p) :: d[q]
  }

  /** A file operation's result as the new disk and outcome: a failure
      leaves the disk as it was. */
  function Effect(d: Disk, res: Result<Disk>): (r: (Disk, Outcome))
    ensures r.1.Pass? <==> res.Ok?
    ensures res.Ok? ==> r.0 == res.value
    ensures res.Err? ==> r == (d, Fail(res.error))
  {
    match res
    case Ok(d') => (d', Pass)
    case Err(e) => (d, Fail(e))
  }

  /** The shared file-system object every component writes through. */
  class FileSystem {
    var entries: Disk

    constructor (initial: Disk)
      ensures entries == initial
    {
      entries := initial;
    }

    /** `mkdirP(p)`. */
    method MkdirP(p: string) returns (r: Outcome)
      modifies this
      ensures r == if Mkdirs(old(entries), p).Ok? then Pass else Fail(Mkdirs(old(entries), p).error)
      ensures entries == if r.Pass? then Mkdirs(old(entries), p).value else old(entries)
    {
      var m := Mkdirs(entries, p);
      if m.Err? {
        return Fail(m.error);
      }
      entries := m.value;
      r := Pass;
    }

    /** `writeFile(p, JSON.stringify(j))`. */
    method WriteJson(p: string, j: Json) returns (r: Outcome)
      modifies this
      ensures var w := WriteAt(old(entries), p, JsonText(j));
              r == if w.Ok? then Pass else Fail(w.error)
      ensures entries == if r.Pass? then old(entries)[p := File(JsonText(j))] else old(entries)
    {
      var w := WriteAt(entries, p, JsonText(j));
      if w.Err? {
        return Fail(w.error);
      }
      entries := w.value;
      r := Pass;
    }

    /** `copyFile(src, dst)`. */
    method CopyFile(src: string, dst: string) returns (r: Outcome)
      modifies this
      ensures (entries, r) == Effect(old(entries), CopyAt(old(entries), src, dst))
    {
      if !IsFile(entries, src) {
        return Fail(FileNotFound(src));
      }
      var w := WriteAt(entries, dst, entries[src].content);
      if w.Err? {
        return Fail(w.error);
      }
      entries := w.value;
      r := Pass;
    }

    /** `removeFile(p)`. */
    method RemoveFile(p: string) returns (r: Outcome)
      modifies this
      ensures (entries, r) == Effect(old(entries), RemoveAt(old(entries), p))
    {
      if p !in entries {
        return Fail(FileNotFound(p));
      }
      if entries[p].Dir? {
        return Fail(PathConflict(p));
      }
      entries := entries - {p};
      r := Pass;
    }

    /** `execAt(dir, 'rm', '-rf', name)`. */
    method RemoveAll(p: string)
      modifies this
      ensures entries == RemoveTree(old(entries), p)
    {
      entries := RemoveTree(entries, p);
    }

    /** What `ln -s target p` leaves behind. */
    method Symlink(target: string, p: string) returns (r: Outcome)
      modifies this
      ensures r == if !IsDir(old(entries), Parent(p)) then Fail(FileNotFound(p))
                   else if p in old(entries) then Fail(PathConflict(p)) else Pass
      ensures entries == if r.Pass? then old(entries)[p := Link(target)] else old(entries)
    {
      if !IsDir(entries, Parent(p)) {
        return Fail(FileNotFound(p));
      }
      if p in entries {
        return Fail(PathConflict(p));
      }
      entries := entries[p := Link(target)];
      r := Pass;
    }
  }
}
