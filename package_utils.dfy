/** Manifest helpers: reading a package directory's `package.json` into a
    package record, validating a new package's name, creating a package
    from a template, finding package directories and writing dependency
    records back. */
module PackageUtils {
  import opened Errors
  import opened Text
  import opened Json
  import opened Disk

  /** A sub-package as the manager keeps it. `raw` is the parsed manifest.
      The package's three dependency records are the very objects of the
      manifest, so they are read from and written to `raw` (see `Deps`). */
  datatype Package = Package(
    root: string,
    name: string,
    alias: Option<Json>,
    version: Option<string>,
    isPrivate: bool,
    noRelease: bool,
    privateAccess: bool,
    scripts: map<string, string>,
    raw: map<string, Json>)

  /** The three dependency records of a manifest. */
  datatype DepKind = Runtime | Dev | Peer

  function RecordKey(k: DepKind): string {
    match k
    case Runtime => "dependencies"
    case Dev => "devDependencies"
    case Peer => "peerDependencies"
  }

  /** A dependency record of the package; `None` when the manifest has no
      such record (the field is then `undefined`). */
  function Deps(pkg: Package, k: DepKind): (r: Option<map<string, string>>)
    ensures r.Some? <==> RecordKey(k) in pkg.raw && IsStringRecord(pkg.raw[RecordKey(k)])
  {
    var key := RecordKey(k);
    if key in pkg.raw && IsStringRecord(pkg.raw[key]) then Some(StringRecord(pkg.raw[key])) else None
  }

  /** `{ ...record }`: a copy, empty for an undefined record. */
  function DepsOrEmpty(pkg: Package, k: DepKind): map<string, string> {
    var d := Deps(pkg, k);
    if d.Some? then d.value else map[]
  }

  /** The package with one dependency record replaced. */
  function WithDeps(pkg: Package, k: DepKind, m: map<string, string>): Package {
    pkg.(raw := pkg.raw[RecordKey(k) := FromStringRecord(m)])
  }

  /** The replaced record reads back as given; the other two records and
      every other field are kept. */
  lemma WithDepsMeaning(pkg: Package, k: DepKind, m: map<string, string>)
    ensures var r := WithDeps(pkg, k, m);
            && Deps(r, k) == Some(m)
            && (forall k' :: k' != k ==> Deps(r, k') == Deps(pkg, k'))
            && r.raw.Keys == pkg.raw.Keys + {RecordKey(k)}
  {
    StringRecordRoundTrip(m, JNull);
  }

  const ManifestName := "package.json"

  // ---------------------------------------------------------------------
  // read / readMaster

  /** An optional field of the given kind. */
  predicate OptionalString(f: map<string, Json>, k: string) { k in f ==> f[k].JStr? }

  predicate OptionalRecord(f: map<string, Json>, k: string) { k in f ==> IsStringRecord(f[k]) }

  /** The shape check of a manifest: a string name; an optional string
      description and version; an optional boolean `private`; optional
      string-valued `scripts` and dependency records. */
  predicate IsNodePackage(j: Json) {
    j.JObj? && "name" in j.fields && j.fields["name"].JStr?
    && OptionalString(j.fields, "description") && OptionalString(j.fields, "version")
    && ("private" in j.fields ==> j.fields["private"].JBool?)
    && OptionalRecord(j.fields, "scripts") && OptionalRecord(j.fields, "dependencies")
    && OptionalRecord(j.fields, "devDependencies") && OptionalRecord(j.fields, "peerDependencies")
  }

  function RecordOrEmpty(f: map<string, Json>, k: string): (r: map<string, string>)
    requires OptionalRecord(f, k)
    ensures k in f ==> f[k] == FromStringRecord(r)
    ensures k !in f ==> r == map[]
  {
    if k in f then
      StringRecordRoundTrip(map[], f[k]);
      StringRecord(f[k])
    else map[]
  }

  /** The package record of a manifest that passed the shape check. */
  function ToPackage(path: string, j: Json): (p: Package)
    requires IsNodePackage(j)
    ensures p.root == path && p.raw == j.fields
    ensures p.name == ToLower(j.fields["name"].s)
    ensures p.alias == Field(j, "ottoia:alias")
    ensures p.version.Some? <==> "version" in j.fields
    ensures p.version.Some? ==> j.fields["version"] == JStr(p.version.value)
    ensures p.isPrivate <==> "private" in j.fields && j.fields["private"] == JBool(true)
    ensures !p.noRelease && !p.privateAccess
    ensures "scripts" !in j.fields ==> p.scripts == map[]
    ensures forall k :: Deps(p, k).Some? <==> RecordKey(k) in j.fields
  {
    var f := j.fields;
    Package(
      path, ToLower(f["name"].s), Field(j, "ottoia:alias"),
      if "version" in f then Some(f["version"].s) else None,
      "private" in f && f["private"].b,
      false, false,
      RecordOrEmpty(f, "scripts"),
      f)
  }

  /** `read(path)`: the manifest of the directory, its name lowercased. A
      missing manifest fails with the file system's error, text that is not
      JSON with `INVALID_JSON_FILE`, a manifest of the wrong shape with a
      plain (unregistered) error. */
  function Read(d: Disk, path: string): (r: Result<Package>)
    ensures var m := ReadJsonFile(d, Concat(path, ManifestName));
            match m
            case Err(e) => r == Err(e)
            case Ok(j) => r == if IsNodePackage(j) then Ok(ToPackage(path, j)) else Err(InvalidPackageShape)
  {
    var j :- ReadJsonFile(d, Concat(path, ManifestName));
    if !IsNodePackage(j) then Err(InvalidPackageShape) else Ok(ToPackage(path, j))
  }

  /** `readMaster(path)`: the root manifest must have a non-empty version
      and a truthy `ottoia` field. */
  function ReadMaster(d: Disk, path: string): (r: Result<Package>)
    ensures Read(d, path).Err? ==> r == Read(d, path)
    ensures Read(d, path).Ok? ==>
              var p := Read(d, path).value;
              r == if p.version.Some? && p.version.value != "" && "ottoia" in p.raw && Truthy(p.raw["ottoia"])
                   then Ok(p) else Err(InvalidMasterPackage(path))
  {
    var p :- Read(d, path);
    if p.version.None? || p.version.value == "" || "ottoia" !in p.raw || !Truthy(p.raw["ottoia"]) then
      Err(InvalidMasterPackage(path))
    else Ok(p)
  }

  // ---------------------------------------------------------------------
  // The package-name check

  predicate LowerAlnum(c: char) { 'a' <= c <= 'z' || '0' <= c <= '9' }

  /** `\w`. */
  predicate WordChar(c: char) { 'a' <= c <= 'z' || 'A' <= c <= 'Z' || '0' <= c <= '9' || c == '_' }

  /** The optional scope group `@[a-z0-9][-\w]*\/` matches exactly `s[i..j]`
      (or is skipped, when `i == j`). */
  predicate ScopeAt(s: string, i: nat, j: nat)
    requires i <= j <= |s|
  {
    i == j ||
    (j - i >= 3 && s[i] == '@' && LowerAlnum(s[i + 1]) && s[j - 1] == '/'
     && forall k :: i + 2 <= k < j - 1 ==> s[k] == '-' || WordChar(s[k]))
  }

  // The package-name pattern `(@[a-z0-9][-\w]*\/)?[a-z0-9][-.\w]*`, matched
  // with `RegExp.test`: it is not anchored, so a match may start anywhere,
  // and the trailing repetition may match nothing.
  predicate NameMatches(s: string) {
    exists i, j :: 0 <= i <= j < |s| && ScopeAt(s, i, j) && LowerAlnum(s[j])
  }

  /** The name check accepts exactly the names with some character in
      `[a-z0-9]`: `"ab!"` and `"!x"` pass, `"--"` and `""` do not. */
  lemma NameMatchesIff(s: string)
    ensures NameMatches(s) <==> exists k :: 0 <= k < |s| && LowerAlnum(s[k])
  {
    if exists k :: 0 <= k < |s| && LowerAlnum(s[k]) {
      var k :| 0 <= k < |s| && LowerAlnum(s[k]);
      assert ScopeAt(s, k, k);
    }
  }

  // ---------------------------------------------------------------------
  // Templates

  /** One entry of a template list: a name used for both input and
      output, or an `[input, output]` pair. */
  function TemplateEntry(j: Json): Option<(string, string)> {
    match j
    case JStr(x) => Some((x, x))
    case JArr(xs) =>
      if |xs| == 2 && xs[0].JStr? && xs[1].JStr? then Some((xs[0].s, xs[1].s)) else None
    case _ => None
  }

  /** The list shape check: an array of strings and string pairs. */
  predicate IsTemplateList(j: Json) {
    j.JArr? && forall i :: 0 <= i < |j.items| ==> TemplateEntry(j.items[i]).Some?
  }

  /** The (input, output) file pairs of a template list. */
  function TemplatePairs(j: Json): (r: seq<(string, string)>)
    requires IsTemplateList(j)
    ensures |r| == |j.items|
    ensures forall i :: 0 <= i < |r| ==> j.items[i].JStr? ==> r[i] == (j.items[i].s, j.items[i].s)
    ensures forall i :: 0 <= i < |r| ==> j.items[i].JArr? ==>
              r[i] == (j.items[i].items[0].s, j.items[i].items[1].s)
  {
    seq(|j.items|, i requires 0 <= i < |j.items| => TemplateEntry(j.items[i]).value)
  }

  /** The generated manifest: the template's fields, then `name`,
      `private: false` and `ottoia:alias` on top; an undefined alias is
      dropped when the document is written. */
  function GeneratedManifest(tpl: Json, name: string, alias: Option<string>): map<string, Json> {
    var base := if tpl.JObj? then tpl.fields else map[];
    var m := base["name" := JStr(name)]["private" := JBool(false)];
    if alias.Some? then m["ottoia:alias" := JStr(alias.value)] else m - {"ottoia:alias"}
  }

  /** The three overriding fields win over the template, and every other
      field of an object template is kept. */
  lemma GeneratedManifestFields(tpl: Json, name: string, alias: Option<string>)
    ensures var m := GeneratedManifest(tpl, name, alias);
            && m["name"] == JStr(name) && m["private"] == JBool(false)
            && (alias.Some? ==> m["ottoia:alias"] == JStr(alias.value))
            && (alias.None? ==> "ottoia:alias" !in m)
            && forall k :: k !in {"name", "private", "ottoia:alias"} ==>
                 (k in m <==> tpl.JObj? && k in tpl.fields) && (k in m ==> m[k] == tpl.fields[k])
  {
  }

  /** The generated manifest passes the shape check when the template's
      other checked fields do, and is read back under its lowercase name. */
  lemma GeneratedManifestReads(tpl: Json, name: string, alias: Option<string>, root: string)
    requires tpl.JObj? && IsNodePackage(tpl)
    requires ToLower(name) == name
    ensures IsNodePackage(JObj(GeneratedManifest(tpl, name, alias)))
    ensures var p := ToPackage(root, JObj(GeneratedManifest(tpl, name, alias)));
            p.name == name && !p.isPrivate &&
            p.alias == (if alias.Some? then Some(JStr(alias.value)) else None)
  {
  }

  /** What `_createFile` does to the disk: a plain file is copied (its
      directory created first); `package.json` is generated from the
      template's manifest. */
  function CreateFile(d: Disk, pkgRoot: string, tplRoot: string, name: string, alias: Option<string>,
                      entry: (string, string)): (r: (Disk, Outcome))
    ensures r.1.Fail? ==> r.0 == d || entry.1 != ManifestName
  {
    var (input, output) := entry;
    var fullOut := Concat(pkgRoot, output);
    var fullIn := Concat(tplRoot, input);
    if output != ManifestName then
      match Mkdirs(d, Parent(fullOut))
      case Err(e) => (d, Fail(e))
      case Ok(d1) =>
        Effect(d1, CopyAt(d1, fullIn, fullOut))
    else
      match ReadJsonFile(d, fullIn)
      case Err(e) => (d, Fail(e))
      case Ok(tpl) =>
        match WriteAt(d, fullOut, JsonText(JObj(GeneratedManifest(tpl, name, alias))))
        case Err(e) => (d, Fail(e))
        case Ok(d1) => (d1, Pass)
  }

  /** The template entries processed in order; the first failure stops the
      loop and keeps what was already written. */
  function CreateFiles(d: Disk, pkgRoot: string, tplRoot: string, name: string, alias: Option<string>,
                       entries: seq<(string, string)>): (r: (Disk, Outcome))
    ensures entries == [] ==> r == (d, Pass)
    decreases |entries|
  {
    if entries == [] then (d, Pass)
    else
      var (d1, o) := CreateFile(d, pkgRoot, tplRoot, name, alias, entries[0]);
      if o.Fail? then (d1, o) else CreateFiles(d1, pkgRoot, tplRoot, name, alias, entries[1..])
  }

  /** The options of `create`; `None` stands for an undefined option. */
  datatype CreateOptions = CreateOptions(
    root: string, name: string, templateFile: Option<string>,
    dirName: Option<string>, alias: Option<string>)

  /** The directory a new package goes to. */
  function PackageRoot(opts: CreateOptions): string {
    Concat(opts.root, if opts.dirName.Some? then opts.dirName.value else ToLower(opts.name))
  }

  /** The template file after the default and the directory rule. */
  function TemplateFile(d: Disk, opts: CreateOptions, builtIn: string): string {
    var t := if opts.templateFile.Some? then opts.templateFile.value else builtIn;
    if IsDir(d, t) then Concat(t, "template.json") else t
  }

  /** The checks `create` makes before it writes anything, in order. */
  function CreateCheck(d: Disk, opts: CreateOptions, builtIn: string): (r: Result<seq<(string, string)>>)
  {
    var name := ToLower(opts.name);
    var tpl := TemplateFile(d, opts, builtIn);
    if !NameMatches(name) then Err(InvalidPackageName(name))
    else if Exists(d, PackageRoot(opts)) then Err(DupPackage(name))
    else if !IsFile(d, tpl) then Err(InvalidTemplate(tpl))
    else
      var list :- ReadJsonFile(d, tpl);
      if !IsTemplateList(list) then Err(InvalidTemplate(tpl)) else Ok(TemplatePairs(list))
  }

  /** `create(opts)`: the disk afterwards and what the call returns. */
  function CreateSpec(d: Disk, opts: CreateOptions, builtIn: string): (Disk, Result<Package>) {
    var name := ToLower(opts.name);
    var pkgRoot := PackageRoot(opts);
    match CreateCheck(d, opts, builtIn)
    case Err(e) => (d, Err(e))
    case Ok(pairs) =>
      match Mkdirs(d, pkgRoot)
      case Err(e) => (d, Err(e))
      case Ok(d1) =>
        var (d2, o) := CreateFiles(d1, pkgRoot, Parent(TemplateFile(d, opts, builtIn)), name, opts.alias, pairs);
        if o.Fail? then (d2, Err(o.error)) else (d2, Read(d2, pkgRoot))
  }

  /** The name check comes first: a lowercase name without a character in
      `[a-z0-9]` is refused with `INVALID_PACKAGE_NAME` and nothing is
      written; an accepted name whose directory exists is refused with
      `DUP_PACKAGE`; a missing template file or a list of the wrong shape
      with `INVALID_TEMPLATE`. */
  lemma CreateRefusals(d: Disk, opts: CreateOptions, builtIn: string)
    ensures var name := ToLower(opts.name);
            var tpl := TemplateFile(d, opts, builtIn);
            var r := CreateSpec(d, opts, builtIn);
            && ((forall k :: 0 <= k < |name| ==> !LowerAlnum(name[k])) ==> r == (d, Err(InvalidPackageName(name))))
            && (NameMatches(name) && Exists(d, PackageRoot(opts)) ==> r == (d, Err(DupPackage(name))))
            && (NameMatches(name) && !Exists(d, PackageRoot(opts)) && !IsFile(d, tpl) ==>
                  r == (d, Err(InvalidTemplate(tpl))))
            && (NameMatches(name) && !Exists(d, PackageRoot(opts)) && IsFile(d, tpl) &&
                ReadJsonFile(d, tpl).Ok? && !IsTemplateList(ReadJsonFile(d, tpl).value) ==>
                  r == (d, Err(InvalidTemplate(tpl))))
  {
    NameMatchesIff(ToLower(opts.name));
  }

  // ---------------------------------------------------------------------
  // scan

  /** The paths of the disk below `p` by length: the measure of the walk. */
  function Longer(d: Disk, p: string): set<string> {
    set k | k in d && |k| > |p|
  }

  lemma LongerShrinks(d: Disk, p: string, c: string)
    requires c in d && |c| > |p|
    ensures |Longer(d, c)| < |Longer(d, p)|
  {
    var small, big := Longer(d, c), Longer(d, p);
    assert small <= big;
    assert c in big && c !in small;
    SubsetSize(small, big - {c});
  }

  lemma {:induction false} SubsetSize(a: set<string>, b: set<string>)
    requires a <= b
    ensures |a| <= |b|
    decreases |b|
  {
    if a != {} {
      var x :| x in a;
      SubsetSize(a - {x}, b - {x});
    }
  }

  /** Whether `_scan` collects an entry, descends into it or skips it. */
  predicate Skipped(d: Disk, item: string) {
    EndsWith(item, ".") || !IsDir(d, item)
  }

  predicate HoldsManifest(d: Disk, item: string) {
    IsFile(d, Concat(item, ManifestName))
  }

  /** `_scan(root)`: the package directories found below `root`, in visit
      order. Reading a directory that is not one fails the whole scan. */
  function ScanDir(d: Disk, root: string): Result<seq<string>>
    decreases |Longer(d, root)|, 1, 0
  {
    match ReadDir(d, root)
    case Err(e) => Err(e)
    case Ok(items) => ScanItems(d, root, items)
  }

  function ScanItems(d: Disk, root: string, items: seq<string>): Result<seq<string>>
    requires forall c :: c in items ==> c in d && |c| > |root|
    decreases |Longer(d, root)|, 0, |items|
  {
    if items == [] then Ok([])
    else
      var first :- ScanItem(d, root, items[0]);
      var rest :- ScanItems(d, root, items[1..]);
      Ok(first + rest)
  }

  function ScanItem(d: Disk, root: string, item: string): Result<seq<string>>
    requires item in d && |item| > |root|
    decreases |Longer(d, root)|, 0, 0
  {
    if Skipped(d, item) then Ok([])
    else if HoldsManifest(d, item) then Ok([item])
    else
      LongerShrinks(d, root, item);
      ScanDir(d, item)
  }

  /** A collected directory. */
  predicate Collectable(d: Disk, root: string, p: string) {
    IsDir(d, p) && !EndsWith(p, ".") && HoldsManifest(d, p) && |p| > |root| && root == p[..|root|]
  }

  /** Everything `_scan` collects is a directory holding `package.json`
      whose name does not end in `.`, below the starting directory. */
  lemma {:induction false} ScanDirSound(d: Disk, root: string)
    ensures ScanDir(d, root).Ok? ==> forall p :: p in ScanDir(d, root).value ==> Collectable(d, root, p)
    decreases |Longer(d, root)|, 1, 0
  {
    match ReadDir(d, root)
    case Err(_) =>
    case Ok(items) =>
      ScanItemsSound(d, root, items);
  }

  lemma {:induction false} ScanItemsSound(d: Disk, root: string, items: seq<string>)
    requires forall c :: c in items ==> c in d && |c| > |root| && c in Children(d, root)
    ensures ScanItems(d, root, items).Ok? ==> forall p :: p in ScanItems(d, root, items).value ==> Collectable(d, root, p)
    decreases |Longer(d, root)|, 0, |items|
  {
    if items != [] {
      ScanItemSound(d, root, items[0]);
      ScanItemsSound(d, root, items[1..]);
    }
  }

  lemma {:induction false} ScanItemSound(d: Disk, root: string, item: string)
    requires item in d && |item| > |root| && item in Children(d, root)
    ensures ScanItem(d, root, item).Ok? ==> forall p :: p in ScanItem(d, root, item).value ==> Collectable(d, root, p)
    decreases |Longer(d, root)|, 0, 0
  {
    assert root == item[..|root|];
    if !Skipped(d, item) && !HoldsManifest(d, item) {
      LongerShrinks(d, root, item);
      ScanDirSound(d, item);
      if ScanDir(d, item).Ok? {
        forall p | p in ScanDir(d, item).value
          ensures Collectable(d, root, p)
        {
          assert item == p[..|item|];
          assert root == p[..|root|];
        }
      }
    }
  }

  /** Every directory right below the starting one that holds a manifest
      and does not end in `.` is collected. */
  lemma {:induction false} ScanDirFindsChild(d: Disk, root: string, c: string)
    requires ScanDir(d, root).Ok?
    requires c in Children(d, root) && IsDir(d, c) && !EndsWith(c, ".") && HoldsManifest(d, c)
    ensures c in ScanDir(d, root).value
  {
    var items := ReadDir(d, root).value;
    assert c in items;
    ScanItemsComplete(d, root, items, c);
  }

  /** A directory `_scan` descends into: not skipped, and without a
      manifest of its own. */
  predicate Descended(d: Disk, q: string) {
    IsDir(d, q) && !EndsWith(q, ".") && !HoldsManifest(d, q)
  }

  /** `c` is a child of `root`, or is reached from a child of `root` that
      `_scan` descends into. */
  predicate Below(d: Disk, root: string, c: string)
    decreases |c| - |root|
  {
    |c| > |root| &&
    (c in Children(d, root) ||
     exists q :: q in Children(d, root) && |q| > |root| && Descended(d, q) && Below(d, q, c))
  }

  /** Every directory `_scan` can reach, at any depth, that holds a
      manifest and does not end in `.` is collected. */
  lemma {:induction false} ScanDirComplete(d: Disk, root: string, c: string)
    requires ScanDir(d, root).Ok?
    requires Below(d, root, c) && IsDir(d, c) && !EndsWith(c, ".") && HoldsManifest(d, c)
    ensures c in ScanDir(d, root).value
    decreases |Longer(d, root)|
  {
    if c in Children(d, root) {
      ScanDirFindsChild(d, root, c);
    } else {
      var q :| q in Children(d, root) && |q| > |root| && Descended(d, q) && Below(d, q, c);
      ScanDirNests(d, root, q);
      LongerShrinks(d, root, q);
      ScanDirComplete(d, q, c);
    }
  }

  /** The scan of a directory `_scan` descends into is part of the scan of
      its parent. */
  lemma ScanDirNests(d: Disk, root: string, q: string)
    requires ScanDir(d, root).Ok?
    requires q in Children(d, root) && |q| > |root| && Descended(d, q)
    ensures ScanDir(d, q).Ok? && forall x :: x in ScanDir(d, q).value ==> x in ScanDir(d, root).value
  {
    var items := ReadDir(d, root).value;
    assert q in items;
    ScanItemsNest(d, root, items, q);
  }

  lemma {:induction false} ScanItemsNest(d: Disk, root: string, items: seq<string>, q: string)
    requires forall x :: x in items ==> x in d && |x| > |root|
    requires ScanItems(d, root, items).Ok? && q in items && Descended(d, q)
    ensures ScanDir(d, q).Ok? && forall x :: x in ScanDir(d, q).value ==> x in ScanItems(d, root, items).value
    decreases |items|
  {
    if items[0] != q {
      ScanItemsNest(d, root, items[1..], q);
    } else {
      assert ScanItem(d, root, q) == ScanDir(d, q);
    }
  }

  lemma {:induction false} ScanItemsComplete(d: Disk, root: string, items: seq<string>, c: string)
    requires forall x :: x in items ==> x in d && |x| > |root|
    requires ScanItems(d, root, items).Ok? && c in items
    requires IsDir(d, c) && !EndsWith(c, ".") && HoldsManifest(d, c)
    ensures c in ScanItems(d, root, items).value
    decreases |items|
  {
    if items[0] != c {
      ScanItemsComplete(d, root, items[1..], c);
    }
  }

  // ---------------------------------------------------------------------
  // save

  /** The manifest `save` writes: the stored one with its three dependency
      records replaced by copies of the package's. */
  function SavedManifest(stored: map<string, Json>, pkg: Package): map<string, Json> {
    stored["devDependencies" := FromStringRecord(DepsOrEmpty(pkg, Dev))]
          ["dependencies" := FromStringRecord(DepsOrEmpty(pkg, Runtime))]
          ["peerDependencies" := FromStringRecord(DepsOrEmpty(pkg, Peer))]
  }

  function SaveSpec(d: Disk, pkg: Package): (Disk, Result<Package>) {
    match Read(d, pkg.root)
    case Err(e) => (d, Err(e))
    case Ok(cur) =>
      var raw := SavedManifest(cur.raw, pkg);
      match WriteAt(d, Concat(pkg.root, ManifestName), JsonText(JObj(raw)))
      case Err(e) => (d, Err(e))
      case Ok(d1) => (d1, Ok(cur.(raw := raw)))
  }

  /** Reading a package back after `save` gives the manifest as it was,
      except that the three dependency records are now copies of the
      package's (empty where the package had none). */
  lemma SaveThenRead(d: Disk, pkg: Package)
    requires SaveSpec(d, pkg).1.Ok?
    ensures var cur := Read(d, pkg.root).value;
            var back := Read(SaveSpec(d, pkg).0, pkg.root);
            back.Ok? && back.value == cur.(raw := SavedManifest(cur.raw, pkg)) &&
            forall k :: Deps(back.value, k) == Some(DepsOrEmpty(pkg, k))
  {
    var cur := Read(d, pkg.root).value;
    var raw := SavedManifest(cur.raw, pkg);
    var j := JObj(raw);
    var d1 := SaveSpec(d, pkg).0;
    assert ReadJsonFile(d1, Concat(pkg.root, ManifestName)) == Ok(j);
    StringRecordRoundTrip(DepsOrEmpty(pkg, Runtime), JNull);
    StringRecordRoundTrip(DepsOrEmpty(pkg, Dev), JNull);
    StringRecordRoundTrip(DepsOrEmpty(pkg, Peer), JNull);
    assert IsNodePackage(j);
    var p := ToPackage(pkg.root, j);
    var j0 := ReadJsonFile(d, Concat(pkg.root, ManifestName)).value;
    ToPackageOutsideRecords(pkg.root, j0, j);
    assert p == cur.(raw := raw);
    forall k ensures Deps(p, k) == Some(DepsOrEmpty(pkg, k)) {
      match k
      case Runtime =>
      case Dev =>
      case Peer =>
    }
  }

  /** The fields `f` and `g` agree on key `k`. */
  predicate KeptAt(f: map<string, Json>, g: map<string, Json>, k: string) {
    (k in f <==> k in g) && (k in f ==> f[k] == g[k])
  }

  /** Two manifests that differ only in their dependency records read as
      the same package, but for the raw fields. */
  lemma ToPackageOutsideRecords(path: string, a: Json, b: Json)
    requires IsNodePackage(a) && IsNodePackage(b)
    requires KeptAt(a.fields, b.fields, "name") && KeptAt(a.fields, b.fields, "ottoia:alias")
    requires KeptAt(a.fields, b.fields, "version") && KeptAt(a.fields, b.fields, "private")
    requires KeptAt(a.fields, b.fields, "scripts")
    ensures ToPackage(path, b) == ToPackage(path, a).(raw := b.fields)
  {
  }

  /** `save` writes only the manifest of the package's directory, and in
      it changes only the three dependency records. */
  lemma SaveKeepsOtherFields(d: Disk, pkg: Package)
    requires Read(d, pkg.root).Ok?
    ensures var stored := Read(d, pkg.root).value.raw;
            var saved := SavedManifest(stored, pkg);
            saved.Keys == stored.Keys + {"dependencies", "devDependencies", "peerDependencies"} &&
            forall k :: k in stored && k !in {"dependencies", "devDependencies", "peerDependencies"} ==>
              saved[k] == stored[k]
    ensures var r := SaveSpec(d, pkg);
            r.1.Ok? ==> r.0 == d[Concat(pkg.root, ManifestName) := r.0[Concat(pkg.root, ManifestName)]]
  {
  }

  /** A scan result with the entries collected before it in front. */
  function After(prefix: seq<string>, r: Result<seq<string>>): Result<seq<string>> {
    match r
    case Ok(s) => Ok(prefix + s)
    case Err(e) => Err(e)
  }

  /** One item of the listing moved from the pending part into the stack. */
  lemma ScanItemsStep(d: Disk, root: string, items: seq<string>, i: nat, acc: seq<string>)
    requires i < |items| && forall c :: c in items ==> c in d && |c| > |root|
    ensures var first := After(acc, ScanItem(d, root, items[i]));
            After(acc, ScanItems(d, root, items[i..])) ==
              if first.Err? then first else After(first.value, ScanItems(d, root, items[i + 1..]))
  {
    var rest := items[i..];
    assert rest[0] == items[i] && rest[1..] == items[i + 1..];
    match ScanItem(d, root, items[i])
    case Err(_) =>
    case Ok(f) =>
      match ScanItems(d, root, items[i + 1..])
      case Err(_) =>
      case Ok(t) => assert acc + (f + t) == (acc + f) + t;
  }

  // ---------------------------------------------------------------------
  // The helper object

  /** The manifest helper, working on the shared file system. */
  class Utils {
    const fs: FileSystem

    constructor (fs: FileSystem)
      ensures this.fs == fs
    {
      this.fs := fs;
    }

    /** `create(opts)`, with `builtIn` the location of the bundled
        template. */
    method Create(opts: CreateOptions, builtIn: string) returns (r: Result<Package>)
      modifies fs
      ensures (fs.entries, r) == CreateSpec(old(fs.entries), opts, builtIn)
    {
      var name := ToLower(opts.name);
      var pkgRoot := PackageRoot(opts);
      var tplRoot := Parent(TemplateFile(fs.entries, opts, builtIn));
      var check := CreateCheck(fs.entries, opts, builtIn);
      if check.Err? {
        return Err(check.error);
      }
      var pairs := check.value;
      var made := fs.MkdirP(pkgRoot);
      if made.Fail? {
        return Err(made.error);
      }
      ghost var start := fs.entries;
      var i := 0;
      while i < |pairs|
        invariant 0 <= i <= |pairs|
        invariant CreateFiles(fs.entries, pkgRoot, tplRoot, name, opts.alias, pairs[i..])
               == CreateFiles(start, pkgRoot, tplRoot, name, opts.alias, pairs)
      {
        assert pairs[i..][1..] == pairs[i + 1..];
        var o := CreateFileAt(pkgRoot, tplRoot, name, opts.alias, pairs[i]);
        if o.Fail? {
          return Err(o.error);
        }
        i := i + 1;
      }
      r := Read(fs.entries, pkgRoot);
    }

    /** `_createFile` for one template entry. */
    method CreateFileAt(pkgRoot: string, tplRoot: string, name: string, alias: Option<string>,
                        entry: (string, string)) returns (o: Outcome)
      modifies fs
      ensures (fs.entries, o) == CreateFile(old(fs.entries), pkgRoot, tplRoot, name, alias, entry)
    {
      var (input, output) := entry;
      var fullOut := Concat(pkgRoot, output);
      var fullIn := Concat(tplRoot, input);
      if output != ManifestName {
        o := fs.MkdirP(Parent(fullOut));
        if o.Fail? {
          return;
        }
        o := fs.CopyFile(fullIn, fullOut);
        return;
      }
      var tpl := ReadJsonFile(fs.entries, fullIn);
      if tpl.Err? {
        return Fail(tpl.error);
      }
      o := fs.WriteJson(fullOut, JObj(GeneratedManifest(tpl.value, name, alias)));
    }

    /** `scan(root)`. */
    method Scan(root: string) returns (r: Result<seq<string>>)
      ensures r == ScanDir(fs.entries, root)
    {
      r := ScanInto(root, []);
      match ScanDir(fs.entries, root)
      case Ok(found) => assert [] + found == found;
      case Err(_) =>
    }

    /** `_scan(root, stack)`: appends what is found below `root` to
        `stack`. */
    method ScanInto(root: string, stack: seq<string>) returns (r: Result<seq<string>>)
      ensures r == After(stack, ScanDir(fs.entries, root))
      decreases |Longer(fs.entries, root)|, 1
    {
      var listed := ReadDir(fs.entries, root);
      if listed.Err? {
        return Err(listed.error);
      }
      var items := listed.value;
      var acc := stack;
      var i := 0;
      while i < |items|
        invariant 0 <= i <= |items|
        invariant After(acc, ScanItems(fs.entries, root, items[i..])) == After(stack, ScanItems(fs.entries, root, items))
      {
        ScanItemsStep(fs.entries, root, items, i, acc);
        var next := VisitItem(root, items[i], acc);
        if next.Err? {
          return next;
        }
        acc := next.value;
        i := i + 1;
      }
      assert items[i..] == [] && acc + [] == acc;
      assert ScanDir(fs.entries, root) == ScanItems(fs.entries, root, items);
      r := Ok(acc);
    }

    /** One turn of the loop of `_scan`: skip, collect or descend. */
    method VisitItem(root: string, item: string, stack: seq<string>) returns (r: Result<seq<string>>)
      requires item in fs.entries && |item| > |root|
      ensures r == After(stack, ScanItem(fs.entries, root, item))
      decreases |Longer(fs.entries, root)|, 0
    {
      if EndsWith(item, ".") || !IsDir(fs.entries, item) {
        assert stack + [] == stack;
        return Ok(stack);
      }
      if HoldsManifest(fs.entries, item) {
        return Ok(stack + [item]);
      }
      LongerShrinks(fs.entries, root, item);
      r := ScanInto(item, stack);
    }

    /** `save(pkg)`. */
    method Save(pkg: Package) returns (r: Result<Package>)
      modifies fs
      ensures (fs.entries, r) == SaveSpec(old(fs.entries), pkg)
    {
      var cur := Read(fs.entries, pkg.root);
      if cur.Err? {
        return Err(cur.error);
      }
      var raw := SavedManifest(cur.value.raw, pkg);
      var o := fs.WriteJson(Concat(pkg.root, ManifestName), JObj(raw));
      if o.Fail? {
        return Err(o.error);
      }
      r := Ok(cur.value.(raw := raw));
    }
  }
}
