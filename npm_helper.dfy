/** The gateway to npm: the argument lists of `npm install` and `npm un`,
    the version lookup in the registry's `dist-tags`, the collection of
    per-package lookups, and the `node_modules` links of local packages.
    Shell commands are recorded, in order, instead of being run; registry
    replies are inputs. */
module NpmHelper {
  import opened Errors
  import opened Text
  import opened Json
  import opened Disk
  import opened Internal

  /** A shell command: the directory it runs in and its argument vector. */
  datatype Command = Command(cwd: string, argv: seq<string>)

  /** What `execAt` makes of one command. Whether a command exits with a
      non-zero status, or prints to stderr only, is decided outside the
      program: `failing` holds the commands that do, and `execAt` rejects
      exactly those. */
  function Exec(failing: set<Command>, c: Command): (r: Outcome)
    ensures r.Pass? <==> c !in failing
    ensures r.Fail? ==> r.error.CommandFailed? && r.error.cwd == c.cwd && r.error.argv == c.argv
  {
    if c in failing then Fail(CommandFailed(c.cwd, c.argv)) else Pass
  }

  /** Commands awaited one after another: the run stops after the first
      that fails. The result is the commands actually run and the outcome. */
  function RunAll(failing: set<Command>, cmds: seq<Command>): (r: (seq<Command>, Outcome))
    decreases |cmds|
  {
    if cmds == [] then ([], Pass)
    else if cmds[0] in failing then ([cmds[0]], Exec(failing, cmds[0]))
    else
      var (more, o) := RunAll(failing, cmds[1..]);
      ([cmds[0]] + more, o)
  }

  /** A run passes exactly when no command of it fails, and then runs them
      all; otherwise it runs them up to and including the first failing
      one, and fails with that command's error. */
  lemma {:induction false} RunAllMeaning(failing: set<Command>, cmds: seq<Command>)
    ensures var r := RunAll(failing, cmds);
            (r.1.Pass? <==> forall c :: c in cmds ==> c !in failing) &&
            (r.1.Pass? ==> r.0 == cmds) &&
            (r.1.Fail? ==> exists i :: 0 <= i < |cmds| && cmds[i] in failing && r.0 == cmds[..i + 1] &&
                                       (forall j :: 0 <= j < i ==> cmds[j] !in failing) &&
                                       r.1 == Exec(failing, cmds[i]))
    decreases |cmds|
  {
    if cmds != [] {
      assert forall c :: c in cmds ==> c == cmds[0] || c in cmds[1..];
      if cmds[0] in failing {
        assert cmds[..1] == [cmds[0]];
      } else {
        RunAllMeaning(failing, cmds[1..]);
        var r := RunAll(failing, cmds);
        if r.1.Fail? {
          var tail := cmds[1..];
          var i :| 0 <= i < |tail| && tail[i] in failing && RunAll(failing, tail).0 == tail[..i + 1] &&
                   (forall j :: 0 <= j < i ==> tail[j] !in failing) &&
                   r.1 == Exec(failing, tail[i]);
          assert [cmds[0]] + tail[..i + 1] == cmds[..i + 2];
          assert tail[i] == cmds[i + 1];
        }
      }
    }
  }

  // ---------------------------------------------------------------------
  // Argument lists

  /** The arguments after `npm install`: the dependencies in order, then
      `--peer`, then `--save-dev`. */
  function InstallArgs(deps: seq<string>, peer: bool, dev: bool): (r: seq<string>)
    ensures |r| >= |deps| && r[..|deps|] == deps
    ensures r[|deps|..] == (if peer then ["--peer"] else []) + (if dev then ["--save-dev"] else [])
  {
    deps + (if peer then ["--peer"] else []) + (if dev then ["--save-dev"] else [])
  }

  /** The arguments after `npm un`: the names, then `--peer`, then `-D`. */
  function UninstallArgs(deps: seq<string>, peer: bool, dev: bool): (r: seq<string>)
    ensures |r| >= |deps| && r[..|deps|] == deps
    ensures r[|deps|..] == (if peer then ["--peer"] else []) + (if dev then ["-D"] else [])
  {
    deps + (if peer then ["--peer"] else []) + (if dev then ["-D"] else [])
  }

  // ---------------------------------------------------------------------
  // getCurrentVersion

  /** What the registry answered for one package. `distTags` holds the
      entries of the `dist-tags` object in the order `Object.entries` gives
      them. */
  datatype Reply = Reply(status: int, distTags: seq<(string, string)>)

  predicate DistinctTags(tags: seq<(string, string)>) {
    forall i, j :: 0 <= i < j < |tags| ==> tags[i].0 != tags[j].0
  }

  /** `data[tag]` of the `dist-tags` object. */
  function TagValue(tags: seq<(string, string)>, tag: string): (r: Option<string>)
    ensures r.Some? <==> exists i :: 0 <= i < |tags| && tags[i].0 == tag
    ensures r.Some? ==> exists i :: 0 <= i < |tags| && tags[i] == (tag, r.value)
  {
    if tags == [] then None
    else if tags[0].0 == tag then Some(tags[0].1)
    else
      var r := TagValue(tags[1..], tag);
      assert r.Some? ==> exists i :: 0 <= i < |tags| - 1 && tags[1..][i] == (tag, r.value);
      r
  }

  function TagVersions(tags: seq<(string, string)>): (r: seq<string>)
    ensures |r| == |tags|
    ensures forall i :: 0 <= i < |r| ==> r[i] == tags[i].1
  {
    seq(|tags|, i requires 0 <= i < |tags| => tags[i].1)
  }

  /** `getCurrentVersion(pkg, builtInCmpSemVersion, tag)`: a 404 means the
      package was never published, any other non-200 status is an npm
      error; the tag's version when it is set, otherwise the newest of all
      tagged versions (the entries sorted ascending by the comparator, the
      last one taken), and a type error when there is none. */
  function SelectVersion(pkg: string, reply: Reply, tag: string): (r: Result<string>)
    requires DistinctTags(reply.distTags)
  {
    if reply.status != 200 then
      if reply.status == 404 then Err(PackageNotReleased(pkg)) else Err(NpmError)
    else
      var tagged := TagValue(reply.distTags, tag);
      if tagged.Some? && tagged.value != "" then Ok(tagged.value)
      else if reply.distTags == [] then Err(TypeError("dist-tags"))
      else Ok(Greatest(TagVersions(reply.distTags)))
  }

  /** The outcomes of the lookup: the status decides the failures, the
      requested tag wins when it is set, and otherwise no tagged numeric
      version is newer than the one selected. */
  lemma SelectVersionMeaning(pkg: string, reply: Reply, tag: string)
    requires DistinctTags(reply.distTags)
    ensures var r := SelectVersion(pkg, reply, tag);
            && (reply.status == 404 ==> r == Err(PackageNotReleased(pkg)))
            && (reply.status != 200 && reply.status != 404 ==> r == Err(NpmError))
            && (reply.status == 200 ==> r.Ok? || r == Err(TypeError("dist-tags")))
            && ((reply.status == 200 && exists i :: 0 <= i < |reply.distTags| && reply.distTags[i].0 == tag && reply.distTags[i].1 != "")
                  ==> r.Ok? && (tag, r.value) in reply.distTags)
            && (r.Ok? ==> exists i :: 0 <= i < |reply.distTags| && reply.distTags[i].1 == r.value)
            && (reply.status == 200 && !(TagValue(reply.distTags, tag).Some? && TagValue(reply.distTags, tag).value != "") &&
                (forall i :: 0 <= i < |reply.distTags| ==> IsNumeric(reply.distTags[i].1)) && r.Ok? ==>
                  forall i :: 0 <= i < |reply.distTags| ==> !Older(r.value, reply.distTags[i].1))
  {
    if reply.status == 200 {
      var tags := reply.distTags;
      if exists i :: 0 <= i < |tags| && tags[i].0 == tag && tags[i].1 != "" {
        SelectVersionTagged(pkg, reply, tag);
      }
      SelectVersionListed(pkg, reply, tag);
      var t := TagValue(tags, tag);
      if !(t.Some? && t.value != "") && forall i :: 0 <= i < |tags| ==> IsNumeric(tags[i].1) {
        SelectVersionNewest(pkg, reply, tag);
      }
    }
  }

  lemma SelectVersionTagged(pkg: string, reply: Reply, tag: string)
    requires DistinctTags(reply.distTags) && reply.status == 200
    requires exists i :: 0 <= i < |reply.distTags| && reply.distTags[i].0 == tag && reply.distTags[i].1 != ""
    ensures var r := SelectVersion(pkg, reply, tag); r.Ok? && (tag, r.value) in reply.distTags
  {
    var tags := reply.distTags;
    var i :| 0 <= i < |tags| && tags[i].0 == tag && tags[i].1 != "";
    var t := TagValue(tags, tag);
    var j :| 0 <= j < |tags| && tags[j] == (tag, t.value);
    assert i == j;
  }

  lemma SelectVersionListed(pkg: string, reply: Reply, tag: string)
    requires DistinctTags(reply.distTags) && reply.status == 200
    ensures var r := SelectVersion(pkg, reply, tag);
            r.Ok? ==> exists i :: 0 <= i < |reply.distTags| && reply.distTags[i].1 == r.value
  {
    var tags := reply.distTags;
    var t := TagValue(tags, tag);
    if t.Some? && t.value != "" {
      var j :| 0 <= j < |tags| && tags[j] == (tag, t.value);
    } else if tags != [] {
      var vs := TagVersions(tags);
      assert Greatest(vs) in vs;
    }
  }

  lemma SelectVersionNewest(pkg: string, reply: Reply, tag: string)
    requires DistinctTags(reply.distTags) && reply.status == 200
    requires !(TagValue(reply.distTags, tag).Some? && TagValue(reply.distTags, tag).value != "")
    requires forall i :: 0 <= i < |reply.distTags| ==> IsNumeric(reply.distTags[i].1)
    ensures var r := SelectVersion(pkg, reply, tag);
            r.Ok? ==> forall i :: 0 <= i < |reply.distTags| ==> !Older(r.value, reply.distTags[i].1)
  {
    var tags := reply.distTags;
    if tags != [] {
      var vs := TagVersions(tags);
      GreatestIsNewest(vs);
      assert forall i :: 0 <= i < |tags| ==> tags[i].1 in vs;
    }
  }

  // ---------------------------------------------------------------------
  // getCurrentVersionSet

  /** The settled outcome of one lookup task. */
  datatype Settled = Succeeded(version: string) | Rejected(error: Error)

  /** `getCurrentVersionSet`: walks the outcomes in index order; a success
      records the version under the package's name, a package that was
      never published is skipped, and any other failure is thrown. */
  function CollectVersions(names: seq<string>, results: seq<Settled>, i: nat, acc: map<string, string>): (r: Result<map<string, string>>)
    requires |results| == |names| && i <= |names|
    decreases |names| - i
  {
    if i == |names| then Ok(acc)
    else match results[i]
      case Succeeded(v) => CollectVersions(names, results, i + 1, acc[names[i] := v])
      case Rejected(e) =>
        if e.PackageNotReleased? then CollectVersions(names, results, i + 1, acc) else Err(e)
  }

  /** The first failure other than "not released", by index. */
  predicate FirstFatal(results: seq<Settled>, i: nat, k: nat) {
    i <= k < |results| && results[k].Rejected? && !results[k].error.PackageNotReleased?
    && forall j :: i <= j < k ==> results[j].Succeeded? || results[j].error.PackageNotReleased?
  }

  /** With distinct names, the collection has a key exactly for each task
      that succeeded, with that task's version; it fails exactly when some
      task failed otherwise than "not released", with the first such
      error. */
  lemma {:induction false} CollectVersionsMeaning(names: seq<string>, results: seq<Settled>, i: nat, acc: map<string, string>)
    requires |results| == |names| && i <= |names|
    requires forall a, b :: 0 <= a < b < |names| ==> names[a] != names[b]
    requires forall j :: i <= j < |names| ==> names[j] !in acc
    ensures var r := CollectVersions(names, results, i, acc);
            && (r.Ok? <==> forall k :: i <= k < |results| ==> results[k].Succeeded? || results[k].error.PackageNotReleased?)
            && (r.Err? ==> exists k: nat :: FirstFatal(results, i, k) && r.error == results[k].error)
            && (r.Ok? ==> forall j :: i <= j < |names| ==>
                   (names[j] in r.value <==> results[j].Succeeded?) &&
                   (results[j].Succeeded? ==> r.value[names[j]] == results[j].version))
            && (r.Ok? ==> forall n :: n in acc ==> n in r.value && r.value[n] == acc[n])
            && (r.Ok? ==> forall n :: n in r.value ==> n in acc || exists j :: i <= j < |names| && names[j] == n)
    decreases |names| - i
  {
    if i < |names| {
      var acc' := if results[i].Succeeded? then acc[names[i] := results[i].version] else acc;
      CollectVersionsMeaning(names, results, i + 1, acc');
      var r := CollectVersions(names, results, i, acc);
      if results[i].Rejected? && !results[i].error.PackageNotReleased? {
        assert FirstFatal(results, i, i);
      } else {
        assert r == CollectVersions(names, results, i + 1, acc');
        if r.Err? {
          var k: nat :| FirstFatal(results, i + 1, k) && r.error == results[k].error;
          assert FirstFatal(results, i, k);
        }
      }
    }
  }

  // ---------------------------------------------------------------------
  // Links in node_modules

  /** The scope part of a package name: every `/`-separated segment but
      the last, joined again; empty for a name without a scope. */
  function ParentPath(name: string): string {
    var parts := Split(name, '/');
    Join(parts[..|parts| - 1], '/')
  }

  /** An unscoped name has no parent path; a scoped one is its parent path,
      a slash and the last segment. */
  lemma ParentPathMeaning(name: string)
    ensures '/' !in name ==> ParentPath(name) == ""
    ensures var parts := Split(name, '/');
            |parts| >= 2 ==> ParentPath(name) + "/" + parts[|parts| - 1] == name
  {
    if '/' !in name {
      ParentPathUnscoped(name);
    }
    if |Split(name, '/')| >= 2 {
      ParentPathScoped(name);
    }
  }

  lemma ParentPathUnscoped(name: string)
    requires '/' !in name
    ensures ParentPath(name) == ""
  {
    assert IndexOf(name, '/') == |name|;
    assert Split(name, '/') == [name];
  }

  lemma ParentPathScoped(name: string)
    requires |Split(name, '/')| >= 2
    ensures var parts := Split(name, '/');
            ParentPath(name) + "/" + parts[|parts| - 1] == name
  {
    var parts := Split(name, '/');
    JoinSplit(name, '/');
    JoinInitLast(parts, '/');
  }

  /** A list of at least two pieces is its front, joined, then the
      separator and the last piece. */
  lemma JoinInitLast(parts: seq<string>, sep: char)
    requires |parts| >= 2
    ensures Join(parts[..|parts| - 1], sep) + [sep] + parts[|parts| - 1] == Join(parts, sep)
  {
    assert parts == parts[..|parts| - 1] + [parts[|parts| - 1]];
    JoinSnoc(parts[..|parts| - 1], parts[|parts| - 1], sep);
  }

  /** Where the link of a local dependency lives. */
  function LinkPath(cwd: string, name: string): string {
    Concat(Concat(cwd, "node_modules"), name)
  }

  /** The directories `link` makes first: `node_modules`, and the scope
      directory inside it for a scoped name. */
  function LinkDirs(d: Disk, cwd: string, name: string): (r: (Disk, Outcome))
  {
    var nm := Concat(cwd, "node_modules");
    var parent := ParentPath(name);
    match Mkdirs(d, nm)
    case Err(e) => (d, Fail(e))
    case Ok(d1) =>
      if parent == "" then (d1, Pass)
      else match Mkdirs(d1, Concat(nm, parent))
        case Err(e) => (d1, Fail(e))
        case Ok(d2) => (d2, Pass)
  }

  /** The effect of `link(name, path)`: the file system afterwards, the
      commands run, and the outcome. The link is made only where nothing
      exists yet. */
  function LinkSpec(d: Disk, failing: set<Command>, cwd: string, name: string, path: string): (r: (Disk, seq<Command>, Outcome))
  {
    var at := LinkPath(cwd, name);
    var (d2, o) := LinkDirs(d, cwd, name);
    if o.Fail? then (d2, [], o)
    else
      if Exists(d2, at) then (d2, [], Pass)
      else
        var c := Command(cwd, ["ln", "-s", path, at]);
        if !IsDir(d2, Parent(at)) then (d2, [c], Fail(FileNotFound(at)))
        else if c in failing then (d2, [c], Exec(failing, c))
        else (d2[at := Link(path)], [c], Pass)
  }

  /** The directories `link` makes are all shorter than the link itself. */
  lemma LinkDirsShorter(cwd: string, name: string)
    ensures var nm := Concat(cwd, "node_modules");
            var parent := ParentPath(name);
            |nm| < |LinkPath(cwd, name)| &&
            (parent != "" ==> |Concat(nm, parent)| < |LinkPath(cwd, name)|)
  {
    ParentPathMeaning(name);
  }

  /** After `LinkDirs` succeeded, adding one entry longer than both
      directories leaves it a no-op. */
  lemma LinkDirsStable(d: Disk, cwd: string, name: string, at: string, e: Entry)
    requires LinkDirs(d, cwd, name).1.Pass?
    requires |at| > |Concat(cwd, "node_modules")|
    requires ParentPath(name) != "" ==> |at| > |Concat(Concat(cwd, "node_modules"), ParentPath(name))|
    ensures var d2 := LinkDirs(d, cwd, name).0;
            LinkDirs(d2, cwd, name) == (d2, Pass) && LinkDirs(d2[at := e], cwd, name) == (d2[at := e], Pass)
  {
    var nm := Concat(cwd, "node_modules");
    var parent := ParentPath(name);
    var d1 := Mkdirs(d, nm).value;
    var d2 := LinkDirs(d, cwd, name).0;
    MkdirsDirs(d, nm);
    if parent != "" {
      MkdirsDirs(d1, Concat(nm, parent));
      DirsSurvive(d2, nm, at, e);
      DirsSurvive(d2, Concat(nm, parent), at, e);
    } else {
      DirsSurvive(d2, nm, at, e);
    }
  }

  /** A path whose ancestors are all directories keeps them when a longer
      path is written. */
  lemma DirsSurvive(d: Disk, p: string, at: string, e: Entry)
    requires forall q :: q in Ancestors(p) ==> IsDir(d, q)
    requires |at| > |p|
    ensures Mkdirs(d, p) == Ok(d) && Mkdirs(d[at := e], p) == Ok(d[at := e])
  {
    MkdirsNoop(d, p);
    MkdirsNoop(d[at := e], p);
  }

  /** Linking twice is linking once: the second call finds the link and
      runs nothing. */
  lemma LinkIdempotent(d: Disk, failing: set<Command>, cwd: string, name: string, path: string)
    requires LinkSpec(d, failing, cwd, name, path).2.Pass?
    ensures var d1 := LinkSpec(d, failing, cwd, name, path).0;
            Exists(d1, LinkPath(cwd, name)) && LinkSpec(d1, failing, cwd, name, path) == (d1, [], Pass)
  {
    var at := LinkPath(cwd, name);
    LinkDirsShorter(cwd, name);
    LinkDirsStable(d, cwd, name, at, Link(path));
  }

  /** The effect of `unlink(name)`: an existing link (or file) is removed,
      a missing one is left alone. */
  function UnlinkSpec(d: Disk, cwd: string, name: string): (r: (Disk, Outcome))
    ensures r.1.Pass? ==> !Exists(r.0, LinkPath(cwd, name))
    ensures !Exists(d, LinkPath(cwd, name)) ==> r == (d, Pass)
  {
    var at := LinkPath(cwd, name);
    if !Exists(d, at) then (d, Pass)
    else if d[at].Dir? then (d, Fail(PathConflict(at)))
    else (d - {at}, Pass)
  }

  // ---------------------------------------------------------------------
  // run

  /** What `run(name)` does in directory `cwd`: the script of that name in
      the directory's manifest is run through `bash -c`. A missing manifest,
      a manifest without scripts or a missing script fails before anything
      is run. */
  function RunSpec(d: Disk, failing: set<Command>, cwd: string, name: string): (r: (seq<Command>, Outcome))
    ensures |r.0| <= 1 && (r.1.Pass? ==> |r.0| == 1)
    ensures |r.0| == 1 ==> var m := ReadJsonFile(d, Concat(cwd, "package.json"));
                           r.1 == Exec(failing, r.0[0]) &&
                           m.Ok? && Field(m.value, "scripts").Some? &&
                           exists script :: Field(Field(m.value, "scripts").value, name) == Some(JStr(script)) &&
                                            r.0[0] == Command(cwd, ["bash", "-c", script])
    ensures ReadJsonFile(d, Concat(cwd, "package.json")).Err? ==> r.1 == Fail(ReadJsonFile(d, Concat(cwd, "package.json")).error)
  {
    var m := ReadJsonFile(d, Concat(cwd, "package.json"));
    if m.Err? then ([], Fail(m.error))
    else
      var scripts := Field(m.value, "scripts");
      if scripts.None? then ([], Fail(TypeError("scripts")))
      else
        var script := Field(scripts.value, name);
        if script.None? || !script.value.JStr? then ([], Fail(TypeError("script")))
        else
          var c := Command(cwd, ["bash", "-c", script.value.s]);
          ([c], Exec(failing, c))
  }

  // ---------------------------------------------------------------------
  // The helper object

  class Npm {
    var cwd: string
    /** Every command started through `execAt`, in order. */
    var commands: seq<Command>
    const fs: FileSystem
    /** The commands that fail when run. */
    const failing: set<Command>

    constructor (cwd: string, fs: FileSystem, failing: set<Command>)
      ensures this.cwd == cwd && this.fs == fs && this.failing == failing && commands == []
    {
      this.cwd := cwd;
      this.fs := fs;
      this.failing := failing;
      commands := [];
    }

    /** `chdir(cwd)`. */
    method Chdir(dir: string)
      modifies this
      ensures cwd == dir && commands == old(commands)
    {
      cwd := dir;
    }

    /** `install(deps, peer, dev)`: nothing at all for an empty list;
        otherwise one `npm install`, which fails when the command does. */
    method Install(deps: seq<string>, peer: bool, dev: bool) returns (r: Outcome)
      modifies this
      ensures cwd == old(cwd)
      ensures var c := Command(cwd, ["npm", "install"] + InstallArgs(deps, peer, dev));
              commands == old(commands) + (if deps == [] then [] else [c]) &&
              r == (if deps == [] then Pass else Exec(failing, c))
    {
      if deps == [] {
        return Pass;
      }
      var args := deps;
      if peer {
        args := args + ["--peer"];
      }
      if dev {
        args := args + ["--save-dev"];
      }
      assert args == InstallArgs(deps, peer, dev);
      var c := Command(cwd, ["npm", "install"] + args);
      commands := commands + [c];
      r := Exec(failing, c);
    }

    /** `uninstall(deps, peer, dev)`: the caller's list is copied, not
        extended. It fails when the `npm un` it runs does. */
    method Uninstall(deps: seq<string>, peer: bool, dev: bool) returns (r: Outcome)
      modifies this
      ensures cwd == old(cwd)
      ensures var c := Command(cwd, ["npm", "un"] + UninstallArgs(deps, peer, dev));
              commands == old(commands) + (if deps == [] then [] else [c]) &&
              r == (if deps == [] then Pass else Exec(failing, c))
    {
      if deps == [] {
        return Pass;
      }
      var args := deps;
      if peer {
        args := args + ["--peer"];
      }
      if dev {
        args := args + ["-D"];
      }
      assert args == UninstallArgs(deps, peer, dev);
      var c := Command(cwd, ["npm", "un"] + args);
      commands := commands + [c];
      r := Exec(failing, c);
    }

    /** `publish(args)`: fails when the `npm publish` it runs does. */
    method Publish(args: seq<string>) returns (r: Outcome)
      modifies this
      ensures var c := Command(cwd, ["npm", "publish"] + args);
              cwd == old(cwd) && commands == old(commands) + [c] && r == Exec(failing, c)
    {
      var c := Command(cwd, ["npm", "publish"] + args);
      commands := commands + [c];
      r := Exec(failing, c);
    }

    /** `run(name)`. */
    method Run(name: string) returns (r: Outcome)
      modifies this
      ensures cwd == old(cwd)
      ensures commands == old(commands) + RunSpec(fs.entries, failing, cwd, name).0
      ensures r == RunSpec(fs.entries, failing, cwd, name).1
    {
      var m := ReadJsonFile(fs.entries, Concat(cwd, "package.json"));
      if m.Err? {
        return Fail(m.error);
      }
      var scripts := Field(m.value, "scripts");
      if scripts.None? {
        return Fail(TypeError("scripts"));
      }
      var script := Field(scripts.value, name);
      if script.None? || !script.value.JStr? {
        return Fail(TypeError("script"));
      }
      var c := Command(cwd, ["bash", "-c", script.value.s]);
      commands := commands + [c];
      r := Exec(failing, c);
    }

    /** `getCurrentVersionSet(names, builtInCmpSemVersion, tag)` over the
        registry's replies, one per name. */
    method GetCurrentVersionSet(names: seq<string>, replies: seq<Reply>, tag: string) returns (r: Result<map<string, string>>)
      requires |replies| == |names|
      requires forall i :: 0 <= i < |replies| ==> DistinctTags(replies[i].distTags)
      ensures r == CollectVersions(names, Settle(names, replies, tag), 0, map[])
    {
      var results := Settle(names, replies, tag);
      var ret: map<string, string> := map[];
      var i := 0;
      while i < |names|
        invariant 0 <= i <= |names|
        invariant CollectVersions(names, results, i, ret) == CollectVersions(names, results, 0, map[])
      {
        match results[i] {
          case Succeeded(v) =>
            ret := ret[names[i] := v];
          case Rejected(e) =>
            if !e.PackageNotReleased? {
              return Err(e);
            }
        }
        i := i + 1;
      }
      r := Ok(ret);
    }

    /** `link(name, path)`. */
    method Link(name: string, path: string) returns (r: Outcome)
      modifies this, fs
      ensures cwd == old(cwd)
      ensures fs.entries == LinkSpec(old(fs.entries), failing, cwd, name, path).0
      ensures commands == old(commands) + LinkSpec(old(fs.entries), failing, cwd, name, path).1
      ensures r == LinkSpec(old(fs.entries), failing, cwd, name, path).2
    {
      r := MakeLinkDirs(name);
      if r.Fail? {
        return;
      }
      var at := LinkPath(cwd, name);
      if at !in fs.entries {
        var c := Command(cwd, ["ln", "-s", path, at]);
        commands := commands + [c];
        if c in failing && IsDir(fs.entries, Parent(at)) {
          r := Exec(failing, c);
        } else {
          r := fs.Symlink(path, at);
        }
      }
    }

    method MakeLinkDirs(name: string) returns (r: Outcome)
      modifies fs
      ensures (fs.entries, r) == LinkDirs(old(fs.entries), cwd, name)
    {
      var nm := Concat(cwd, "node_modules");
      r := fs.MkdirP(nm);
      if r.Fail? {
        return;
      }
      var parent := ParentPath(name);
      if parent != "" {
        r := fs.MkdirP(Concat(nm, parent));
        if r.Fail? {
          return;
        }
      }
    }

    /** `unlink(name)`. */
    method Unlink(name: string) returns (r: Outcome)
      modifies fs
      ensures (fs.entries, r) == UnlinkSpec(old(fs.entries), cwd, name)
    {
      var at := LinkPath(cwd, name);
      r := Pass;
      if at in fs.entries {
        r := fs.RemoveFile(at);
      }
    }
  }

  /** Every lookup settled: the registry reply of each name read by
      `getCurrentVersion`. */
  function Settle(names: seq<string>, replies: seq<Reply>, tag: string): (r: seq<Settled>)
    requires |replies| == |names|
    requires forall i :: 0 <= i < |replies| ==> DistinctTags(replies[i].distTags)
    ensures |r| == |names|
    ensures forall i :: 0 <= i < |r| ==>
              r[i] == match SelectVersion(names[i], replies[i], tag)
                      case Ok(v) => Succeeded(v)
                      case Err(e) => Rejected(e)
  {
    seq(|names|, i requires 0 <= i < |names| =>
      match SelectVersion(names[i], replies[i], tag)
      case Ok(v) => Succeeded(v)
      case Err(e) => Rejected(e))
  }
}
