/*
 * lbuild's build log: the operations each module performed, a reservation
 * of every output file logged through `log` so that no other operation can
 * overwrite it, per-module and sorted views, and build metadata sets keyed
 * by name and module. Paths are POSIX paths; the working directory is a
 * parameter.
 */
module BuildLogs {
  import opened Errors
  import Text
  import Paths
  import Sorting

  /** A build operation: the generating module, the anchors and the files, absolute. */
  datatype Operation = Operation(moduleName: string, outpath: string, inpath: string,
                                 filenameIn: string, filenameOut: string,
                                 metadata: map<string, set<string>>)

  /** The metadata sets of an operation: only keys with at least one value appear. */
  function MetadataSets(md: map<string, seq<string>>): (r: map<string, set<string>>)
    ensures forall k :: k in r <==> k in md && |md[k]| > 0
    ensures forall k :: k in r ==> forall v :: v in r[k] <==> v in md[k]
  {
    map k | k in md && |md[k]| > 0 :: set v | v in md[k]
  }

  /** `Operation(module_name, outpath, module_path, filename_in, filename_out, metadata=...)`. */
  function NewOperation(moduleName: string, outpath: string, modulePath: string,
                        filenameIn: string, filenameOut: string,
                        md: map<string, seq<string>>, cwd: string): Operation
  {
    Operation(moduleName, Paths.AbsPath(outpath, cwd), Paths.AbsPath(modulePath, cwd),
              Paths.AbsPath(filenameIn, cwd), Paths.AbsPath(filenameOut, cwd), MetadataSets(md))
  }

  /** The sort key `(module_name, filename_in, filename_out)`. */
  function OpKey(op: Operation): seq<string>
  {
    [op.moduleName, op.filenameIn, op.filenameOut]
  }

  // ------------------------------------------------------------ local file names

  /** `Operation._local_filename(filename, path)`; `relpath` of an empty directory raises. */
  function LocalFilename(filename: string, path: string, cwd: string): (r: Result<string>)
    ensures r.Failure? <==> Paths.Dirname(filename) == ""
  {
    var dir := Paths.Dirname(filename);
    if dir == "" then Failure(Raised(ValueError, "no path specified"))
    else Success(Paths.NormPath(Paths.Join(Paths.RelPath(dir, path, cwd), Paths.Basename(filename))))
  }

  /** A relative file name taken inside `base`; an absolute one as it is. */
  function Resolved(base: string, f: string): string
  {
    if Paths.IsAbs(f) then f else Paths.Join(base, f)
  }

  /** The anchor, optionally joined with `relative_to`. */
  function Anchor(path: string, relativeTo: Option<string>): string
  {
    if relativeTo.Some? then Paths.Join(path, relativeTo.value) else path
  }

  /** `local_filename_in(relative_to)`. */
  function LocalFilenameIn(op: Operation, relativeTo: Option<string>, cwd: string): Result<string>
  {
    LocalFilename(op.filenameIn, Anchor(op.inpath, relativeTo), cwd)
  }

  /** `local_filename_out(relative_to)`. */
  function LocalFilenameOut(op: Operation, relativeTo: Option<string>, cwd: string): Result<string>
  {
    LocalFilename(op.filenameOut, Anchor(op.outpath, relativeTo), cwd)
  }

  /** After a trailing slash, a slash-free suffix does not move the last slash. */
  lemma {:induction false} AfterSlashSuffix(s: string, name: string)
    requires |s| > 0 && s[|s| - 1] == '/' && '/' !in name
    ensures Paths.AfterLastSlash(s + name) == |s|
    decreases |name|
  {
    if |name| == 0 {
      assert s + name == s;
      assert s[..|s| - 1] + [s[|s| - 1]] == s;
    } else {
      var p := s + name;
      assert p[|p| - 1] == name[|name| - 1];
      assert p[..|p| - 1] == s + name[..|name| - 1];
      AfterSlashSuffix(s, name[..|name| - 1]);
    }
  }

  /** The directory and base name of `dir + "/" + name`. */
  lemma SplitFileName(dir: string, name: string)
    requires dir != "" && dir[|dir| - 1] != '/' && '/' !in name
    ensures Paths.Dirname(dir + "/" + name) == dir
    ensures Paths.Basename(dir + "/" + name) == name
  {
    var p := dir + "/" + name;
    assert p == (dir + "/") + name;
    AfterSlashSuffix(dir + "/", name);
    var head := p[..|dir| + 1];
    assert head == dir + "/";
    assert !Paths.AllSlashes(head) by { assert head[|dir| - 1] == dir[|dir| - 1]; }
    assert head[..|head| - 1] == dir;
    assert Paths.RStripSlashes(dir) == dir;
    assert Paths.RStripSlashes(head) == dir;
    assert p[|dir| + 1..] == name;
  }

  /** `normpath("./" + name)` is the name itself. */
  lemma NormDotName(name: string)
    requires name != "" && '/' !in name && name != "." && name != ".."
    ensures Paths.NormPath("./" + name) == name
  {
    var local := "./" + name;
    assert local == Text.Join([".", name], "/");
    Text.SplitJoin([".", name], '/');
    assert Text.Split(local, "/") == [".", name];
    assert local[0] == '.';
    assert Paths.InitialSlashes(local) == 0;
    assert Paths.NormFold([".", name], false, []) == [name] by {
      var one := [".", name];
      assert one[0] == "." && one[1..] == [name];
      assert Paths.NormStep([], ".", false) == [];
      assert Paths.NormFold(one, false, []) == Paths.NormFold([name], false, []);
      assert Paths.NormStep([], name, false) == [name];
      assert [name][1..] == [];
      assert Paths.NormFold([name], false, []) == Paths.NormFold([], false, [name]);
    }
    assert Text.Join([name], "/") == name;
  }

  /** `normpath(join(".", name))` is the name itself. */
  lemma DotJoinName(name: string)
    requires name != "" && '/' !in name && name != "." && name != ".."
    ensures Paths.NormPath(Paths.Join(".", name)) == name
  {
    assert !Paths.IsAbs(name) by { assert name[0] != '/'; }
    assert !Text.EndsWith(".", "/") by { assert "."[0..] == "."; }
    Paths.JoinPlain(".", name);
    assert "." + "/" + name == "./" + name;
    NormDotName(name);
  }

  /**
   * A file directly inside a directory is local to that directory under its
   * own name: `_local_filename(dir + "/" + name, dir) == name`.
   */
  lemma LocalFilenameOf(dir: string, name: string, cwd: string)
    requires dir != "" && dir[|dir| - 1] != '/'
    requires name != "" && '/' !in name && name != "." && name != ".."
    ensures LocalFilename(Paths.Join(dir, name), dir, cwd) == Success(name)
  {
    assert !Text.EndsWith(dir, "/") by { assert dir[|dir| - 1..] == [dir[|dir| - 1]]; }
    assert !Paths.IsAbs(name) by { assert name[0] != '/'; }
    var f := Paths.Join(dir, name);
    Paths.JoinPlain(dir, name);
    SplitFileName(dir, name);
    Paths.RelPathSelf(dir, cwd);
    DotJoinName(name);
    assert LocalFilename(f, dir, cwd) == Success(Paths.NormPath(Paths.Join(".", name)));
  }

  /** An absolute file name always has a local name: `_local_filename` cannot raise for it. */
  lemma LocalFilenameAbs(filename: string, path: string, cwd: string)
    requires Paths.IsAbs(filename)
    ensures LocalFilename(filename, path, cwd).Success?
  {
    Paths.DirnameAbs(filename);
  }

  /** With an absolute working directory, every operation's output has a local name. */
  lemma LocalFilenameOutAbs(moduleName: string, outpath: string, modulePath: string,
                            filenameIn: string, filenameOut: string,
                            md: map<string, seq<string>>, cwd: string, relativeTo: Option<string>)
    requires Paths.IsAbs(cwd)
    ensures LocalFilenameOut(NewOperation(moduleName, outpath, modulePath, filenameIn, filenameOut, md, cwd),
                             relativeTo, cwd).Success?
  {
    Paths.AbsPathAbs(filenameOut, cwd);
    LocalFilenameAbs(Paths.AbsPath(filenameOut, cwd), Anchor(Paths.AbsPath(outpath, cwd), relativeTo), cwd);
  }

  // ------------------------------------------------------------ metadata per output file

  /** Some operation of `s` that carries metadata has no local output name. */
  ghost predicate Unnamed(s: set<Operation>, cwd: string)
  {
    exists op :: op in s && op.metadata != map[] && LocalFilenameOut(op, None, cwd).Failure?
  }

  /** Some operation of `s` carries metadata under `key`. */
  ghost predicate MetadataKey(s: set<Operation>, key: string)
  {
    exists op :: op in s && key in op.metadata
  }

  /** The local output names of the operations of `s` with metadata under `key`. */
  ghost function FileKeys(s: set<Operation>, key: string, cwd: string): set<string>
  {
    set op | op in s && key in op.metadata && LocalFilenameOut(op, None, cwd).Success? ::
      LocalFilenameOut(op, None, cwd).value
  }

  /** The metadata values under `key` of the operations of `s` whose local output name is `file`. */
  ghost function FileValues(s: set<Operation>, key: string, file: string, cwd: string): set<string>
  {
    set op, v | op in s && key in op.metadata && LocalFilenameOut(op, None, cwd) == Success(file) &&
                v in op.metadata[key] :: v
  }

  /** `metadata[key][file] |= values` for every key of one operation's metadata. */
  function Merge(acc: map<string, map<string, set<string>>>, md: map<string, set<string>>,
                 file: string): (r: map<string, map<string, set<string>>>)
    ensures r.Keys == acc.Keys + md.Keys
    ensures forall k :: k in r ==>
      r[k].Keys == (if k in acc then acc[k].Keys else {}) + (if k in md then {file} else {})
    ensures forall k, f :: k in r && f in r[k] ==>
      r[k][f] == (if k in acc && f in acc[k] then acc[k][f] else {}) + (if k in md && f == file then md[k] else {})
  {
    map k | k in acc.Keys + md.Keys :: MergeKey(acc, md, file, k)
  }

  /** The files and values under one key after the merge. */
  function MergeKey(acc: map<string, map<string, set<string>>>, md: map<string, set<string>>,
                    file: string, k: string): (r: map<string, set<string>>)
    ensures r.Keys == (if k in acc then acc[k].Keys else {}) + (if k in md then {file} else {})
    ensures forall f :: f in r ==>
      r[f] == (if k in acc && f in acc[k] then acc[k][f] else {}) + (if k in md && f == file then md[k] else {})
  {
    var inner := if k in acc then acc[k] else map[];
    if k in md then inner[file := (if file in inner then inner[file] else {}) + md[k]] else inner
  }

  /** The collected metadata describes exactly the operations seen so far. */
  ghost predicate Describes(acc: map<string, map<string, set<string>>>, seen: set<Operation>, cwd: string)
  {
    (forall key :: key in acc <==> MetadataKey(seen, key)) &&
    (forall key :: key in acc ==> acc[key].Keys == FileKeys(seen, key, cwd)) &&
    (forall key, file :: key in acc && file in acc[key] ==> acc[key][file] == FileValues(seen, key, file, cwd))
  }

  lemma FileValuesAdd(seen: set<Operation>, op: Operation, key: string, f: string, file: string, cwd: string)
    requires LocalFilenameOut(op, None, cwd) == Success(file)
    ensures FileValues(seen + {op}, key, f, cwd) ==
      FileValues(seen, key, f, cwd) + (if key in op.metadata && f == file then op.metadata[key] else {})
  {
  }

  lemma FileKeysAdd(seen: set<Operation>, op: Operation, key: string, file: string, cwd: string)
    requires LocalFilenameOut(op, None, cwd) == Success(file)
    ensures FileKeys(seen + {op}, key, cwd) == FileKeys(seen, key, cwd) + (if key in op.metadata then {file} else {})
  {
    FileKeysUnion(seen, {op}, key, cwd);
    FileKeysOne(op, key, file, cwd);
  }

  lemma FileKeysUnion(a: set<Operation>, b: set<Operation>, key: string, cwd: string)
    ensures FileKeys(a + b, key, cwd) == FileKeys(a, key, cwd) + FileKeys(b, key, cwd)
  {
  }

  lemma FileKeysOne(op: Operation, key: string, file: string, cwd: string)
    requires LocalFilenameOut(op, None, cwd) == Success(file)
    ensures FileKeys({op}, key, cwd) == if key in op.metadata then {file} else {}
  {
  }

  /** Merging one named operation's metadata describes the operations seen so far and it. */
  lemma MergeDescribes(acc: map<string, map<string, set<string>>>, seen: set<Operation>,
                       op: Operation, file: string, cwd: string)
    requires Describes(acc, seen, cwd) && LocalFilenameOut(op, None, cwd) == Success(file)
    ensures Describes(Merge(acc, op.metadata, file), seen + {op}, cwd)
  {
    var r := Merge(acc, op.metadata, file);
    forall key ensures key in r <==> MetadataKey(seen + {op}, key) {
      if key in op.metadata {
        assert op in seen + {op};
      }
    }
    forall key | key in r ensures r[key].Keys == FileKeys(seen + {op}, key, cwd) {
      FileKeysAdd(seen, op, key, file, cwd);
      if key !in acc {
        assert FileKeys(seen, key, cwd) == {} by {
          forall x | x in seen ensures key !in x.metadata {
          }
        }
      }
    }
    forall key, f | key in r && f in r[key] ensures r[key][f] == FileValues(seen + {op}, key, f, cwd) {
      FileValuesAdd(seen, op, key, f, file, cwd);
      if !(key in acc && f in acc[key]) {
        assert FileValues(seen, key, f, cwd) == {} by {
          if key in acc {
            assert f !in FileKeys(seen, key, cwd);
          } else {
            forall x | x in seen ensures key !in x.metadata {
            }
          }
        }
      }
    }
  }

  /** The operations of the log, each once. */
  ghost function LoggedOps(ops: map<string, seq<Operation>>): set<Operation>
  {
    set m, op | m in ops && op in ops[m] :: op
  }

  // ------------------------------------------------------------ the log

  /** The stand-in for `LbuildBuildlogOverwritingFileException(module, file, previous)`. */
  function Overwriting(moduleName: string, filename: string, previous: string): Error
  {
    Raised(BuildError, "Module '" + moduleName + "' is overwriting file '" + filename +
                       "' already generated by module '" + previous + "'")
  }

  /** The operations of a module, `[]` when it has none. */
  function OpsOf(ops: map<string, seq<Operation>>, m: string): seq<Operation>
  {
    if m in ops then ops[m] else []
  }

  /** `_metadata[key][module] |= set(values)`, creating entries only when a value is added. */
  function AddedMetadata(md: map<string, map<string, set<string>>>, key: string, m: string,
                         values: seq<string>): map<string, map<string, set<string>>>
  {
    if |values| == 0 then md
    else
      var inner := if key in md then md[key] else map[];
      var prev := if m in inner then inner[m] else {};
      md[key := inner[m := prev + set v | v in values]]
  }

  /** Every value set recorded under a key and a module. */
  function Union(d: map<string, set<string>>): set<string>
  {
    set m, v | m in d && v in d[m] :: v
  }

  /**
   * Adding values under a key and a module adds exactly those values to
   * that key's union and leaves every other key as it was; adding none
   * changes nothing.
   */
  lemma AddedMetadataUnion(md: map<string, map<string, set<string>>>, key: string, m: string, values: seq<string>)
    ensures |values| == 0 ==> AddedMetadata(md, key, m, values) == md
    ensures forall k :: k != key ==>
      (k in AddedMetadata(md, key, m, values) <==> k in md) &&
      (k in md ==> AddedMetadata(md, key, m, values)[k] == md[k])
    ensures |values| > 0 ==> (key in AddedMetadata(md, key, m, values) &&
      Union(AddedMetadata(md, key, m, values)[key]) ==
        (if key in md then Union(md[key]) else {}) + (set v | v in values))
  {
    if |values| > 0 {
      var inner := if key in md then md[key] else map[];
      var prev := if m in inner then inner[m] else {};
      var added := set v | v in values;
      var after := inner[m := prev + added];
      assert AddedMetadata(md, key, m, values)[key] == after;
      forall v ensures v in Union(after) <==> v in Union(inner) + added {
        if v in Union(inner) {
          var m' :| m' in inner && v in inner[m'];
          assert m' in after && v in after[m'];
        }
        if v in added {
          assert v in after[m];
        }
      }
    }
  }

  /** The value sets of the modules of one repository. */
  function RepoUnion(d: map<string, set<string>>, repo: string): set<string>
  {
    set m, v | m in d && Text.FirstField(m, ':') == repo && v in d[m] :: v
  }

  /** The repositories of the modules in `d`. */
  function ReposOf<V>(d: map<string, V>): set<string>
  {
    set m | m in d :: Text.FirstField(m, ':')
  }

  /**
   * Each module's operations name that module, and each reserved output
   * file belongs to an operation of the log.
   */
  ghost predicate Consistent(ops: map<string, seq<Operation>>, files: map<string, Operation>)
  {
    (forall m :: m in ops ==> forall k :: 0 <= k < |ops[m]| ==> ops[m][k].moduleName == m) &&
    (forall f :: f in files ==> files[f] in OpsOf(ops, files[f].moduleName))
  }

  /** Appending an operation to its own module's list keeps the log consistent. */
  lemma AppendKeeps(ops: map<string, seq<Operation>>, files: map<string, Operation>, op: Operation)
    requires Consistent(ops, files)
    ensures Consistent(ops[op.moduleName := OpsOf(ops, op.moduleName) + [op]], files)
  {
    var m := op.moduleName;
    var ops2 := ops[m := OpsOf(ops, m) + [op]];
    forall f | f in files ensures files[f] in OpsOf(ops2, files[f].moduleName) {
      if files[f].moduleName == m {
        assert files[f] in OpsOf(ops, m);
      }
    }
  }

  /** Reserving a file for a logged operation keeps the log consistent. */
  lemma ReserveKeeps(ops: map<string, seq<Operation>>, files: map<string, Operation>, f: string, op: Operation)
    requires Consistent(ops, files) && op in OpsOf(ops, op.moduleName)
    ensures Consistent(ops, files[f := op])
  {
  }

  class BuildLog {
    /** The absolute output directory. */
    const outpath: string
    /** The working directory relative paths are resolved against. */
    const cwd: string
    /** `_operations`: the operations of each module, in the order they were logged. */
    var operations: map<string, seq<Operation>>
    /** `_build_files`: the output file names reserved by `log`. */
    var buildFiles: map<string, Operation>
    /** `_metadata`: for each key and module, the values added. */
    var metadata: map<string, map<string, set<string>>>

    /**
     * Each module's operations name that module, and each reserved output
     * file belongs to an operation of the log.
     */
    ghost predicate Valid()
      reads this
    {
      Consistent(operations, buildFiles)
    }

    /** `BuildLog(outpath)`: the working directory when no output path is given. */
    constructor(outpath: Option<string>, cwd: string)
      ensures Valid()
      ensures this.outpath == (if outpath.None? then cwd else Paths.AbsPath(outpath.value, cwd))
      ensures this.cwd == cwd
      ensures operations == map[] && buildFiles == map[] && metadata == map[]
    {
      this.outpath := if outpath.None? then cwd else Paths.AbsPath(outpath.value, cwd);
      this.cwd := cwd;
      operations := map[];
      buildFiles := map[];
      metadata := map[];
    }

    /**
     * `log(module, filename_in, filename_out, metadata)`: a relative input is
     * taken inside the module's directory and a relative output inside the
     * output directory; an output file already reserved is refused and
     * nothing changes, otherwise it is reserved and the operation appended.
     */
    method Log(moduleName: string, modulePath: string, filenameIn: string, filenameOut: string,
               md: map<string, seq<string>>) returns (r: Result<Operation>)
      requires Valid()
      modifies this
      ensures Valid()
      ensures var fin := Resolved(modulePath, filenameIn);
        var fout := Resolved(outpath, filenameOut);
        var op := NewOperation(moduleName, outpath, modulePath, fin, fout, md, cwd);
        (fout in old(buildFiles) ==>
          r == Failure(Overwriting(moduleName, fout, old(buildFiles)[fout].moduleName)) &&
          operations == old(operations) && buildFiles == old(buildFiles)) &&
        (fout !in old(buildFiles) ==>
          r == Success(op) && buildFiles == old(buildFiles)[fout := op] &&
          operations == old(operations)[moduleName := OpsOf(old(operations), moduleName) + [op]])
      ensures metadata == old(metadata)
    {
      var fin := Resolved(modulePath, filenameIn);
      var fout := Resolved(outpath, filenameOut);
      var op := NewOperation(moduleName, outpath, modulePath, fin, fout, md, cwd);
      if fout in buildFiles {
        return Failure(Overwriting(moduleName, fout, buildFiles[fout].moduleName));
      }
      AppendKeeps(operations, buildFiles, op);
      var ops := operations[moduleName := OpsOf(operations, moduleName) + [op]];
      assert op in OpsOf(ops, op.moduleName) by {
        assert OpsOf(ops, moduleName) == OpsOf(operations, moduleName) + [op];
      }
      ReserveKeeps(ops, buildFiles, fout, op);
      operations := ops;
      buildFiles := buildFiles[fout := op];
      r := Success(op);
    }

    /**
     * `log_unsafe(modulename, filename_in, filename_out, metadata)`: the
     * operation is anchored at the output directory, appended without the
     * overwrite check and without reserving its output file.
     */
    method LogUnsafe(moduleName: string, filenameIn: string, filenameOut: string,
                     md: map<string, seq<string>>)
      requires Valid()
      modifies this
      ensures Valid()
      ensures operations == old(operations)[moduleName :=
        OpsOf(old(operations), moduleName) + [NewOperation(moduleName, outpath, outpath, filenameIn, filenameOut, md, cwd)]]
      ensures buildFiles == old(buildFiles) && metadata == old(metadata)
    {
      var op := NewOperation(moduleName, outpath, outpath, filenameIn, filenameOut, md, cwd);
      AppendKeeps(operations, buildFiles, op);
      operations := operations[moduleName := OpsOf(operations, moduleName) + [op]];
    }

    /** `add_metadata(module, key, values)`. */
    method AddMetadata(moduleName: string, key: string, values: seq<string>)
      modifies this
      ensures metadata == AddedMetadata(old(metadata), key, moduleName, values)
      ensures operations == old(operations) && buildFiles == old(buildFiles)
    {
      metadata := AddedMetadata(metadata, key, moduleName, values);
    }

    /** `modules`: the names of the modules that logged operations, sorted. */
    method Modules() returns (r: seq<string>)
      ensures Sorting.StrictlySorted(r)
      ensures forall m :: m in r <==> m in operations
    {
      r := Sorting.SortSet(operations.Keys);
    }

    /** `repositories`: the first segments of the module names, each once. */
    method Repositories() returns (r: seq<string>)
      ensures Sorting.NoDuplicates(r)
      ensures forall x :: x in r <==> exists m :: m in operations && Text.FirstField(m, ':') == x
    {
      var mods := Modules();
      r := [];
      for i := 0 to |mods|
        invariant Sorting.NoDuplicates(r)
        invariant forall x :: x in r <==> exists k :: 0 <= k < i && Text.FirstField(mods[k], ':') == x
      {
        var repo := Text.FirstField(mods[i], ':');
        if repo !in r {
          r := r + [repo];
        }
      }
      forall x | x in r ensures exists m :: m in operations && Text.FirstField(m, ':') == x {
        var k :| 0 <= k < |mods| && Text.FirstField(mods[k], ':') == x;
        assert mods[k] in operations;
      }
      forall x | exists m :: m in operations && Text.FirstField(m, ':') == x ensures x in r {
        var m :| m in operations && Text.FirstField(m, ':') == x;
        assert m in mods;
        var k :| 0 <= k < |mods| && mods[k] == m;
      }
    }

    /**
     * `operations_per_module(modulename)`: the operations of every module whose
     * name starts with `prefix` (its submodules included), sorted by
     * (module, input, output); each such operation appears as often as it was logged.
     */
    method OperationsPerModule(prefix: string) returns (r: seq<Operation>)
      requires Valid()
      ensures Sorting.SortedBy(r, OpKey)
      ensures forall op :: (multiset(r)[op] ==
        if Text.StartsWith(op.moduleName, prefix) then multiset(OpsOf(operations, op.moduleName))[op] else 0)
    {
      var mods := Modules();
      var all: seq<Operation> := [];
      for i := 0 to |mods|
        invariant forall op :: (multiset(all)[op] ==
          if op.moduleName in mods[..i] && Text.StartsWith(op.moduleName, prefix)
          then multiset(OpsOf(operations, op.moduleName))[op] else 0)
      {
        var name := mods[i];
        assert forall k :: 0 <= k < i ==> mods[k] != name by {
          forall k | 0 <= k < i ensures mods[k] != name {
            Text.LexIrreflexive(name);
          }
        }
        if Text.StartsWith(name, prefix) {
          ModuleCount(all, name, mods[..i], prefix, operations);
          all := all + operations[name];
        }
        assert mods[..i + 1] == mods[..i] + [name];
      }
      assert mods[..|mods|] == mods;
      forall op: Operation | op.moduleName !in mods ensures multiset(OpsOf(operations, op.moduleName))[op] == 0 {
      }
      r := Sorting.Sort(all, OpKey);
      Sorting.SortSorted(all, OpKey);
    }

    /** `operations`: every logged operation, sorted by (module, input, output). */
    method AllOperations() returns (r: seq<Operation>)
      requires Valid()
      ensures Sorting.SortedBy(r, OpKey)
      ensures forall op :: multiset(r)[op] == multiset(OpsOf(operations, op.moduleName))[op]
    {
      r := OperationsPerModule("");
      assert forall op: Operation :: Text.StartsWith(op.moduleName, "");
    }

    /**
     * `operation_metadata`: for each key and each operation's local output
     * name, the values the operations writing that file carry, sorted; an
     * operation without a local output name raises.
     */
    method OperationMetadata() returns (r: Result<map<string, map<string, seq<string>>>>)
      requires Valid()
      ensures r.Failure? <==> Unnamed(LoggedOps(operations), cwd)
      ensures r.Success? ==> forall key :: key in r.value <==> MetadataKey(LoggedOps(operations), key)
      ensures r.Success? ==> forall key :: key in r.value ==> r.value[key].Keys == FileKeys(LoggedOps(operations), key, cwd)
      ensures r.Success? ==> forall key, file :: key in r.value && file in r.value[key] ==>
        Sorting.StrictlySorted(r.value[key][file]) &&
        forall v :: v in r.value[key][file] <==> v in FileValues(LoggedOps(operations), key, file, cwd)
    {
      var all := AllOperations();
      LoggedAll(operations, all);
      assert Elems(all) == LoggedOps(operations);
      var acc := CollectMetadata(all, cwd);
      if acc.Failure? {
        return Failure(acc.error);
      }
      var sorted := SortNested(acc.value);
      r := Success(sorted);
    }

    /** `metadata`: for each key, every value added under it by any module, sorted. */
    method MetadataView() returns (r: map<string, seq<string>>)
      ensures forall k :: k in r <==> k in metadata && metadata[k] != map[]
      ensures forall k :: k in r ==>
        Sorting.StrictlySorted(r[k]) && forall v :: v in r[k] <==> v in Union(metadata[k])
    {
      r := map[];
      var keys := metadata.Keys;
      while keys != {}
        invariant keys <= metadata.Keys
        invariant forall k :: k in r <==> k in metadata && k !in keys && metadata[k] != map[]
        invariant forall k :: k in r ==>
          Sorting.StrictlySorted(r[k]) && forall v :: v in r[k] <==> v in Union(metadata[k])
        decreases |keys|
      {
        var k :| k in keys;
        keys := keys - {k};
        if metadata[k] != map[] {
          var values := Sorting.SortSet(Union(metadata[k]));
          r := r[k := values];
        }
      }
    }

    /** `module_metadata`: for each key and module, the values that module added, sorted. */
    method ModuleMetadata() returns (r: map<string, map<string, seq<string>>>)
      ensures r.Keys == metadata.Keys
      ensures forall k :: k in r ==> r[k].Keys == metadata[k].Keys
      ensures forall k, m :: k in r && m in r[k] ==>
        Sorting.StrictlySorted(r[k][m]) && forall v :: v in r[k][m] <==> v in metadata[k][m]
    {
      r := SortNested(metadata);
    }

    /** `repo_metadata`: for each key and repository, the values its modules added, sorted. */
    method RepoMetadata() returns (r: map<string, map<string, seq<string>>>)
      ensures forall k :: k in r <==> k in metadata && metadata[k] != map[]
      ensures forall k :: k in r ==> r[k].Keys == ReposOf(metadata[k])
      ensures forall k, repo :: k in r && repo in r[k] ==>
        Sorting.StrictlySorted(r[k][repo]) && forall v :: v in r[k][repo] <==> v in RepoUnion(metadata[k], repo)
    {
      r := map[];
      var keys := metadata.Keys;
      while keys != {}
        invariant keys <= metadata.Keys
        invariant forall k :: k in r <==> k in metadata && k !in keys && metadata[k] != map[]
        invariant forall k :: k in r ==> r[k].Keys == ReposOf(metadata[k])
        invariant forall k, repo :: k in r && repo in r[k] ==>
          Sorting.StrictlySorted(r[k][repo]) && forall v :: v in r[k][repo] <==> v in RepoUnion(metadata[k], repo)
        decreases |keys|
      {
        var k :| k in keys;
        keys := keys - {k};
        if metadata[k] != map[] {
          var inner := SortRepos(metadata[k]);
          r := r[k := inner];
        }
      }
    }
  }

  /** Adding a module's operations counts exactly the operations that name it. */
  lemma ModuleCount(all: seq<Operation>, name: string, seen: seq<string>,
                    prefix: string, ops: map<string, seq<Operation>>)
    requires name in ops && name !in seen && Text.StartsWith(name, prefix)
    requires forall k :: 0 <= k < |ops[name]| ==> ops[name][k].moduleName == name
    requires forall op :: (multiset(all)[op] ==
      if op.moduleName in seen && Text.StartsWith(op.moduleName, prefix)
      then multiset(OpsOf(ops, op.moduleName))[op] else 0)
    ensures forall op :: (multiset(all + ops[name])[op] ==
      if op.moduleName in seen + [name] && Text.StartsWith(op.moduleName, prefix)
      then multiset(OpsOf(ops, op.moduleName))[op] else 0)
  {
    var more := ops[name];
    forall op ensures (multiset(all + more)[op] ==
      if op.moduleName in seen + [name] && Text.StartsWith(op.moduleName, prefix)
      then multiset(OpsOf(ops, op.moduleName))[op] else 0)
    {
      if op.moduleName != name {
        assert op !in more;
        assert multiset(more)[op] == 0;
      }
    }
  }

  /** A list holding each logged operation as often as it was logged holds exactly the logged operations. */
  lemma LoggedAll(ops: map<string, seq<Operation>>, all: seq<Operation>)
    requires Consistent(ops, map[])
    requires forall op :: multiset(all)[op] == multiset(OpsOf(ops, op.moduleName))[op]
    ensures forall op :: op in all <==> op in LoggedOps(ops)
  {
    forall op ensures op in all <==> op in LoggedOps(ops) {
      assert op in all <==> op in multiset(all);
      assert op in OpsOf(ops, op.moduleName) <==> op in multiset(OpsOf(ops, op.moduleName));
      if op in LoggedOps(ops) {
        var m :| m in ops && op in ops[m];
        var k :| 0 <= k < |ops[m]| && ops[m][k] == op;
      }
    }
  }

  /** The loop of `operation_metadata`: each operation's metadata merged under its local output name. */
  method CollectMetadata(all: seq<Operation>, cwd: string) returns (r: Result<map<string, map<string, set<string>>>>)
    ensures r.Failure? <==> Unnamed(Elems(all), cwd)
    ensures r.Success? ==> Describes(r.value, Elems(all), cwd)
  {
    var acc: map<string, map<string, set<string>>> := map[];
    ghost var seen: set<Operation> := {};
    for i := 0 to |all|
      invariant seen == Elems(all[..i])
      invariant !Unnamed(seen, cwd)
      invariant Describes(acc, seen, cwd)
    {
      var op := all[i];
      ElemsStep(all, i);
      if op.metadata == map[] {
        SkipDescribes(acc, seen, op, cwd);
      } else {
        var file := LocalFilenameOut(op, None, cwd);
        if file.Failure? {
          UnnamedFound(all, i, cwd);
          return Failure(file.error);
        }
        MergeDescribes(acc, seen, op, file.value, cwd);
        NamedStep(seen, op, cwd);
        acc := Merge(acc, op.metadata, file.value);
      }
      seen := seen + {op};
    }
    assert all[..|all|] == all;
    r := Success(acc);
  }

  /** The operations of a list, as a set. */
  ghost function Elems(ops: seq<Operation>): set<Operation>
  {
    set op | op in ops
  }

  lemma ElemsStep(all: seq<Operation>, i: nat)
    requires i < |all|
    ensures Elems(all[..i + 1]) == Elems(all[..i]) + {all[i]}
  {
    assert all[..i + 1] == all[..i] + [all[i]];
  }

  lemma UnnamedFound(all: seq<Operation>, i: nat, cwd: string)
    requires i < |all| && all[i].metadata != map[] && LocalFilenameOut(all[i], None, cwd).Failure?
    ensures Unnamed(Elems(all), cwd)
  {
    assert all[i] in Elems(all);
  }

  /** An operation without metadata adds nothing: its output name is never asked for. */
  lemma SkipDescribes(acc: map<string, map<string, set<string>>>, seen: set<Operation>, op: Operation, cwd: string)
    requires Describes(acc, seen, cwd) && !Unnamed(seen, cwd) && op.metadata == map[]
    ensures Describes(acc, seen + {op}, cwd) && !Unnamed(seen + {op}, cwd)
  {
    forall key ensures FileKeys(seen + {op}, key, cwd) == FileKeys(seen, key, cwd) {
      SkipKeys(seen, op, key, cwd);
    }
    forall key, file ensures FileValues(seen + {op}, key, file, cwd) == FileValues(seen, key, file, cwd) {
      SkipValues(seen, op, key, file, cwd);
    }
    forall key ensures MetadataKey(seen + {op}, key) == MetadataKey(seen, key) {
      assert key !in op.metadata;
    }
  }

  lemma SkipKeys(seen: set<Operation>, op: Operation, key: string, cwd: string)
    requires op.metadata == map[]
    ensures FileKeys(seen + {op}, key, cwd) == FileKeys(seen, key, cwd)
  {
    FileKeysUnion(seen, {op}, key, cwd);
    assert FileKeys({op}, key, cwd) == {} by {
      assert key !in op.metadata;
    }
  }

  lemma SkipValues(seen: set<Operation>, op: Operation, key: string, file: string, cwd: string)
    requires op.metadata == map[]
    ensures FileValues(seen + {op}, key, file, cwd) == FileValues(seen, key, file, cwd)
  {
    assert key !in op.metadata;
  }

  lemma NamedStep(seen: set<Operation>, op: Operation, cwd: string)
    requires !Unnamed(seen, cwd) && LocalFilenameOut(op, None, cwd).Success?
    ensures !Unnamed(seen + {op}, cwd)
  {
  }

  /** Every value set of every key sorted. */
  method SortNested(acc: map<string, map<string, set<string>>>) returns (r: map<string, map<string, seq<string>>>)
    ensures r.Keys == acc.Keys
    ensures forall k :: k in r ==> r[k].Keys == acc[k].Keys
    ensures forall k, f :: k in r && f in r[k] ==>
      Sorting.StrictlySorted(r[k][f]) && forall v :: v in r[k][f] <==> v in acc[k][f]
  {
    r := map[];
    var keys := acc.Keys;
    while keys != {}
      invariant keys <= acc.Keys && r.Keys == acc.Keys - keys
      invariant forall k :: k in r ==> r[k].Keys == acc[k].Keys
      invariant forall k, f :: k in r && f in r[k] ==>
        Sorting.StrictlySorted(r[k][f]) && forall v :: v in r[k][f] <==> v in acc[k][f]
      decreases |keys|
    {
      var k :| k in keys;
      keys := keys - {k};
      var inner := SortEach(acc[k]);
      r := r[k := inner];
    }
  }

  /** Each value set sorted. */
  method SortEach(d: map<string, set<string>>) returns (r: map<string, seq<string>>)
    ensures r.Keys == d.Keys
    ensures forall m :: m in r ==> Sorting.StrictlySorted(r[m]) && forall v :: v in r[m] <==> v in d[m]
  {
    r := map[];
    var names := d.Keys;
    while names != {}
      invariant names <= d.Keys && r.Keys == d.Keys - names
      invariant forall m :: m in r ==> Sorting.StrictlySorted(r[m]) && forall v :: v in r[m] <==> v in d[m]
      decreases |names|
    {
      var m :| m in names;
      names := names - {m};
      var values := Sorting.SortSet(d[m]);
      r := r[m := values];
    }
  }

  /** The value sets merged per repository, each sorted. */
  method SortRepos(d: map<string, set<string>>) returns (r: map<string, seq<string>>)
    ensures r.Keys == ReposOf(d)
    ensures forall repo :: repo in r ==>
      Sorting.StrictlySorted(r[repo]) && forall v :: v in r[repo] <==> v in RepoUnion(d, repo)
  {
    r := map[];
    var repos := ReposOf(d);
    while repos != {}
      invariant repos <= ReposOf(d) && r.Keys == ReposOf(d) - repos
      invariant forall repo :: repo in r ==>
        Sorting.StrictlySorted(r[repo]) && forall v :: v in r[repo] <==> v in RepoUnion(d, repo)
      decreases |repos|
    {
      var repo :| repo in repos;
      repos := repos - {repo};
      var values := Sorting.SortSet(RepoUnion(d, repo));
      r := r[repo := values];
    }
  }
}
