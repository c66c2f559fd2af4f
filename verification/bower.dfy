/** The bower helper object: the shared, insertion-ordered `packages` map and
    the `exclude` list, with `addPackage`, `getDependencies` and
    `getMainFiles` proved against the functions of `Resolution` and
    `Extraction`. */
module Bower {
  import opened Text
  import opened Resolution
  import opened Extraction

  /** The shared `packages` object: its keys in insertion order and the
      `{path, bower}` entry under each. */
  class PackageTable {
    var keys: seq<string>
    var entries: map<string, Entry>

    function Value(): Table
      reads this
    {
      Table(keys, entries)
    }

    ghost predicate Valid()
      reads this
    {
      WellFormed(Value())
    }

    constructor ()
      ensures Value() == EmptyTable && Valid()
    {
      keys := [];
      entries := map[];
    }

    /** The guarded insertion at the end of `addPackage`, with a plain
        membership test in place of the array lookup (see
        `Resolution.ArrayMemberNameDropped`). */
    method InsertIfAbsent(name: string, e: Entry)
      requires Valid()
      modifies this
      ensures Valid()
      ensures Value() == Insert(old(Value()), name, e)
    {
      if name !in entries {
        keys := keys + [name];
        entries := entries[name := e];
      }
    }
  }

  /** `dir` defaults to `.`. */
  function DirOf(dir: Option<string>): (r: string)
    ensures dir.Some? ==> r == dir.value
    ensures dir.None? ==> r == "."
  {
    dir.GetOr(".")
  }

  /** `bowerDir` defaults to `dir/bower_components`. */
  function BowerDirOf(dir: Option<string>, bowerDir: Option<string>): (r: string)
    ensures bowerDir.Some? ==> r == bowerDir.value
    ensures bowerDir.None? ==> r == DirOf(dir) + "/bower_components"
  {
    bowerDir.GetOr(DirOf(dir) + "/bower_components")
  }

  /** The root manifest `getDependencies` requires. */
  function RootManifestPath(dir: Option<string>): string {
    DirOf(dir) + "/bower.json"
  }

  class Resolver {
    const packages: PackageTable
    var exclude: seq<string>

    constructor ()
      ensures fresh(packages) && packages.Value() == EmptyTable && packages.Valid() && exclude == []
    {
      packages := new PackageTable();
      exclude := [];
    }

    function EnvOf(disk: map<string, Manifest>, bowerDir: string): Env
      reads this
    {
      Env(disk, bowerDir, exclude)
    }

    /** `addPackage(name, bowerDir)`. */
    method AddPackage(name: string, bowerDir: string, disk: map<string, Manifest>, ghost rank: string -> nat)
      requires packages.Valid()
      requires Acyclic(EnvOf(disk, bowerDir), rank)
      modifies packages
      ensures packages.Valid()
      ensures packages.Value() == Visit(EnvOf(disk, bowerDir), rank, old(packages.Value()), name)
      decreases Height(EnvOf(disk, bowerDir), rank, name)
    {
      ghost var env := EnvOf(disk, bowerDir);
      if name in exclude {
        return;
      }
      var bowerFile := Load(disk, bowerDir + "/" + name + "/bower.json");
      if bowerFile.Some? {
        var deps := bowerFile.value.dependencies;
        assert deps == Children(env, name);
        var i := 0;
        while i < |deps|
          invariant 0 <= i <= |deps|
          invariant packages.Valid()
          invariant packages.Value() == VisitAll(env, rank, old(packages.Value()), deps[..i])
        {
          assert deps[i] in Children(env, name);
          AddPackage(deps[i], bowerDir, disk, rank);
          assert deps[..i + 1][..i] == deps[..i];
          i := i + 1;
        }
        assert deps[..|deps|] == deps;
      }
      packages.InsertIfAbsent(name, Entry(bowerDir + "/" + name, bowerFile));
    }

    /** `getDependencies(dir, bowerDir)`: `None` stands for the exception
        thrown when the root manifest cannot be loaded. */
    method GetDependencies(dir: Option<string>, bowerDir: Option<string>, disk: map<string, Manifest>, ghost rank: string -> nat)
      returns (r: Option<PackageTable>)
      requires packages.Valid()
      requires Acyclic(EnvOf(disk, BowerDirOf(dir, bowerDir)), rank)
      modifies packages
      ensures packages.Valid()
      ensures RootManifestPath(dir) !in disk ==> r == None && packages.Value() == old(packages.Value())
      ensures RootManifestPath(dir) in disk ==>
                && r == Some(packages)
                && packages.Value() == VisitAll(EnvOf(disk, BowerDirOf(dir, bowerDir)), rank, old(packages.Value()),
                                                disk[RootManifestPath(dir)].dependencies)
    {
      var d := if dir.None? then "." else dir.value;
      var bd := if bowerDir.None? then d + "/bower_components" else bowerDir.value;
      assert bd == BowerDirOf(dir, bowerDir) && d + "/bower.json" == RootManifestPath(dir);
      var bowerFile := Load(disk, d + "/bower.json");
      if bowerFile.None? {
        return None;
      }
      AddAll(bowerFile.value.dependencies, bd, disk, rank);
      r := Some(packages);
    }

    /** The loop of `getDependencies` over the root manifest's dependencies. */
    method AddAll(deps: seq<string>, bowerDir: string, disk: map<string, Manifest>, ghost rank: string -> nat)
      requires packages.Valid()
      requires Acyclic(EnvOf(disk, bowerDir), rank)
      modifies packages
      ensures packages.Valid()
      ensures packages.Value() == VisitAll(EnvOf(disk, bowerDir), rank, old(packages.Value()), deps)
    {
      var i := 0;
      while i < |deps|
        invariant 0 <= i <= |deps|
        invariant packages.Valid()
        invariant packages.Value() == VisitAll(EnvOf(disk, bowerDir), rank, old(packages.Value()), deps[..i])
      {
        AddPackage(deps[i], bowerDir, disk, rank);
        assert deps[..i + 1][..i] == deps[..i];
        i := i + 1;
      }
      assert deps[..|deps|] == deps;
    }

    /** `getMainFiles(dir, bowerDir)`; `onDisk` answers `fs.existsSync`. */
    method GetMainFiles(dir: Option<string>, bowerDir: Option<string>, disk: map<string, Manifest>, onDisk: set<string>,
                        ghost rank: string -> nat)
      returns (r: Option<Files>)
      requires packages.Valid()
      requires Acyclic(EnvOf(disk, BowerDirOf(dir, bowerDir)), rank)
      modifies packages
      ensures packages.Valid()
      ensures RootManifestPath(dir) !in disk ==> r == None && packages.Value() == old(packages.Value())
      ensures RootManifestPath(dir) in disk ==>
                && packages.Value() == VisitAll(EnvOf(disk, BowerDirOf(dir, bowerDir)), rank, old(packages.Value()),
                                                disk[RootManifestPath(dir)].dependencies)
                && r == Some(MainFiles(packages.Value(), onDisk))
    {
      var dependencies := GetDependencies(dir, bowerDir, disk, rank);
      if dependencies.None? {
        return None;
      }
      var files := CollectMainFiles(dependencies.value.keys, dependencies.value.entries, onDisk);
      r := Some(files);
    }
  }

  /** The `mapObject` callback of `getMainFiles` for one package: the paths
      its main entries yield, scripts and styles apart. */
  method PackageMainFiles(packageData: Entry, onDisk: set<string>) returns (js: seq<string>, css: seq<string>)
    ensures js == PackageOf(packageData, ".js", ".min.js", onDisk)
    ensures css == PackageOf(packageData, ".css", ".min.css", onDisk)
  {
    js, css := [], [];
    if packageData.bower.None? || packageData.bower.value.main.NoMain? {
      return;
    }
    var path := packageData.path;
    var files := MainList(packageData.bower.value.main);
    var j := 0;
    while j < |files|
      invariant 0 <= j <= |files|
      invariant js == FilesOf(path, files[..j], ".js", ".min.js", onDisk)
      invariant css == FilesOf(path, files[..j], ".css", ".min.css", onDisk)
    {
      var mainFile := files[j];
      var jsFile := MainFileOf(path, mainFile, ".js", ".min.js", onDisk);
      var cssFile := MainFileOf(path, mainFile, ".css", ".min.css", onDisk);
      js := js + jsFile;
      css := css + cssFile;
      FilesOfSnoc(path, files, j, ".js", ".min.js", onDisk);
      FilesOfSnoc(path, files, j, ".css", ".min.css", onDisk);
      j := j + 1;
    }
    assert files[..|files|] == files;
  }

  /** One main entry of the `each` callback of `getMainFiles`, for the
      extension `ext` (`.js` or `.css`): the path of its minified sibling
      when that file exists, else its own path; nothing when the entry does
      not end with `ext`. */
  method MainFileOf(path: string, mainFile: string, ext: string, minExt: string, onDisk: set<string>)
    returns (r: seq<string>)
    ensures r == FileOf(path, mainFile, ext, minExt, onDisk)
  {
    r := [];
    if EndsWith(mainFile, ext) {
      var minFile := ReplaceFirst(mainFile, ext, minExt);
      if path + "/" + minFile in onDisk {
        r := [path + "/" + minFile];
      } else {
        r := [path + "/" + mainFile];
      }
    }
  }

  /** The `mapObject` walk of `getMainFiles` over the packages in order. */
  method CollectMainFiles(keys: seq<string>, entries: map<string, Entry>, onDisk: set<string>) returns (files: Files)
    requires WellFormed(Table(keys, entries))
    ensures files == MainFiles(Table(keys, entries), onDisk)
  {
    var js, css := [], [];
    var i := 0;
    while i < |keys|
      invariant 0 <= i <= |keys|
      invariant js == Collect(keys[..i], entries, ".js", ".min.js", onDisk)
      invariant css == Collect(keys[..i], entries, ".css", ".min.css", onDisk)
    {
      var packageJs, packageCss := PackageMainFiles(entries[keys[i]], onDisk);
      js := js + packageJs;
      css := css + packageCss;
      CollectStep(keys, i, entries, ".js", ".min.js", onDisk);
      CollectStep(keys, i, entries, ".css", ".min.css", onDisk);
      i := i + 1;
    }
    assert keys[..|keys|] == keys;
    files := Files(js, css);
  }
}
