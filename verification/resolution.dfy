/** The bower dependency resolver as a specification on values.

    A run of `addPackage` is the function `Visit` on a `Table`, the value of the
    shared, insertion-ordered `packages` map; `getDependencies` is `VisitAll`
    over the root manifest's dependencies.  The manifests readable on disk are
    a map from the path handed to `require` to the manifest it yields; a path
    that is absent stands for a manifest that fails to load.

    The source has no cycle guard (the presence test runs after the
    recursion), so every member here takes an acyclic manifest graph: a rank
    under which every non-excluded dependency of a non-excluded package whose
    manifest loads ranks lower than the package. */
module Resolution {
  import opened Text

  /** The `main` field of a bower.json: absent, one path, or an array of paths. */
  datatype Main = NoMain | OneFile(file: string) | FileList(files: seq<string>)

  /** A loaded bower.json: the keys of its `dependencies` object in declaration
      order (an absent object is the empty sequence) and its `main` field. */
  datatype Manifest = Manifest(dependencies: seq<string>, main: Main)

  /** `{path, bower}`: `bower` is `None` when the manifest failed to load. */
  datatype Entry = Entry(path: string, bower: Option<Manifest>)

  /** The insertion-ordered `packages` map: its keys in insertion order and
      the entry recorded under each. */
  datatype Table = Table(keys: seq<string>, entries: map<string, Entry>)

  /** What a resolution run reads: the manifests on disk, `bowerDir` and the
      `exclude` list. */
  datatype Env = Env(disk: map<string, Manifest>, bowerDir: string, exclude: seq<string>)

  const EmptyTable := Table([], map[])

  /** Keys are distinct and are exactly the names that have an entry. */
  ghost predicate WellFormed(t: Table) {
    && (forall i, j :: 0 <= i < j < |t.keys| ==> t.keys[i] != t.keys[j])
    && (forall k :: k in t.entries <==> k in t.keys)
  }

  /** `r` is `t` with entries appended: old keys keep their positions and old
      entries their values. */
  ghost predicate Extends(t: Table, r: Table) {
    && |t.keys| <= |r.keys|
    && r.keys[..|t.keys|] == t.keys
    && (forall k :: k in t.entries ==> k in r.entries && r.entries[k] == t.entries[k])
  }

  lemma ExtendsTransitive(a: Table, b: Table, c: Table)
    requires Extends(a, b) && Extends(b, c)
    ensures Extends(a, c)
  {
    assert c.keys[..|a.keys|] == c.keys[..|b.keys|][..|a.keys|];
  }

  function PackagePath(bowerDir: string, name: string): string {
    bowerDir + "/" + name
  }

  function ManifestPath(bowerDir: string, name: string): string {
    PackagePath(bowerDir, name) + "/bower.json"
  }

  /** `require(path)`: the manifest at `path`, or `None` when loading throws. */
  function Load(disk: map<string, Manifest>, path: string): (r: Option<Manifest>)
    ensures r.Some? <==> path in disk
    ensures r.Some? ==> r.value == disk[path]
  {
    if path in disk then Some(disk[path]) else None
  }

  function LoadPackage(env: Env, name: string): Option<Manifest> {
    Load(env.disk, ManifestPath(env.bowerDir, name))
  }

  /** The dependencies `addPackage` recurses into: none when the manifest
      failed to load. */
  function Children(env: Env, name: string): (r: seq<string>)
    ensures ManifestPath(env.bowerDir, name) !in env.disk ==> r == []
    ensures ManifestPath(env.bowerDir, name) in env.disk ==> r == env.disk[ManifestPath(env.bowerDir, name)].dependencies
  {
    match LoadPackage(env, name)
    case None => []
    case Some(m) => m.dependencies
  }

  /** The entry `addPackage` records for `name`. */
  function EntryFor(env: Env, name: string): (r: Entry)
    ensures r.path == env.bowerDir + "/" + name
    ensures r.bower.Some? <==> ManifestPath(env.bowerDir, name) in env.disk
    ensures r.bower.Some? ==> r.bower.value == env.disk[ManifestPath(env.bowerDir, name)]
  {
    Entry(PackagePath(env.bowerDir, name), LoadPackage(env, name))
  }

  /** Insert `name -> e` unless `name` already has an entry. */
  function Insert(t: Table, name: string, e: Entry): (r: Table)
    ensures r.entries.Keys == t.entries.Keys + {name}
    ensures r.entries[name] == if name in t.entries then t.entries[name] else e
    ensures forall k :: k in t.entries ==> r.entries[k] == t.entries[k]
  {
    if name in t.entries then t else Table(t.keys + [name], t.entries[name := e])
  }

  ghost predicate Acyclic(env: Env, rank: string -> nat) {
    forall name, d :: name !in env.exclude && d in Children(env, name) && d !in env.exclude ==> rank(d) < rank(name)
  }

  /** Termination measure of one visit: excluded names return at once. */
  ghost function Height(env: Env, rank: string -> nat, name: string): nat {
    if name in env.exclude then 0 else rank(name) + 1
  }

  /** The largest `Height` among `names`, or 0. */
  ghost function Bound(env: Env, rank: string -> nat, names: seq<string>): (r: nat)
    ensures forall n :: n in names ==> Height(env, rank, n) <= r
    ensures r == 0 || exists n :: n in names && Height(env, rank, n) == r
  {
    if names == [] then 0
    else
      var b := Bound(env, rank, names[..|names| - 1]);
      var h := Height(env, rank, names[|names| - 1]);
      assert names == names[..|names| - 1] + [names[|names| - 1]];
      if b < h then h else b
  }

  /** `addPackage(name)` on the table `t`: nothing for an excluded name;
      otherwise visit the dependencies of its manifest (none if it failed to
      load) in declaration order, then record `name` if it is still absent. */
  ghost function Visit(env: Env, rank: string -> nat, t: Table, name: string): (r: Table)
    requires Acyclic(env, rank)
    ensures Extends(t, r)
    ensures WellFormed(t) ==> WellFormed(r)
    decreases Height(env, rank, name), 0
  {
    if name in env.exclude then t
    else
      var t1 := VisitAll(env, rank, t, Children(env, name));
      var r := Insert(t1, name, EntryFor(env, name));
      ExtendsTransitive(t, t1, r);
      r
  }

  /** `addPackage` over `names`, first to last. */
  ghost function VisitAll(env: Env, rank: string -> nat, t: Table, names: seq<string>): (r: Table)
    requires Acyclic(env, rank)
    ensures Extends(t, r)
    ensures WellFormed(t) ==> WellFormed(r)
    decreases Bound(env, rank, names), 1, |names|
  {
    if names == [] then t
    else
      var t1 := VisitAll(env, rank, t, names[..|names| - 1]);
      var r := Visit(env, rank, t1, names[|names| - 1]);
      ExtendsTransitive(t, t1, r);
      r
  }

  /** The packages reachable from `name` along dependencies of loaded
      manifests without passing through an excluded name. */
  ghost function Reach(env: Env, rank: string -> nat, name: string): (r: set<string>)
    requires Acyclic(env, rank)
    ensures forall x :: x in r ==> x !in env.exclude
    ensures name !in env.exclude ==> name in r
    decreases Height(env, rank, name), 0
  {
    if name in env.exclude then {}
    else {name} + ReachAll(env, rank, Children(env, name))
  }

  ghost function ReachAll(env: Env, rank: string -> nat, names: seq<string>): (r: set<string>)
    requires Acyclic(env, rank)
    ensures forall x :: x in r ==> x !in env.exclude
    ensures forall n :: n in names && n !in env.exclude ==> n in r
    decreases Bound(env, rank, names), 1, |names|
  {
    if names == [] then {}
    else
      assert names == names[..|names| - 1] + [names[|names| - 1]];
      ReachAll(env, rank, names[..|names| - 1]) + Reach(env, rank, names[|names| - 1])
  }

  /** Closure: a visit records exactly the packages reachable from `name`. */
  lemma {:induction false} VisitKeys(env: Env, rank: string -> nat, t: Table, name: string)
    requires Acyclic(env, rank)
    ensures Visit(env, rank, t, name).entries.Keys == t.entries.Keys + Reach(env, rank, name)
    decreases Height(env, rank, name), 0
  {
    if name !in env.exclude {
      VisitAllKeys(env, rank, t, Children(env, name));
    }
  }

  lemma {:induction false} VisitAllKeys(env: Env, rank: string -> nat, t: Table, names: seq<string>)
    requires Acyclic(env, rank)
    ensures VisitAll(env, rank, t, names).entries.Keys == t.entries.Keys + ReachAll(env, rank, names)
    decreases Bound(env, rank, names), 1, |names|
  {
    if names != [] {
      var init := names[..|names| - 1];
      VisitAllKeys(env, rank, t, init);
      VisitKeys(env, rank, VisitAll(env, rank, t, init), names[|names| - 1]);
    }
  }

  /** An excluded name is never recorded by a run that did not already hold it. */
  lemma ExcludedNeverRecorded(env: Env, rank: string -> nat, t: Table, names: seq<string>, x: string)
    requires Acyclic(env, rank)
    requires x in env.exclude
    ensures x in VisitAll(env, rank, t, names).entries <==> x in t.entries
  {
    VisitAllKeys(env, rank, t, names);
  }

  /** Excluding a name prunes its whole subtree: the visit changes nothing
      and nothing is reachable through it. */
  lemma ExcludedPrunesSubtree(env: Env, rank: string -> nat, t: Table, name: string)
    requires Acyclic(env, rank)
    requires name in env.exclude
    ensures Visit(env, rank, t, name) == t
    ensures Reach(env, rank, name) == {}
  {
  }

  /** A package whose manifest fails to load is recorded with no manifest and
      none of its dependencies are visited. */
  lemma UnloadedIsLeaf(env: Env, rank: string -> nat, t: Table, name: string)
    requires Acyclic(env, rank)
    requires name !in env.exclude && ManifestPath(env.bowerDir, name) !in env.disk
    ensures Visit(env, rank, t, name) == Insert(t, name, Entry(env.bowerDir + "/" + name, None))
  {
  }

  /** Every entry holds `bowerDir/name` and the manifest loaded from there. */
  ghost predicate Recorded(env: Env, t: Table) {
    forall k :: k in t.entries ==> t.entries[k] == EntryFor(env, k)
  }

  lemma {:induction false} VisitRecorded(env: Env, rank: string -> nat, t: Table, name: string)
    requires Acyclic(env, rank) && Recorded(env, t)
    ensures Recorded(env, Visit(env, rank, t, name))
    decreases Height(env, rank, name), 0
  {
    if name !in env.exclude {
      VisitAllRecorded(env, rank, t, Children(env, name));
    }
  }

  lemma {:induction false} VisitAllRecorded(env: Env, rank: string -> nat, t: Table, names: seq<string>)
    requires Acyclic(env, rank) && Recorded(env, t)
    ensures Recorded(env, VisitAll(env, rank, t, names))
    decreases Bound(env, rank, names), 1, |names|
  {
    if names != [] {
      var init := names[..|names| - 1];
      VisitAllRecorded(env, rank, t, init);
      VisitRecorded(env, rank, VisitAll(env, rank, t, init), names[|names| - 1]);
    }
  }

  /** The dependencies recorded for key `k`: none without a loaded manifest. */
  function DepsOf(t: Table, k: string): seq<string> {
    if k in t.entries && t.entries[k].bower.Some? then t.entries[k].bower.value.dependencies else []
  }

  /** Dependencies precede dependents: every non-excluded dependency of a
      recorded package with a loaded manifest sits at an earlier position. */
  ghost predicate DepsFirst(t: Table, exclude: seq<string>) {
    forall i, d :: 0 <= i < |t.keys| && d in DepsOf(t, t.keys[i]) && d !in exclude ==> d in t.keys[..i]
  }

  lemma InsertDepsFirst(t: Table, name: string, e: Entry, exclude: seq<string>)
    requires WellFormed(t) && DepsFirst(t, exclude)
    requires e.bower.Some? ==> forall d :: d in e.bower.value.dependencies && d !in exclude ==> d in t.entries
    ensures DepsFirst(Insert(t, name, e), exclude)
  {
    if name !in t.entries {
      var r := Insert(t, name, e);
      forall i, d | 0 <= i < |r.keys| && d in DepsOf(r, r.keys[i]) && d !in exclude
        ensures d in r.keys[..i]
      {
        if i < |t.keys| {
          assert r.keys[i] == t.keys[i] && t.keys[i] != name;
          assert r.keys[..i] == t.keys[..i];
          assert DepsOf(r, r.keys[i]) == DepsOf(t, t.keys[i]);
        } else {
          assert r.keys[i] == name && r.keys[..i] == t.keys;
        }
      }
    }
  }

  lemma {:induction false} VisitDepsFirst(env: Env, rank: string -> nat, t: Table, name: string)
    requires Acyclic(env, rank) && WellFormed(t) && DepsFirst(t, env.exclude)
    ensures DepsFirst(Visit(env, rank, t, name), env.exclude)
    decreases Height(env, rank, name), 0
  {
    if name !in env.exclude {
      var children := Children(env, name);
      var t1 := VisitAll(env, rank, t, children);
      VisitAllDepsFirst(env, rank, t, children);
      VisitAllKeys(env, rank, t, children);
      InsertDepsFirst(t1, name, EntryFor(env, name), env.exclude);
    }
  }

  lemma {:induction false} VisitAllDepsFirst(env: Env, rank: string -> nat, t: Table, names: seq<string>)
    requires Acyclic(env, rank) && WellFormed(t) && DepsFirst(t, env.exclude)
    ensures DepsFirst(VisitAll(env, rank, t, names), env.exclude)
    decreases Bound(env, rank, names), 1, |names|
  {
    if names != [] {
      var init := names[..|names| - 1];
      VisitAllDepsFirst(env, rank, t, init);
      VisitDepsFirst(env, rank, VisitAll(env, rank, t, init), names[|names| - 1]);
    }
  }

  /** A visit whose reachable packages are all recorded changes nothing. */
  lemma {:induction false} VisitSaturated(env: Env, rank: string -> nat, t: Table, name: string)
    requires Acyclic(env, rank)
    requires Reach(env, rank, name) <= t.entries.Keys
    ensures Visit(env, rank, t, name) == t
    decreases Height(env, rank, name), 0
  {
    if name !in env.exclude {
      VisitAllSaturated(env, rank, t, Children(env, name));
    }
  }

  lemma {:induction false} VisitAllSaturated(env: Env, rank: string -> nat, t: Table, names: seq<string>)
    requires Acyclic(env, rank)
    requires ReachAll(env, rank, names) <= t.entries.Keys
    ensures VisitAll(env, rank, t, names) == t
    decreases Bound(env, rank, names), 1, |names|
  {
    if names != [] {
      var init := names[..|names| - 1];
      VisitAllSaturated(env, rank, t, init);
      VisitSaturated(env, rank, t, names[|names| - 1]);
    }
  }

  /** The shared state makes a repeated `getDependencies` a no-op. */
  lemma RepeatedRunAddsNothing(env: Env, rank: string -> nat, t: Table, roots: seq<string>)
    requires Acyclic(env, rank)
    ensures VisitAll(env, rank, VisitAll(env, rank, t, roots), roots) == VisitAll(env, rank, t, roots)
  {
    VisitAllKeys(env, rank, t, roots);
    VisitAllSaturated(env, rank, VisitAll(env, rank, t, roots), roots);
  }

  lemma VisitAllSnoc(env: Env, rank: string -> nat, t: Table, names: seq<string>, x: string)
    requires Acyclic(env, rank)
    ensures VisitAll(env, rank, t, names + [x]) == Visit(env, rank, VisitAll(env, rank, t, names), x)
  {
    var s := names + [x];
    assert s[..|s| - 1] == names && s[|s| - 1] == x;
  }

  /** Root dependencies are visited one after another in declaration order. */
  lemma {:induction false} VisitAllAppend(env: Env, rank: string -> nat, t: Table, a: seq<string>, b: seq<string>)
    requires Acyclic(env, rank)
    ensures VisitAll(env, rank, t, a + b) == VisitAll(env, rank, VisitAll(env, rank, t, a), b)
    decreases |b|
  {
    if b == [] {
      assert a + b == a;
    } else {
      var init, last := b[..|b| - 1], b[|b| - 1];
      assert b == init + [last];
      assert a + b == (a + init) + [last];
      VisitAllAppend(env, rank, t, a, init);
      VisitAllSnoc(env, rank, t, a + init, last);
      VisitAllSnoc(env, rank, VisitAll(env, rank, t, a), init, last);
    }
  }

  /** A run from the empty table yields a well-formed, dependency-ordered
      table of entries read from `bowerDir`, holding exactly the reachable
      packages. */
  lemma ResolveFromEmpty(env: Env, rank: string -> nat, roots: seq<string>)
    requires Acyclic(env, rank)
    ensures var r := VisitAll(env, rank, EmptyTable, roots);
      && WellFormed(r) && DepsFirst(r, env.exclude) && Recorded(env, r)
      && r.entries.Keys == ReachAll(env, rank, roots)
  {
    VisitAllKeys(env, rank, EmptyTable, roots);
    VisitAllDepsFirst(env, rank, EmptyTable, roots);
    VisitAllRecorded(env, rank, EmptyTable, roots);
  }

  // The table is a JavaScript array used as a dictionary, so the presence
  // test `packages[name] === undefined` also sees the properties every array
  // inherits: those of `Array.prototype` up to ECMAScript 2016 and those of
  // `Object.prototype`, including the legacy accessor helpers and
  // `__proto__`.
  const ArrayMemberNames: set<string> := {
    "length", "constructor", "concat", "join", "pop", "push", "reverse",
    "shift", "slice", "sort", "splice", "unshift", "indexOf", "lastIndexOf",
    "every", "some", "forEach", "map", "filter", "reduce", "reduceRight",
    "keys", "values", "entries", "find", "findIndex", "fill", "copyWithin",
    "includes",
    "toString", "toLocaleString", "valueOf", "hasOwnProperty",
    "isPrototypeOf", "propertyIsEnumerable", "__proto__",
    "__defineGetter__", "__defineSetter__", "__lookupGetter__", "__lookupSetter__"
  }

  /** The insertion as the code performs it on an array-backed table. */
  function InsertAsWritten(t: Table, name: string, e: Entry): (r: Table)
    ensures name in r.entries <==> name in t.entries || name !in ArrayMemberNames
    ensures name in ArrayMemberNames ==> r == t
    ensures forall k :: k in t.entries ==> k in r.entries && r.entries[k] == t.entries[k]
  {
    if name in t.entries || name in ArrayMemberNames then t
    else Table(t.keys + [name], t.entries[name := e])
  }

  /** A package named like an array member is never recorded as written,
      whereas a plain membership test (`Insert`) records it. */
  lemma ArrayMemberNameDropped(t: Table, name: string, e: Entry)
    requires name in ArrayMemberNames && name !in t.entries
    ensures name !in InsertAsWritten(t, name, e).entries
    ensures name in Insert(t, name, e).entries
  {
  }
}
