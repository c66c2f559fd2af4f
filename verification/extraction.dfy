/** What `getMainFiles` extracts from a resolved table, as functions.

    Packages are taken in table order and, within a package, the entries of
    its `main` field in order.  An entry ending in `.js` (or `.css`) yields
    `path/minFile` when that path exists on disk and `path/mainFile`
    otherwise, where `minFile` replaces the FIRST occurrence of `.js` (or
    `.css`) by `.min.js` (or `.min.css`); other entries yield nothing.  The
    existence check is a set of existing paths. */
module Extraction {
  import opened Text
  import opened Resolution

  /** The ordered script and style path lists. */
  datatype Files = Files(js: seq<string>, css: seq<string>)

  /** `isArray(main) ? main : [main]`; an absent `main` has no entries. */
  function MainList(m: Main): (r: seq<string>)
    ensures m.NoMain? ==> r == []
    ensures m.OneFile? ==> r == [m.file]
    ensures m.FileList? ==> r == m.files
  {
    match m
    case NoMain => []
    case OneFile(f) => [f]
    case FileList(fs) => fs
  }

  /** The path chosen for one main entry of kind `ext`. */
  function Pick(path: string, file: string, ext: string, minExt: string, onDisk: set<string>): (r: string)
    ensures r == path + "/" + file || r == path + "/" + ReplaceFirst(file, ext, minExt)
    ensures path + "/" + ReplaceFirst(file, ext, minExt) in onDisk ==> r == path + "/" + ReplaceFirst(file, ext, minExt)
    ensures r in onDisk || r == path + "/" + file
  {
    var minFile := ReplaceFirst(file, ext, minExt);
    if path + "/" + minFile in onDisk then path + "/" + minFile else path + "/" + file
  }

  /** What one main entry contributes to the list of kind `ext`. */
  function FileOf(path: string, file: string, ext: string, minExt: string, onDisk: set<string>): (r: seq<string>)
    ensures |r| <= 1
    ensures r != [] <==> EndsWith(file, ext)
    ensures r != [] ==> r[0] in onDisk || r[0] == path + "/" + file
  {
    if EndsWith(file, ext) then [Pick(path, file, ext, minExt, onDisk)] else []
  }

  /** What the main entries `files` of a package at `path` contribute, in order. */
  function FilesOf(path: string, files: seq<string>, ext: string, minExt: string, onDisk: set<string>): (r: seq<string>)
    ensures |r| <= |files|
  {
    if files == [] then []
    else FilesOf(path, files[..|files| - 1], ext, minExt, onDisk) + FileOf(path, files[|files| - 1], ext, minExt, onDisk)
  }

  /** What one recorded package contributes: nothing without a loaded
      manifest or without `main`. */
  function PackageOf(e: Entry, ext: string, minExt: string, onDisk: set<string>): (r: seq<string>)
    ensures e.bower.None? ==> r == []
    ensures e.bower.Some? ==> |r| <= |MainList(e.bower.value.main)|
  {
    if e.bower.None? || e.bower.value.main.NoMain? then []
    else FilesOf(e.path, MainList(e.bower.value.main), ext, minExt, onDisk)
  }

  /** The contributions `part` of the packages `keys`, in table order. */
  function Concat(keys: seq<string>, entries: map<string, Entry>, part: Entry -> seq<string>): seq<string>
    requires forall k :: k in keys ==> k in entries
  {
    if keys == [] then []
    else Concat(keys[..|keys| - 1], entries, part) + part(entries[keys[|keys| - 1]])
  }

  lemma ConcatSnoc(keys: seq<string>, k: string, entries: map<string, Entry>, part: Entry -> seq<string>)
    requires forall x :: x in keys ==> x in entries
    requires k in entries
    ensures forall x :: x in keys + [k] ==> x in entries
    ensures Concat(keys + [k], entries, part) == Concat(keys, entries, part) + part(entries[k])
  {
    var s := keys + [k];
    assert s[..|s| - 1] == keys;
  }

  /** Packages that contribute nothing make an empty list. */
  lemma {:induction false} ConcatNothing(keys: seq<string>, entries: map<string, Entry>, part: Entry -> seq<string>)
    requires forall k :: k in keys ==> k in entries
    ensures (forall k :: k in keys ==> part(entries[k]) == []) ==> Concat(keys, entries, part) == []
  {
    if keys != [] && forall k :: k in keys ==> part(entries[k]) == [] {
      var init, last := keys[..|keys| - 1], keys[|keys| - 1];
      assert forall k :: k in init ==> k in keys;
      ConcatNothing(init, entries, part);
      assert last in keys;
    }
  }

  /** Contributions follow package order: those of `a` before those of `b`. */
  lemma {:induction false} ConcatAppend(a: seq<string>, b: seq<string>, entries: map<string, Entry>, part: Entry -> seq<string>)
    requires forall k :: k in a ==> k in entries
    requires forall k :: k in b ==> k in entries
    ensures forall k :: k in a + b ==> k in entries
    ensures Concat(a + b, entries, part) == Concat(a, entries, part) + Concat(b, entries, part)
    decreases |b|
  {
    if b == [] {
      assert a + b == a;
    } else {
      var init, last := b[..|b| - 1], b[|b| - 1];
      assert b == init + [last];
      assert a + b == (a + init) + [last];
      ConcatAppend(a, init, entries, part);
      ConcatSnoc(a + init, last, entries, part);
      ConcatSnoc(init, last, entries, part);
    }
  }

  /** A path is in the concatenation exactly when some package contributes it. */
  lemma {:induction false} ConcatMembership(keys: seq<string>, entries: map<string, Entry>, part: Entry -> seq<string>, f: string)
    requires forall k :: k in keys ==> k in entries
    ensures f in Concat(keys, entries, part) <==> exists k :: k in keys && f in part(entries[k])
  {
    if keys != [] {
      var init, last := keys[..|keys| - 1], keys[|keys| - 1];
      ConcatMembership(init, entries, part, f);
      assert keys == init + [last];
      if exists k :: k in keys && f in part(entries[k]) {
        var k :| k in keys && f in part(entries[k]);
        if k != last {
          assert k in init;
        }
      }
    }
  }

  /** What the packages `keys` contribute to the list of kind `ext`. */
  function Collect(keys: seq<string>, entries: map<string, Entry>, ext: string, minExt: string, onDisk: set<string>): (r: seq<string>)
    requires forall k :: k in keys ==> k in entries
    ensures (forall k :: k in keys ==> entries[k].bower.None?) ==> r == []
  {
    var part := e => PackageOf(e, ext, minExt, onDisk);
    ConcatNothing(keys, entries, part);
    Concat(keys, entries, part)
  }

  lemma CollectSnoc(keys: seq<string>, k: string, entries: map<string, Entry>, ext: string, minExt: string, onDisk: set<string>)
    requires forall x :: x in keys ==> x in entries
    requires k in entries
    ensures forall x :: x in keys + [k] ==> x in entries
    ensures Collect(keys + [k], entries, ext, minExt, onDisk)
            == Collect(keys, entries, ext, minExt, onDisk) + PackageOf(entries[k], ext, minExt, onDisk)
  {
    ConcatSnoc(keys, k, entries, e => PackageOf(e, ext, minExt, onDisk));
  }

  /** One more package in table order. */
  lemma CollectStep(keys: seq<string>, i: nat, entries: map<string, Entry>, ext: string, minExt: string, onDisk: set<string>)
    requires i < |keys|
    requires forall k :: k in keys ==> k in entries
    ensures Collect(keys[..i + 1], entries, ext, minExt, onDisk)
            == Collect(keys[..i], entries, ext, minExt, onDisk) + PackageOf(entries[keys[i]], ext, minExt, onDisk)
  {
    assert keys[..i + 1] == keys[..i] + [keys[i]];
    CollectSnoc(keys[..i], keys[i], entries, ext, minExt, onDisk);
  }

  lemma FilesOfSnoc(path: string, files: seq<string>, j: nat, ext: string, minExt: string, onDisk: set<string>)
    requires j < |files|
    ensures FilesOf(path, files[..j + 1], ext, minExt, onDisk)
            == FilesOf(path, files[..j], ext, minExt, onDisk) + FileOf(path, files[j], ext, minExt, onDisk)
  {
    assert files[..j + 1][..j] == files[..j];
  }

  /** The result of `getMainFiles` for a resolved table: scripts only in
      `js`, stylesheets only in `css`. */
  function MainFiles(t: Table, onDisk: set<string>): (r: Files)
    requires WellFormed(t)
    ensures forall f :: f in r.js ==> EndsWith(f, ".js")
    ensures forall f :: f in r.css ==> EndsWith(f, ".css")
  {
    CollectEndsWith(t.keys, t.entries, ".js", ".min.js", onDisk);
    CollectEndsWith(t.keys, t.entries, ".css", ".min.css", onDisk);
    Files(Collect(t.keys, t.entries, ".js", ".min.js", onDisk),
          Collect(t.keys, t.entries, ".css", ".min.css", onDisk))
  }

  /** `mainFile` is an entry of kind `ext` of the package recorded as `e`, and
      `f` is the path chosen for it. */
  ghost predicate Yields(e: Entry, f: string, ext: string, minExt: string, onDisk: set<string>) {
    && e.bower.Some?
    && exists mainFile :: mainFile in MainList(e.bower.value.main) && EndsWith(mainFile, ext)
                          && f == Pick(e.path, mainFile, ext, minExt, onDisk)
  }

  lemma {:induction false} FilesOfMembership(path: string, files: seq<string>, ext: string, minExt: string, onDisk: set<string>, f: string)
    ensures f in FilesOf(path, files, ext, minExt, onDisk) <==>
            exists m :: m in files && EndsWith(m, ext) && f == Pick(path, m, ext, minExt, onDisk)
  {
    if f in FilesOf(path, files, ext, minExt, onDisk) {
      FilesOfSound(path, files, ext, minExt, onDisk, f);
    }
    if exists m :: m in files && EndsWith(m, ext) && f == Pick(path, m, ext, minExt, onDisk) {
      var m :| m in files && EndsWith(m, ext) && f == Pick(path, m, ext, minExt, onDisk);
      FilesOfComplete(path, files, ext, minExt, onDisk, m);
    }
  }

  /** Every output comes from some main entry of kind `ext`. */
  lemma {:induction false} FilesOfSound(path: string, files: seq<string>, ext: string, minExt: string, onDisk: set<string>, f: string)
    requires f in FilesOf(path, files, ext, minExt, onDisk)
    ensures exists m :: m in files && EndsWith(m, ext) && f == Pick(path, m, ext, minExt, onDisk)
  {
    var init, last := files[..|files| - 1], files[|files| - 1];
    assert files == init + [last];
    if f in FilesOf(path, init, ext, minExt, onDisk) {
      FilesOfSound(path, init, ext, minExt, onDisk, f);
      var m :| m in init && EndsWith(m, ext) && f == Pick(path, m, ext, minExt, onDisk);
      assert m in files;
    } else {
      assert f in FileOf(path, last, ext, minExt, onDisk);
      assert last in files;
    }
  }

  /** Every main entry of kind `ext` yields an output. */
  lemma {:induction false} FilesOfComplete(path: string, files: seq<string>, ext: string, minExt: string, onDisk: set<string>, m: string)
    requires m in files && EndsWith(m, ext)
    ensures Pick(path, m, ext, minExt, onDisk) in FilesOf(path, files, ext, minExt, onDisk)
  {
    var init, last := files[..|files| - 1], files[|files| - 1];
    assert files == init + [last];
    if m != last {
      FilesOfComplete(path, init, ext, minExt, onDisk, m);
    }
  }

  /** An output path belongs to the list of kind `ext` exactly when some
      recorded package yields it from one of its main entries. */
  lemma CollectMembership(keys: seq<string>, entries: map<string, Entry>, ext: string, minExt: string, onDisk: set<string>, f: string)
    requires forall k :: k in keys ==> k in entries
    ensures f in Collect(keys, entries, ext, minExt, onDisk) <==>
            exists k :: k in keys && Yields(entries[k], f, ext, minExt, onDisk)
  {
    var part := e => PackageOf(e, ext, minExt, onDisk);
    ConcatMembership(keys, entries, part, f);
    forall k | k in keys ensures f in part(entries[k]) <==> Yields(entries[k], f, ext, minExt, onDisk) {
      var e := entries[k];
      if e.bower.Some? {
        FilesOfMembership(e.path, MainList(e.bower.value.main), ext, minExt, onDisk, f);
      }
    }
  }

  /** Every chosen path of kind `ext` still ends with `ext`, whether or not
      the minified name was taken. */
  lemma {:induction false} CollectEndsWith(keys: seq<string>, entries: map<string, Entry>, ext: string, minExt: string, onDisk: set<string>)
    requires forall k :: k in keys ==> k in entries
    requires NoSelfOverlap(ext) && EndsWith(minExt, ext)
    ensures forall f :: f in Collect(keys, entries, ext, minExt, onDisk) ==> EndsWith(f, ext)
  {
    forall f | f in Collect(keys, entries, ext, minExt, onDisk) ensures EndsWith(f, ext) {
      CollectMembership(keys, entries, ext, minExt, onDisk, f);
      var k :| k in keys && Yields(entries[k], f, ext, minExt, onDisk);
      var e := entries[k];
      var m :| m in MainList(e.bower.value.main) && EndsWith(m, ext) && f == Pick(e.path, m, ext, minExt, onDisk);
      ReplaceFirstKeepsSuffix(m, ext, minExt);
      EndsWithAppend(e.path + "/", ReplaceFirst(m, ext, minExt), ext);
      EndsWithAppend(e.path + "/", m, ext);
    }
  }

  /** A package without a loaded manifest or without `main` contributes nothing. */
  lemma NoMainContributesNothing(e: Entry, onDisk: set<string>)
    requires e.bower.None? || e.bower.value.main.NoMain?
    ensures PackageOf(e, ".js", ".min.js", onDisk) == [] && PackageOf(e, ".css", ".min.css", onDisk) == []
  {
  }

  /** A string `main` is treated as the one-element list holding it. */
  lemma SingleMainIsOneEntry(path: string, m: Manifest, file: string, ext: string, minExt: string, onDisk: set<string>)
    requires m.main == OneFile(file)
    ensures PackageOf(Entry(path, Some(m)), ext, minExt, onDisk)
            == PackageOf(Entry(path, Some(m.(main := FileList([file])))), ext, minExt, onDisk)
  {
  }

  /** For a main file whose only `.js` is its extension, the minified
      sibling `stem.min.js` is taken when it exists and the file itself
      otherwise. */
  lemma MinifiedPreferred(path: string, stem: string, onDisk: set<string>)
    requires '.' !in stem
    ensures Pick(path, stem + ".js", ".js", ".min.js", onDisk)
            == if path + "/" + stem + ".min.js" in onDisk then path + "/" + stem + ".min.js"
               else path + "/" + stem + ".js"
  {
    ReplaceFirstAfterStem(stem, ".js", "", ".min.js");
    assert stem + ".js" + "" == stem + ".js";
    assert stem + ".min.js" + "" == stem + ".min.js";
    assert path + "/" + (stem + ".min.js") == path + "/" + stem + ".min.js";
    assert path + "/" + (stem + ".js") == path + "/" + stem + ".js";
  }

  /** Only the first `.js` is rewritten, which need not be the extension:
      for `jquery.jsonp.js` the candidate is `jquery.min.jsonp.js`. */
  lemma FirstOccurrenceRewritten(stem: string, rest: string)
    requires '.' !in stem
    ensures ReplaceFirst(stem + ".js" + rest, ".js", ".min.js") == stem + ".min.js" + rest
  {
    ReplaceFirstAfterStem(stem, ".js", rest, ".min.js");
  }
}
