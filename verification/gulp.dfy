/** The `phidias` object of the gulp helper: its task list, the ordered
    source combiner, the watch filter, the JS/CSS/copy task definitions and
    `build`, which wires the resolved bower packages into the application
    bundles.

    The gulp instance is represented by what phidias hands to it: the task
    definitions (`gulp.task`) and the watch registrations (`gulp.watch`).
    What a defined task does when gulp runs it is described by `Job` and
    `PlanOf`; the stream stages (concatenation, Sass, minifiers, writing)
    stay opaque. */
module Gulp {
  import opened Text
  import opened Resolution
  import opened Extraction
  import Bower

  /** A `sources` argument: one string, or an array of strings. */
  datatype Sources = One(source: string) | Many(list: seq<string>)

  /** `if (typeof sources == "string") sources = [sources];` */
  function Normalize(sources: Sources): (r: seq<string>)
    ensures sources.One? ==> r == [sources.source]
    ensures sources.Many? ==> r == sources.list
  {
    match sources
    case One(s) => [s]
    case Many(l) => l
  }

  /** `source.substring(0, 4) == "http"`: a source is remote exactly when
      its first four characters are `http`; anything shorter is local. */
  predicate IsRemote(source: string): (r: bool)
    ensures r <==> |source| >= 4 && source[..4] == "http"
    ensures |source| < 4 ==> !r
  {
    Prefix(source, 4) == "http"
  }

  /** The sub-stream made for one source: a download or a local glob. */
  datatype Stream = Download(url: string) | Src(glob: string)

  function StreamOf(source: string): (r: Stream)
    ensures r.Download? <==> IsRemote(source)
    ensures r == Download(source) || r == Src(source)
  {
    if IsRemote(source) then Download(source) else Src(source)
  }

  /** The ordered merge of sub-streams, given the records each one yields:
      all records of a stream precede those of the next one, however long
      each takes to produce them. */
  function Merge<R(!new)>(streams: seq<Stream>, records: Stream -> seq<R>): (r: seq<R>)
    ensures forall x :: x in r <==> exists i :: 0 <= i < |streams| && x in records(streams[i])
  {
    if streams == [] then []
    else Merge(streams[..|streams| - 1], records) + records(streams[|streams| - 1])
  }

  lemma MergeSnoc<R(!new)>(streams: seq<Stream>, x: Stream, records: Stream -> seq<R>)
    ensures Merge(streams + [x], records) == Merge(streams, records) + records(x)
  {
    var s := streams + [x];
    assert s[..|s| - 1] == streams;
  }

  lemma {:induction false} MergeAppend<R(!new)>(a: seq<Stream>, b: seq<Stream>, records: Stream -> seq<R>)
    ensures Merge(a + b, records) == Merge(a, records) + Merge(b, records)
    decreases |b|
  {
    if b == [] {
      assert a + b == a;
    } else {
      var init, last := b[..|b| - 1], b[|b| - 1];
      assert b == init + [last];
      assert a + b == (a + init) + [last];
      MergeAppend(a, init, records);
      MergeSnoc(a + init, last, records);
      MergeSnoc(init, last, records);
    }
  }

  /** The records of the i-th source sit after those of every earlier source
      and before those of every later one. */
  lemma {:induction false} MergeKeepsSourceOrder<R(!new)>(streams: seq<Stream>, records: Stream -> seq<R>, i: nat)
    requires i < |streams|
    ensures Merge(streams, records)
            == Merge(streams[..i], records) + records(streams[i]) + Merge(streams[i + 1..], records)
  {
    MergeAppend(streams[..i + 1], streams[i + 1..], records);
    assert streams[..i + 1] + streams[i + 1..] == streams;
    MergeSnoc(streams[..i], streams[i], records);
    assert streams[..i] + [streams[i]] == streams[..i + 1];
  }

  /** The sources `watch` passes on: the non-remote ones, in order. */
  function LocalSources(sources: seq<string>): (r: seq<string>)
    ensures |r| <= |sources|
    ensures forall x :: x in r ==> !IsRemote(x)
  {
    if sources == [] then []
    else LocalSources(sources[..|sources| - 1]) + (if IsRemote(sources[|sources| - 1]) then [] else [sources[|sources| - 1]])
  }

  lemma LocalSourcesSnoc(sources: seq<string>, x: string)
    ensures LocalSources(sources + [x]) == LocalSources(sources) + (if IsRemote(x) then [] else [x])
  {
    var s := sources + [x];
    assert s[..|s| - 1] == sources;
  }

  /** `LocalSources` distributes over concatenation, so the kept sources
      keep the relative order they had. */
  lemma {:induction false} LocalSourcesAppend(a: seq<string>, b: seq<string>)
    ensures LocalSources(a + b) == LocalSources(a) + LocalSources(b)
    decreases |b|
  {
    if b == [] {
      assert a + b == a;
    } else {
      var init, last := b[..|b| - 1], b[|b| - 1];
      var kept := if IsRemote(last) then [] else [last];
      calc {
        LocalSources(a + b);
        { assert a + b == (a + init) + [last]; }
        LocalSources((a + init) + [last]);
        { LocalSourcesSnoc(a + init, last); }
        LocalSources(a + init) + kept;
        { LocalSourcesAppend(a, init); }
        LocalSources(a) + LocalSources(init) + kept;
        { LocalSourcesSnoc(init, last); assert b == init + [last]; }
        LocalSources(a) + LocalSources(b);
      }
    }
  }

  /** A source is kept exactly when it is one of the inputs and not remote. */
  lemma {:induction false} LocalSourcesMembership(sources: seq<string>, x: string)
    ensures x in LocalSources(sources) <==> x in sources && !IsRemote(x)
  {
    if sources != [] {
      var init, last := sources[..|sources| - 1], sources[|sources| - 1];
      LocalSourcesMembership(init, x);
      assert sources == init + [last];
    }
  }

  /** Proof helper: `LocalSourcesMembership` for every source at once. */
  lemma LocalSourcesKept(sources: seq<string>)
    ensures forall x :: x in LocalSources(sources) <==> x in sources && !IsRemote(x)
  {
    forall x {
      LocalSourcesMembership(sources, x);
    }
  }

  /** The names a write task derives from its target. */
  datatype Outputs = Outputs(folder: string, file: string, minFile: string)

  /** `dirname(target)`, `basename(target)` and the basename with its first
      `ext` replaced by `minExt`: the file name is the last component of the
      target, and the minified name keeps the extension. */
  function OutputsOf(target: string, ext: string, minExt: string): (r: Outputs)
    ensures '/' !in r.file && EndsWith(target, r.file)
    ensures '/' !in target ==> r.file == target
    ensures '/' in target ==> |r.file| < |target| && target[|target| - |r.file| - 1] == '/'
    ensures NoSelfOverlap(ext) && EndsWith(minExt, ext) && EndsWith(r.file, ext) ==> EndsWith(r.minFile, ext)
  {
    var fileName := Basename(target);
    var minFileName := ReplaceFirst(fileName, ext, minExt);
    assert NoSelfOverlap(ext) && EndsWith(minExt, ext) && EndsWith(fileName, ext) ==> EndsWith(minFileName, ext) by {
      if NoSelfOverlap(ext) && EndsWith(minExt, ext) && EndsWith(fileName, ext) {
        ReplaceFirstKeepsSuffix(fileName, ext, minExt);
      }
    }
    Outputs(Dirname(target), fileName, minFileName)
  }

  /** The last separator of `dir/name` is the one before `name`. */
  lemma {:induction false} SlashBeforeName(dir: string, name: string)
    requires '/' !in name
    ensures LastSlash(dir + "/" + name) == |dir|
    ensures Dirname(dir + "/" + name) == (if |dir| == 0 then "/" else dir)
    ensures Basename(dir + "/" + name) == name
  {
    var p := dir + "/" + name;
    var i := |dir|;
    assert p[i] == '/';
    forall j | i < j < |p| ensures p[j] != '/' {
      assert p[j] == name[j - i - 1];
    }
    assert LastSlash(p) == i;
    assert p[..i] == dir;
    assert p[i + 1..] == name;
  }

  /** For a target `dir/stem.js` with a plain stem, both outputs go to `dir`:
      the target itself and `stem.min.js` beside it. */
  lemma PlainTargetOutputs(dir: string, stem: string, ext: string, minExt: string)
    requires |dir| > 0 && |ext| > 0 && ext[0] == '.'
    requires '/' !in stem && '.' !in stem && '/' !in ext
    ensures OutputsOf(dir + "/" + (stem + ext), ext, minExt) == Outputs(dir, stem + ext, stem + minExt)
  {
    assert '/' !in stem + ext;
    SlashBeforeName(dir, stem + ext);
    ReplaceFirstAfterStem(stem, ext, "", minExt);
    assert stem + ext + "" == stem + ext;
    assert stem + minExt + "" == stem + minExt;
  }

  /** In `name.app` followed by an extension such as `.js` or `.css`, the
      extension starts nowhere before its own position. */
  lemma {:induction false} AppStemSkipped(name: string, ext: string)
    requires '.' !in name && |ext| >= 2 && ext[0] == '.' && ext[1] != 'a'
    ensures forall j :: 0 <= j < |name + ".app"| ==> !OccursAt(name + ".app" + ext + "", ext, j)
  {
    var s := name + ".app" + ext + "";
    var n := |name|;
    forall j | 0 <= j < n + 4 ensures !OccursAt(s, ext, j) {
      if j + |ext| <= |s| {
        var w := s[j..j + |ext|];
        assert w[0] == s[j] && w[1] == s[j + 1];
        if j < n {
          assert s[j] == name[j];
        } else if j == n {
          assert s[j + 1] == 'a';
        } else {
          assert s[j] == ".app"[j - n];
        }
      }
    }
  }

  /** The file names a plain target `dir/stem+ext` is written under. */
  lemma {:induction false} TargetOutputs(dir: string, stem: string, ext: string, minExt: string)
    requires '/' !in stem && '/' !in ext && |ext| > 0
    requires forall j :: 0 <= j < |stem| ==> !OccursAt(stem + ext + "", ext, j)
    ensures OutputsOf(dir + "/" + (stem + ext), ext, minExt)
            == Outputs(if |dir| == 0 then "/" else dir, stem + ext, stem + minExt)
  {
    assert '/' !in stem + ext by {
      forall k | 0 <= k < |stem + ext| ensures (stem + ext)[k] != '/' {
        if k < |stem| { assert (stem + ext)[k] == stem[k]; } else { assert (stem + ext)[k] == ext[k - |stem|]; }
      }
    }
    SlashBeforeName(dir, stem + ext);
    ReplaceFirstAt(stem, ext, "", minExt);
    assert stem + ext + "" == stem + ext;
    assert stem + minExt + "" == stem + minExt;
  }

  /** A target `dest/build/stem+ext` is written into `dest/build`. */
  lemma BuildTargetOutputs(dest: string, stem: string, ext: string, minExt: string)
    requires '/' !in stem && '/' !in ext && |ext| > 0
    requires forall j :: 0 <= j < |stem| ==> !OccursAt(stem + ext + "", ext, j)
    ensures OutputsOf(dest + "/build/" + stem + ext, ext, minExt) == Outputs(dest + "/build", stem + ext, stem + minExt)
  {
    assert dest + "/build/" + stem + ext == (dest + "/build") + "/" + (stem + ext);
    TargetOutputs(dest + "/build", stem, ext, minExt);
  }

  /** With no `.` in `stem`, an extension starting with `.` starts nowhere
      inside it. */
  lemma PlainStemSkipped(stem: string, ext: string)
    requires '.' !in stem && |ext| > 0 && ext[0] == '.'
    ensures forall j :: 0 <= j < |stem| ==> !OccursAt(stem + ext + "", ext, j)
  {
    var s := stem + ext + "";
    forall j | 0 <= j < |stem| ensures !OccursAt(s, ext, j) {
      assert s[j] == stem[j];
      if j + |ext| <= |s| {
        assert s[j..j + |ext|][0] == s[j];
      }
    }
  }

  /** With a plain `name`, the component bundles of `build` are written into
      `dest/build` as `name.js` and `name.min.js`, `name.css` and
      `name.min.css`. */
  lemma ComponentOutputNames(s: Settings)
    requires '.' !in s.name && '/' !in s.name
    ensures OutputsOf(ComponentJobs(s)[0].target, ".js", ".min.js")
            == Outputs(s.dest + "/build", s.name + ".js", s.name + ".min.js")
    ensures OutputsOf(ComponentJobs(s)[1].target, ".css", ".min.css")
            == Outputs(s.dest + "/build", s.name + ".css", s.name + ".min.css")
  {
    PlainStemSkipped(s.name, ".js");
    BuildTargetOutputs(s.dest, s.name, ".js", ".min.js");
    PlainStemSkipped(s.name, ".css");
    BuildTargetOutputs(s.dest, s.name, ".css", ".min.css");
  }

  /** With a plain `name`, the application bundles of `build` are written
      into `dest/build` as `name.app.js` and `name.app.min.js`,
      `name.app.css` and `name.app.min.css`. */
  lemma AppOutputNames(s: Settings, deps: Files)
    requires '.' !in s.name && '/' !in s.name
    ensures OutputsOf(AppJobs(s, deps)[0].target, ".js", ".min.js")
            == Outputs(s.dest + "/build", s.name + ".app.js", s.name + ".app.min.js")
    ensures OutputsOf(AppJobs(s, deps)[1].target, ".css", ".min.css")
            == Outputs(s.dest + "/build", s.name + ".app.css", s.name + ".app.min.css")
  {
    var app := s.name + ".app";
    assert '/' !in app by {
      forall k | 0 <= k < |app| ensures app[k] != '/' {
        if k < |s.name| { assert app[k] == s.name[k]; } else { assert app[k] == ".app"[k - |s.name|]; }
      }
    }
    AppLiterals();
    AppStemSkipped(s.name, ".js");
    BuildTargetOutputs(s.dest, app, ".js", ".min.js");
    AppSuffix(s.dest + "/build/", s.name, ".js", ".app.js");
    AppSuffix("", s.name, ".min.js", ".app.min.js");
    AppStemSkipped(s.name, ".css");
    BuildTargetOutputs(s.dest, app, ".css", ".min.css");
    AppSuffix(s.dest + "/build/", s.name, ".css", ".app.css");
    AppSuffix("", s.name, ".min.css", ".app.min.css");
  }

  /** Proof helper: `prefix + name + ".app" + ext`, however it is grouped. */
  lemma AppSuffix(prefix: string, name: string, ext: string, tail: string)
    requires tail == ".app" + ext
    ensures prefix + name + tail == prefix + (name + ".app") + ext
    ensures name + tail == name + ".app" + ext
  {
    calc {
      prefix + name + tail;
      prefix + name + (".app" + ext);
      { ConcatAssoc(prefix + name, ".app", ext); }
      prefix + name + ".app" + ext;
      { ConcatAssoc(prefix, name, ".app"); }
      prefix + (name + ".app") + ext;
    }
    ConcatAssoc(name, ".app", ext);
  }

  /** Proof helper for `AppOutputNames`: the `.app` names split into `.app`
      and the extension. */
  lemma AppLiterals()
    ensures ".app.js" == ".app" + ".js" && ".app.min.js" == ".app" + ".min.js"
    ensures ".app.css" == ".app" + ".css" && ".app.min.css" == ".app" + ".min.css"
  {
  }

  /** Proof helper: string concatenation is associative. */
  lemma ConcatAssoc(a: string, b: string, c: string)
    ensures a + (b + c) == a + b + c
  {
  }

  /** Proof helper for `PlanOf` and the output-name lemmas: the extensions
      cannot overlap themselves and their minified forms end with them. */
  lemma ExtensionLiterals()
    ensures NoSelfOverlap(".js") && EndsWith(".min.js", ".js")
    ensures NoSelfOverlap(".css") && EndsWith(".min.css", ".css")
  {
  }

  /** What a task defined by phidias does when gulp runs it. */
  datatype Job =
    | WriteJs(sources: Sources, target: string)
    | WriteCss(sources: Sources, target: string)
    | CopyTo(sources: Sources, dest: string)

  /** The name each task is registered under. */
  function JobName(job: Job): (r: string)
    ensures job.WriteJs? ==> r == "writing JS file " + job.target
    ensures job.WriteCss? ==> r == "writing CSS file " + job.target
    ensures job.CopyTo? ==> r == "copying into " + job.dest
  {
    match job
    case WriteJs(_, target) => "writing JS file " + target
    case WriteCss(_, target) => "writing CSS file " + target
    case CopyTo(_, dest) => "copying into " + dest
  }

  /** gulp keeps one task per name, so two definitions share a name only
      when they are of the same kind and write to the same place. */
  lemma JobNameDistinguishes(a: Job, b: Job)
    requires JobName(a) == JobName(b)
    ensures a.WriteJs? == b.WriteJs? && a.WriteCss? == b.WriteCss? && a.CopyTo? == b.CopyTo?
    ensures a.CopyTo? ==> a.dest == b.dest
    ensures !a.CopyTo? ==> a.target == b.target
  {
    var n := JobName(a);
    assert n[0] == (if a.CopyTo? then 'c' else 'w') == (if b.CopyTo? then 'c' else 'w');
    if a.CopyTo? {
      assert a.dest == n[13..] == b.dest;
    } else {
      assert n[8] == (if a.WriteJs? then 'J' else 'C') == (if b.WriteJs? then 'J' else 'C');
      if a.WriteJs? {
        assert a.target == n[16..] == b.target;
      } else {
        assert a.target == n[17..] == b.target;
      }
    }
  }

  /** A run of a task: its input sub-streams in order, the folder it writes
      to, and the file names it writes there (a copy keeps the matched
      names, so none are listed). */
  datatype Plan = Plan(inputs: seq<Stream>, folder: string, written: seq<string>)

  /** One sub-stream per source, in order: a download of a remote source,
      `gulp.src` of any other. */
  function Streams(sources: seq<string>): (r: seq<Stream>)
    ensures |r| == |sources|
    ensures forall i :: 0 <= i < |sources| ==>
              && (r[i].Download? <==> IsRemote(sources[i]))
              && (r[i] == Download(sources[i]) || r[i] == Src(sources[i]))
  {
    seq(|sources|, i requires 0 <= i < |sources| => StreamOf(sources[i]))
  }

  /** A JS task concatenates into `fileName`, writes it, renames it to
      `minFileName`, minifies and writes again; a CSS task compiles before
      writing; a copy hands its sources to `gulp.src` unclassified. */
  function PlanOf(job: Job): (r: Plan)
    ensures |r.inputs| == |Normalize(job.sources)|
    ensures job.CopyTo? ==> r.folder == job.dest && r.written == []
    ensures job.CopyTo? ==> forall i :: 0 <= i < |r.inputs| ==> r.inputs[i] == Src(Normalize(job.sources)[i])
    ensures !job.CopyTo? ==> forall i :: 0 <= i < |r.inputs| ==> (r.inputs[i].Download? <==> IsRemote(Normalize(job.sources)[i]))
    ensures !job.CopyTo? ==> |r.written| == 2 && '/' !in r.written[0] && EndsWith(job.target, r.written[0])
    ensures job.WriteJs? && EndsWith(r.written[0], ".js") ==> EndsWith(r.written[1], ".js")
    ensures job.WriteCss? && EndsWith(r.written[0], ".css") ==> EndsWith(r.written[1], ".css")
  {
    ExtensionLiterals();
    match job
    case WriteJs(sources, target) =>
      var o := OutputsOf(target, ".js", ".min.js");
      Plan(Streams(Normalize(sources)), o.folder, [o.file, o.minFile])
    case WriteCss(sources, target) =>
      var o := OutputsOf(target, ".css", ".min.css");
      Plan(Streams(Normalize(sources)), o.folder, [o.file, o.minFile])
    case CopyTo(sources, dest) =>
      Plan(seq(|Normalize(sources)|, i requires 0 <= i < |Normalize(sources)| => Src(Normalize(sources)[i])), dest, [])
  }

  /** The watch each definition registers: its local sources, triggering it. */
  function WatchOf(job: Job): (r: (seq<string>, string))
    ensures r.1 == JobName(job)
    ensures forall x :: x in r.0 <==> x in Normalize(job.sources) && !IsRemote(x)
  {
    LocalSourcesKept(Normalize(job.sources));
    (LocalSources(Normalize(job.sources)), JobName(job))
  }

  function Names(jobs: seq<Job>): seq<string> {
    seq(|jobs|, i requires 0 <= i < |jobs| => JobName(jobs[i]))
  }

  function Definitions(jobs: seq<Job>): seq<(string, Job)> {
    seq(|jobs|, i requires 0 <= i < |jobs| => (JobName(jobs[i]), jobs[i]))
  }

  function Watches(jobs: seq<Job>): seq<(seq<string>, string)> {
    seq(|jobs|, i requires 0 <= i < |jobs| => WatchOf(jobs[i]))
  }

  /** The options of `build` once the missing ones are filled in. */
  datatype Settings = Settings(name: string, src: string, dest: string, bowerDir: string)

  /** `name` defaults to `client`, `src` to the caller's directory, `dest`
      to `src/public` and `bowerDir` to `src/bower_components`, each from the
      already-settled `src`. */
  function Defaults(name: Option<string>, src: Option<string>, dest: Option<string>, bowerDir: Option<string>,
                  callerDir: string): (s: Settings)
    ensures s.name == name.GetOr("client")
    ensures s.src == src.GetOr(callerDir)
    ensures s.dest == dest.GetOr(s.src + "/public")
    ensures s.bowerDir == bowerDir.GetOr(s.src + "/bower_components")
  {
    var n := if name.None? then "client" else name.value;
    var sr := if src.None? then callerDir else src.value;
    var d := if dest.None? then sr + "/public" else dest.value;
    var b := if bowerDir.None? then sr + "/bower_components" else bowerDir.value;
    Settings(n, sr, d, b)
  }

  /** The `path/file` entries of `files` that end with `ext`, in order. */
  function Matching(path: string, files: seq<string>, ext: string): (r: seq<string>)
    ensures |r| <= |files|
    ensures forall f :: f in r ==> EndsWith(f, ext)
  {
    if files == [] then []
    else
      var last := files[|files| - 1];
      if EndsWith(last, ext) then
        EndsWithAppend(path + "/", last, ext);
        Matching(path, files[..|files| - 1], ext) + [path + "/" + last]
      else
        Matching(path, files[..|files| - 1], ext)
  }

  /** The glob of a package's global styles, added for every package. */
  function GlobalStyles(path: string): (r: string)
    ensures |r| > |path| && r[..|path| + 1] == path + "/"
    ensures EndsWith(r, ".scss")
  {
    path + "/src/global/**/*.scss"
  }

  /** What one package adds in `build`: its global-styles glob first, then
      its main `.js` and `.css` entries unchanged; `None` is the exception
      thrown when `bower.main` is read on a package whose manifest failed to
      load. */
  function BundlePackage(e: Entry): (r: Option<Files>)
    ensures r.None? <==> e.bower.None?
    ensures r.Some? ==> |r.value.css| >= 1 && r.value.css[0] == GlobalStyles(e.path)
    ensures r.Some? ==> forall f :: f in r.value.js ==> EndsWith(f, ".js")
  {
    if e.bower.None? then None
    else
      var files := MainList(e.bower.value.main);
      Some(Files(Matching(e.path, files, ".js"), [GlobalStyles(e.path)] + Matching(e.path, files, ".css")))
  }

  /** The dependency lists `build` assembles over the packages in order. */
  function Bundle(keys: seq<string>, entries: map<string, Entry>): (r: Option<Files>)
    requires forall k :: k in keys ==> k in entries
    ensures r.Some? ==> |r.value.css| >= |keys|
    ensures r.Some? ==> forall f :: f in r.value.js ==> EndsWith(f, ".js")
  {
    if keys == [] then Some(Files([], []))
    else
      match Bundle(keys[..|keys| - 1], entries)
      case None => None
      case Some(f) =>
        match BundlePackage(entries[keys[|keys| - 1]])
        case None => None
        case Some(g) => Some(Files(f.js + g.js, f.css + g.css))
  }

  /** `build` fails exactly when some resolved package has no manifest. */
  lemma {:induction false} BundleFailsIffUnloaded(keys: seq<string>, entries: map<string, Entry>)
    requires forall k :: k in keys ==> k in entries
    ensures Bundle(keys, entries).None? <==> exists k :: k in keys && entries[k].bower.None?
  {
    if keys != [] {
      var init, last := keys[..|keys| - 1], keys[|keys| - 1];
      BundleFailsIffUnloaded(init, entries);
      assert keys == init + [last];
      if exists k :: k in keys && entries[k].bower.None? {
        var k :| k in keys && entries[k].bower.None?;
        if k != last {
          assert k in init;
        }
      }
    }
  }

  /** Without minified siblings, `getMainFiles`' choice is the plain entry:
      `build`'s extraction is `getMainFiles` with no `.min` substitution. */
  lemma {:induction false} MatchingIsUnminified(path: string, files: seq<string>, ext: string, minExt: string)
    ensures Matching(path, files, ext) == FilesOf(path, files, ext, minExt, {})
  {
    if files != [] {
      MatchingIsUnminified(path, files[..|files| - 1], ext, minExt);
    }
  }

  /** Each package's contribution to `build`: the global-styles glob, then
      what `getMainFiles` would yield if no minified file existed. */
  lemma BundlePackageSpec(e: Entry)
    requires e.bower.Some?
    ensures BundlePackage(e) == Some(Files(PackageOf(e, ".js", ".min.js", {}),
                                           [GlobalStyles(e.path)] + PackageOf(e, ".css", ".min.css", {})))
  {
    MatchingIsUnminified(e.path, MainList(e.bower.value.main), ".js", ".min.js");
    MatchingIsUnminified(e.path, MainList(e.bower.value.main), ".css", ".min.css");
  }

  /** When every manifest loaded, the bundled scripts are the dependency
      `.js` mains, unminified, in package order. */
  lemma {:induction false} BundleJsIsUnminifiedMainFiles(keys: seq<string>, entries: map<string, Entry>)
    requires forall k :: k in keys ==> k in entries && entries[k].bower.Some?
    ensures Bundle(keys, entries).Some?
    ensures Bundle(keys, entries).value.js == Collect(keys, entries, ".js", ".min.js", {})
  {
    if keys != [] {
      var init, last := keys[..|keys| - 1], keys[|keys| - 1];
      BundleJsIsUnminifiedMainFiles(init, entries);
      BundlePackageSpec(entries[last]);
      assert keys == init + [last];
      CollectSnoc(init, last, entries, ".js", ".min.js", {});
    }
  }

  /** The component bundles of `build`. */
  function ComponentJobs(s: Settings): (r: seq<Job>)
    ensures |r| == 2 && r[0].WriteJs? && r[1].WriteCss?
    ensures forall j :: j in r ==> |Normalize(j.sources)| == 2
  {
    [ WriteJs(Many([s.src + "/src/global/**/*.js", s.src + "/src/components/**/*.js"]),
              s.dest + "/build/" + s.name + ".js"),
      WriteCss(Many([s.src + "/src/global/**/*.scss", s.src + "/src/components/**/*.scss"]),
               s.dest + "/build/" + s.name + ".css") ]
  }

  /** The application bundles and the partials copy of `build`. */
  function AppJobs(s: Settings, deps: Files): (r: seq<Job>)
    ensures |r| == 3 && r[0].WriteJs? && r[1].WriteCss? && r[2].CopyTo?
    ensures |Normalize(r[0].sources)| == |deps.js| + 2 && |Normalize(r[1].sources)| == |deps.css| + 2
    ensures Normalize(r[2].sources) == [s.src + "/src/application/states/**/*.html"] && r[2].dest == s.dest + "/partials"
  {
    [ WriteJs(Many(deps.js + [s.dest + "/build/" + s.name + ".js", s.src + "/src/application/**/*.js"]),
              s.dest + "/build/" + s.name + ".app.js"),
      WriteCss(Many(deps.css + [s.dest + "/" + s.name + ".css", s.src + "/src/application/**/*.scss"]),
               s.dest + "/build/" + s.name + ".app.css"),
      CopyTo(One(s.src + "/src/application/states/**/*.html"), s.dest + "/partials") ]
  }

  /** The application script bundle reads the dependency scripts, then the
      components bundle `build` writes, then the application sources; the
      stylesheet bundle reads `dest/name.css`, which is not the components
      stylesheet `dest/build/name.css` that `build` writes. */
  lemma AppSourcesOrder(s: Settings, deps: Files)
    ensures var js := Normalize(AppJobs(s, deps)[0].sources);
      && js[..|deps.js|] == deps.js
      && js[|deps.js|] == ComponentJobs(s)[0].target
      && js[|deps.js| + 1] == s.src + "/src/application/**/*.js"
      && |js| == |deps.js| + 2
    ensures var css := Normalize(AppJobs(s, deps)[1].sources);
      && css[..|deps.css|] == deps.css
      && css[|deps.css|] == s.dest + "/" + s.name + ".css"
      && css[|deps.css|] != ComponentJobs(s)[1].target
      && css[|deps.css| + 1] == s.src + "/src/application/**/*.scss"
      && |css| == |deps.css| + 2
  {
    var css := Normalize(AppJobs(s, deps)[1].sources);
    assert |css[|deps.css|]| + 6 == |ComponentJobs(s)[1].target|;
  }

  /** Definitions, names and watches of consecutive registrations add up. */
  lemma RegistrationsAppend(a: seq<Job>, b: seq<Job>)
    ensures Names(a + b) == Names(a) + Names(b)
    ensures Definitions(a + b) == Definitions(a) + Definitions(b)
    ensures Watches(a + b) == Watches(a) + Watches(b)
  {
  }

  /** Two registrations in a row are one registration of both job lists. */
  lemma RegistrationsChain(t0: seq<string>, t1: seq<string>, t2: seq<string>,
                           d0: seq<(string, Job)>, d1: seq<(string, Job)>, d2: seq<(string, Job)>,
                           w0: seq<(seq<string>, string)>, w1: seq<(seq<string>, string)>, w2: seq<(seq<string>, string)>,
                           a: seq<Job>, b: seq<Job>)
    requires t1 == t0 + Names(a) && d1 == d0 + Definitions(a) && w1 == w0 + Watches(a)
    requires t2 == t1 + Names(b) && d2 == d1 + Definitions(b) && w2 == w1 + Watches(b)
    ensures t2 == t0 + Names(a + b) && d2 == d0 + Definitions(a + b) && w2 == w0 + Watches(a + b)
  {
    RegistrationsAppend(a, b);
    AppendAssoc(t0, Names(a), Names(b));
    AppendAssoc(d0, Definitions(a), Definitions(b));
    AppendAssoc(w0, Watches(a), Watches(b));
  }

  /** Proof helper for `RegistrationsChain`: concatenation is associative. */
  lemma AppendAssoc<T>(x: seq<T>, a: seq<T>, b: seq<T>)
    ensures x + a + b == x + (a + b)
  {
  }

  /** The `mapObject` callback of `build` for one package. */
  method BundlePackageOf(packageData: Entry) returns (r: Option<Files>)
    ensures r == BundlePackage(packageData)
  {
    var css := [GlobalStyles(packageData.path)];
    if packageData.bower.None? {
      return None;
    }
    var path := packageData.path;
    var js, mainCss := MatchingFiles(path, MainList(packageData.bower.value.main));
    r := Some(Files(js, css + mainCss));
  }

  /** The `each` loop of `build` over one package's main entries. */
  method MatchingFiles(path: string, files: seq<string>) returns (js: seq<string>, css: seq<string>)
    ensures js == Matching(path, files, ".js")
    ensures css == Matching(path, files, ".css")
  {
    js, css := [], [];
    var j := 0;
    while j < |files|
      invariant 0 <= j <= |files|
      invariant js == Matching(path, files[..j], ".js")
      invariant css == Matching(path, files[..j], ".css")
    {
      var mainFile := files[j];
      if EndsWith(mainFile, ".js") {
        js := js + [path + "/" + mainFile];
      }
      if EndsWith(mainFile, ".css") {
        css := css + [path + "/" + mainFile];
      }
      assert files[..j + 1][..j] == files[..j];
      j := j + 1;
    }
    assert files[..|files|] == files;
  }

  /** Proof helper for `CollectBundle`: the walk fails once a package
      without a manifest is met. */
  lemma BundleStops(keys: seq<string>, entries: map<string, Entry>, i: nat)
    requires forall k :: k in keys ==> k in entries
    requires i < |keys| && entries[keys[i]].bower.None?
    ensures Bundle(keys, entries).None?
  {
    BundleFailsIffUnloaded(keys, entries);
    assert keys[i] in keys;
  }

  /** Proof helper for `CollectBundle`: one more package in table order. */
  lemma BundleExtend(keys: seq<string>, entries: map<string, Entry>, i: nat, g: Files)
    requires forall k :: k in keys ==> k in entries
    requires i < |keys| && Bundle(keys[..i], entries).Some? && BundlePackage(entries[keys[i]]) == Some(g)
    ensures Bundle(keys[..i + 1], entries)
            == Some(Files(Bundle(keys[..i], entries).value.js + g.js, Bundle(keys[..i], entries).value.css + g.css))
  {
    assert keys[..i + 1][..i] == keys[..i];
  }

  /** The `mapObject` walk of `build` over the packages in order; `None` is
      the exception raised at the first package without a manifest. */
  method CollectBundle(keys: seq<string>, entries: map<string, Entry>) returns (r: Option<Files>)
    requires forall k :: k in keys ==> k in entries
    ensures r == Bundle(keys, entries)
  {
    var js, css := [], [];
    var i := 0;
    while i < |keys|
      invariant 0 <= i <= |keys|
      invariant Bundle(keys[..i], entries) == Some(Files(js, css))
    {
      var package := BundlePackageOf(entries[keys[i]]);
      if package.None? {
        BundleStops(keys, entries, i);
        return None;
      }
      BundleExtend(keys, entries, i, package.value);
      js := js + package.value.js;
      css := css + package.value.css;
      i := i + 1;
    }
    assert keys[..|keys|] == keys;
    r := Some(Files(js, css));
  }

  /** The gulp instance as far as phidias uses it. */
  class GulpRegistry {
    var defined: seq<(string, Job)>
    var watches: seq<(seq<string>, string)>

    constructor ()
      ensures defined == [] && watches == []
    {
      defined := [];
      watches := [];
    }

    /** `gulp.task(name, fn)`. */
    method Task(name: string, job: Job)
      modifies this
      ensures defined == old(defined) + [(name, job)] && watches == old(watches)
    {
      defined := defined + [(name, job)];
    }

    /** `gulp.watch(globs, [trigger])`. */
    method Watch(globs: seq<string>, trigger: string)
      modifies this
      ensures watches == old(watches) + [(globs, trigger)] && defined == old(defined)
    {
      watches := watches + [(globs, trigger)];
    }
  }

  /** The settable fields of the `options` object handed to `build`. */
  class BuildOptions {
    var name: Option<string>
    var src: Option<string>
    var dest: Option<string>
    var bowerDir: Option<string>

    constructor (name: Option<string>, src: Option<string>, dest: Option<string>, bowerDir: Option<string>)
      ensures this.name == name && this.src == src && this.dest == dest && this.bowerDir == bowerDir
    {
      this.name, this.src, this.dest, this.bowerDir := name, src, dest, bowerDir;
    }

    function Settled(callerDir: string): Settings
      reads this
    {
      Defaults(name, src, dest, bowerDir, callerDir)
    }

    /** The defaulting assignments at the start of `build`. */
    method Settle(callerDir: string) returns (s: Settings)
      modifies this
      ensures s == old(Settled(callerDir))
      ensures name == Some(s.name) && src == Some(s.src) && dest == Some(s.dest) && bowerDir == Some(s.bowerDir)
    {
      name := Some(if name.None? then "client" else name.value);
      src := Some(if src.None? then callerDir else src.value);
      dest := Some(if dest.None? then src.value + "/public" else dest.value);
      bowerDir := Some(if bowerDir.None? then src.value + "/bower_components" else bowerDir.value);
      s := Settings(name.value, src.value, dest.value, bowerDir.value);
    }
  }

  class Phidias {
    var tasks: seq<string>
    const gulp: GulpRegistry
    const bower: Bower.Resolver

    constructor (gulp: GulpRegistry, bower: Bower.Resolver)
      ensures tasks == [] && this.gulp == gulp && this.bower == bower
    {
      tasks := [];
      this.gulp, this.bower := gulp, bower;
    }

    /** Since the snapshot `tasks0, defined0, watches0`, exactly `jobs` have
        been defined, named and watched, in order. */
    ghost predicate RegisteredSince(tasks0: seq<string>, defined0: seq<(string, Job)>,
                                    watches0: seq<(seq<string>, string)>, jobs: seq<Job>)
      reads this, gulp
    {
      && tasks == tasks0 + Names(jobs)
      && gulp.defined == defined0 + Definitions(jobs)
      && gulp.watches == watches0 + Watches(jobs)
    }

    /** `task(taskName, task)`: define it with gulp and append its name. */
    method Task(taskName: string, job: Job) returns (r: string)
      modifies this, gulp
      ensures r == taskName
      ensures tasks == old(tasks) + [taskName]
      ensures gulp.defined == old(gulp.defined) + [(taskName, job)] && gulp.watches == old(gulp.watches)
    {
      gulp.Task(taskName, job);
      tasks := tasks + [taskName];
      r := taskName;
    }

    /** `getCombinedStream(sources)`: one sub-stream per source, in source
        order, a download for a remote source and a glob otherwise; their
        ordered merge is `Merge(streams, _)`. */
    method CombinedStream(sources: Sources) returns (streams: seq<Stream>)
      ensures |streams| == |Normalize(sources)|
      ensures forall i :: 0 <= i < |streams| ==>
                (streams[i] == Download(Normalize(sources)[i]) <==> IsRemote(Normalize(sources)[i]))
      ensures forall i :: 0 <= i < |streams| ==>
                (streams[i] == Src(Normalize(sources)[i]) <==> !IsRemote(Normalize(sources)[i]))
      ensures streams == Streams(Normalize(sources))
    {
      var list := if sources.One? then [sources.source] else sources.list;
      streams := [];
      var cont := 0;
      while cont < |list|
        invariant 0 <= cont <= |list|
        invariant |streams| == cont
        invariant forall i :: 0 <= i < cont ==> streams[i] == StreamOf(list[i])
      {
        var source := list[cont];
        if Prefix(source, 4) == "http" {
          streams := streams + [Download(source)];
        } else {
          streams := streams + [Src(source)];
        }
        cont := cont + 1;
      }
    }

    /** `watch(sources, triggerTask)`: watch the local sources only. */
    method Watch(sources: Sources, triggerTask: string)
      modifies gulp
      ensures gulp.watches == old(gulp.watches) + [(LocalSources(Normalize(sources)), triggerTask)]
      ensures gulp.defined == old(gulp.defined)
    {
      var list := if sources.One? then [sources.source] else sources.list;
      var watchable := [];
      var cont := 0;
      while cont < |list|
        invariant 0 <= cont <= |list|
        invariant watchable == LocalSources(list[..cont])
      {
        var source := list[cont];
        if Prefix(source, 4) != "http" {
          watchable := watchable + [source];
        }
        assert list[..cont + 1][..cont] == list[..cont];
        cont := cont + 1;
      }
      assert list[..|list|] == list;
      gulp.Watch(watchable, triggerTask);
    }

    /** What a task defined by `js`/`css`/`copy` does when gulp runs it. */
    method Run(job: Job) returns (plan: Plan)
      ensures plan == PlanOf(job)
    {
      match job {
        case WriteJs(sources, target) =>
          var targetFolder := Dirname(target);
          var fileName := Basename(target);
          var minFileName := ReplaceFirst(fileName, ".js", ".min.js");
          var streams := CombinedStream(sources);
          plan := Plan(streams, targetFolder, [fileName, minFileName]);
        case WriteCss(sources, target) =>
          var targetFolder := Dirname(target);
          var fileName := Basename(target);
          var minFileName := ReplaceFirst(fileName, ".css", ".min.css");
          var streams := CombinedStream(sources);
          plan := Plan(streams, targetFolder, [fileName, minFileName]);
        case CopyTo(sources, dest) =>
          var list := Normalize(sources);
          plan := Plan(seq(|list|, i requires 0 <= i < |list| => Src(list[i])), dest, []);
      }
    }

    /** `define`: the shared body of `js`, `css` and `copy`. */
    method Define(job: Job)
      modifies this, gulp
      ensures RegisteredSince(old(tasks), old(gulp.defined), old(gulp.watches), [job])
    {
      var newTask := Task(JobName(job), job);
      Watch(job.sources, newTask);
    }

    /** `js(sources, target)`. */
    method Js(sources: Sources, target: string)
      modifies this, gulp
      ensures RegisteredSince(old(tasks), old(gulp.defined), old(gulp.watches), [WriteJs(sources, target)])
    {
      Define(WriteJs(sources, target));
    }

    /** `css(sources, target)`. */
    method Css(sources: Sources, target: string)
      modifies this, gulp
      ensures RegisteredSince(old(tasks), old(gulp.defined), old(gulp.watches), [WriteCss(sources, target)])
    {
      Define(WriteCss(sources, target));
    }

    /** `copy(sources, target)`. */
    method Copy(sources: Sources, target: string)
      modifies this, gulp
      ensures RegisteredSince(old(tasks), old(gulp.defined), old(gulp.watches), [CopyTo(sources, target)])
    {
      Define(CopyTo(sources, target));
    }

    /** `build(options)`: settle the options, define the component bundles,
        resolve the bower packages of `src` and define the application
        bundles and the partials copy.  `ok` is false where the source
        throws: the root manifest is missing, or a resolved package has
        none; what was defined before that stays defined. */
    method Build(options: BuildOptions, callerDir: string, disk: map<string, Manifest>, ghost rank: string -> nat)
      returns (ok: bool)
      requires bower.packages.Valid()
      requires Acyclic(bower.EnvOf(disk, options.Settled(callerDir).bowerDir), rank)
      modifies this, gulp, options, bower.packages
      ensures var s := old(options.Settled(callerDir));
        && options.name == Some(s.name) && options.src == Some(s.src)
        && options.dest == Some(s.dest) && options.bowerDir == Some(s.bowerDir)
      ensures ResolvedSince(old(options.Settled(callerDir)), disk, rank, old(bower.packages.Value()))
      ensures ok == AppDependencies(old(options.Settled(callerDir)), disk).Some?
      ensures var s := old(options.Settled(callerDir));
        RegisteredSince(old(tasks), old(gulp.defined), old(gulp.watches),
                        if ok then ComponentJobs(s) + AppJobs(s, AppDependencies(s, disk).value) else ComponentJobs(s))
    {
      var s := options.Settle(callerDir);
      ok := BuildSettled(s, disk, rank);
    }

    /** What resolving the packages of `s.src` made of the table `packages0`:
        nothing when the root manifest is missing, `getDependencies`' walk
        over its dependencies otherwise. */
    ghost predicate ResolvedSince(s: Settings, disk: map<string, Manifest>, rank: string -> nat, packages0: Table)
      reads bower, bower.packages
    {
      && bower.packages.Valid()
      && var root := s.src + "/bower.json";
      if root !in disk then bower.packages.Value() == packages0
      else
        && Acyclic(bower.EnvOf(disk, s.bowerDir), rank)
        && bower.packages.Value() == VisitAll(bower.EnvOf(disk, s.bowerDir), rank, packages0, disk[root].dependencies)
    }

    /** The dependency lists `build` assembles from the resolved packages;
        `None` where it throws. */
    function AppDependencies(s: Settings, disk: map<string, Manifest>): (r: Option<Files>)
      requires bower.packages.Valid()
      reads bower, bower.packages
      ensures s.src + "/bower.json" !in disk ==> r.None?
      ensures s.src + "/bower.json" in disk ==>
                (r.None? <==> exists k :: k in bower.packages.keys && bower.packages.entries[k].bower.None?)
    {
      if s.src + "/bower.json" !in disk then None
      else
        BundleFailsIffUnloaded(bower.packages.keys, bower.packages.entries);
        Bundle(bower.packages.keys, bower.packages.entries)
    }

    /** `build` once the options are settled to `s`. */
    method BuildSettled(s: Settings, disk: map<string, Manifest>, ghost rank: string -> nat) returns (ok: bool)
      requires bower.packages.Valid()
      requires Acyclic(bower.EnvOf(disk, s.bowerDir), rank)
      modifies this, gulp, bower.packages
      ensures ResolvedSince(s, disk, rank, old(bower.packages.Value()))
      ensures ok == AppDependencies(s, disk).Some?
      ensures RegisteredSince(old(tasks), old(gulp.defined), old(gulp.watches),
                              if ok then ComponentJobs(s) + AppJobs(s, AppDependencies(s, disk).value) else ComponentJobs(s))
    {
      ghost var t0, d0, w0 := tasks, gulp.defined, gulp.watches;
      DefineComponents(s);
      var mainFiles := BundleDependencies(s, disk, rank);
      if mainFiles.None? {
        return false;
      }
      ghost var t1, d1, w1 := tasks, gulp.defined, gulp.watches;
      DefineApp(s, mainFiles.value);
      RegistrationsChain(t0, t1, tasks, d0, d1, gulp.defined, w0, w1, gulp.watches,
                         ComponentJobs(s), AppJobs(s, mainFiles.value));
      ok := true;
    }

    /** The dependency lists of `build`: resolve the packages of `s.src`
        and collect their bundle entries. */
    method BundleDependencies(s: Settings, disk: map<string, Manifest>, ghost rank: string -> nat)
      returns (mainFiles: Option<Files>)
      requires bower.packages.Valid()
      requires Acyclic(bower.EnvOf(disk, s.bowerDir), rank)
      modifies bower.packages
      ensures ResolvedSince(s, disk, rank, old(bower.packages.Value()))
      ensures mainFiles == AppDependencies(s, disk)
    {
      var dependencies := bower.GetDependencies(Some(s.src), Some(s.bowerDir), disk, rank);
      if dependencies.None? {
        return None;
      }
      mainFiles := CollectBundle(dependencies.value.keys, dependencies.value.entries);
    }

    /** The component bundles of `build`. */
    method DefineComponents(s: Settings)
      modifies this, gulp
      ensures RegisteredSince(old(tasks), old(gulp.defined), old(gulp.watches), ComponentJobs(s))
    {
      var jobs := ComponentJobs(s);
      Js(Many([s.src + "/src/global/**/*.js", s.src + "/src/components/**/*.js"]), s.dest + "/build/" + s.name + ".js");
      Css(Many([s.src + "/src/global/**/*.scss", s.src + "/src/components/**/*.scss"]), s.dest + "/build/" + s.name + ".css");
      RegistrationsAppend([jobs[0]], [jobs[1]]);
      assert [jobs[0]] + [jobs[1]] == jobs;
    }

    /** The application bundles of `build` over the dependency lists
        `mainFiles`, then the partials copy. */
    method DefineApp(s: Settings, mainFiles: Files)
      modifies this, gulp
      ensures RegisteredSince(old(tasks), old(gulp.defined), old(gulp.watches), AppJobs(s, mainFiles))
    {
      var app := AppJobs(s, mainFiles);
      ghost var t0, d0, w0 := tasks, gulp.defined, gulp.watches;
      Js(Many(mainFiles.js + [s.dest + "/build/" + s.name + ".js", s.src + "/src/application/**/*.js"]),
         s.dest + "/build/" + s.name + ".app.js");
      ghost var t1, d1, w1 := tasks, gulp.defined, gulp.watches;
      Css(Many(mainFiles.css + [s.dest + "/" + s.name + ".css", s.src + "/src/application/**/*.scss"]),
          s.dest + "/build/" + s.name + ".app.css");
      ghost var t2, d2, w2 := tasks, gulp.defined, gulp.watches;
      RegistrationsChain(t0, t1, t2, d0, d1, d2, w0, w1, w2, [app[0]], [app[1]]);
      // move partials into the public folder
      Copy(One(s.src + "/src/application/states/**/*.html"), s.dest + "/partials");
      RegistrationsChain(t0, t2, tasks, d0, d2, gulp.defined, w0, w2, gulp.watches, [app[0]] + [app[1]], [app[2]]);
      assert [app[0]] + [app[1]] + [app[2]] == app;
    }
  }
}
