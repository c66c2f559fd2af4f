# phidias-gulp: bower resolution and build-task wiring in Dafny

This project models the two halves of the phidias gulp helper.

**The bower helper** (`phidias-bower.js`) holds a shared, insertion-ordered
`packages` table and an `exclude` list.
- `addPackage` first visits a package's declared dependencies, depth first and
  in declaration order. Only then does it record `{path, bower}` for the
  package, and only if the package is not recorded yet.
- `getDependencies` runs `addPackage` over the dependencies of the root
  `bower.json`.
- `getMainFiles` walks the table in order and turns each package's `main`
  entries into script and stylesheet paths. It prefers a `.min` sibling when
  that file exists.

**The gulp helper** (`phidias-gulp.js`) defines gulp tasks.
- `task` defines a task and records its name.
- `getCombinedStream` turns each source into a download (`http…`) or a local
  glob, and merges the results in source order.
- `watch` watches the local sources of a task.
- `js`, `css` and `copy` define a bundle-writing task and its watch.
- `build` fills in default options, defines the component bundles, resolves the
  bower packages of the project, and defines the application bundles and the
  partials copy.

The Dafny modules follow that structure:

- `Text` covers the JavaScript string built-ins the scripts use, on
  `seq<char>`: `indexOf`, `substring(0, n)`, first-occurrence `replace` with a literal replacement,
  `endsWith`, `dirname` and `basename`.
- `Resolution` is the resolver as functions on a `Table` value. `Visit` is one
  `addPackage`, and `VisitAll` is a run over a list of names. The lemmas prove:
  - closure: exactly the packages reachable without passing through an
    excluded name get recorded;
  - dependencies-first order;
  - the entry recorded for each package;
  - pruning by `exclude`;
  - idempotence of a repeated run.
- `Extraction` gives the result of `getMainFiles` as functions, with lemmas on
  membership, file kinds and the minified-file choice.
- `Bower` has the `packages` table and the resolver as classes.
  - `AddPackage`, `GetDependencies` and `GetMainFiles` update the shared table
    in place.
  - They are proved against `Visit`, `VisitAll` and `MainFiles`.
- `Gulp` has the gulp instance as a registry of `gulp.task` and `gulp.watch`
  calls, the `options` object of `build`, and the `phidias` object as classes.
  - Each defined task is described by a `Job`. `PlanOf` says what a job does
    when gulp runs it: its input sub-streams in order, the output folder, and
    the files it writes there.
  - `Build` is proved to register exactly the component jobs. When the source
    does not throw, it also registers the application jobs, in order.

Resolution needs the manifest graph to be acyclic. `addPackage` tests for
presence only after it recurses, so on a cycle the recursion goes on until the
JavaScript engine's stack overflows. The recursive call sits inside the
`try` of phidias-bower.js:81-93, so the overflow error is caught and logged,
and the frames below then record their names; what ends up in the table then
depends on the engine's stack limit. The model does not follow that: it takes
acyclicity as a precondition, passed as a ghost `rank` that decreases along
every dependency edge.

The application stylesheet of `build` reads `dest/name.css`. That is not the
components stylesheet `dest/build/name.css`, which `build` writes. The model
keeps this as written (`Gulp.AppSourcesOrder`).

Some inputs are parameters of the model:
- The manifests `require` can load are a map from path to manifest. A missing
  path stands for a load that throws.
- `fs.existsSync` is a set of existing paths.
- The directory of the calling gulpfile is a string parameter.

## Model

| member | source | states |
|---|---|---|
| Text.Prefix | phidias-gulp.js:81 | `substring(0, 4)`: the first four characters, or the whole string when shorter |
| Text.EndsWith | phidias-bower.js:49 | underscore.string `endsWith`: the string is some string followed by the suffix |
| Text.IndexOf | phidias-bower.js:50 | the first index where the pattern occurs, or -1 when it occurs nowhere |
| Text.ReplaceFirstSpec | phidias-bower.js:50 | `replace` with a string pattern rewrites only the first occurrence, and leaves a string without one unchanged |
| Text.ReplaceFirst | phidias-bower.js:50 | `replace` with a string pattern: without an occurrence the string comes back unchanged; otherwise the length changes by the difference between replacement and pattern, and everything before the first occurrence is kept |
| Text.ReplaceFirstKeepsSuffix | phidias-bower.js:49-50 | replacing the first `.js` of a name that ends in `.js` by `.min.js` gives a name that still ends in `.js` |
| Text.LastSlash | phidias-gulp.js:117-118 | the index of the last `/`, with no `/` after it, or -1 |
| Text.SplitPath | phidias-gulp.js:117-118 | for a path with an inner separator, dirname + `/` + basename is the path, and the basename has no separator |
| Text.Dirname | phidias-gulp.js:117 | `path.dirname`: `.` for a path without `/`; otherwise `/` or the part of the path before one of its `/` |
| Text.Basename | phidias-gulp.js:118 | `path.basename`: a `/`-free ending of the path; the whole path when it has no `/`, and otherwise exactly the part after its last `/` |
| Resolution.Insert | phidias-bower.js:95-100 | adds `name` with its entry only when absent; existing entries keep their values |
| Resolution.Children | phidias-bower.js:82-89 | the names `addPackage` recurses into are the `dependencies` keys of `bowerDir/name/bower.json`, and none when that manifest cannot be loaded |
| Resolution.EntryFor | phidias-bower.js:95-99 | the recorded entry has path `bowerDir/name` and carries the manifest exactly when it can be loaded |
| Resolution.Load | phidias-bower.js:82 | `require` of a manifest path gives the manifest stored there, and fails exactly when there is none |
| Resolution.Visit | phidias-bower.js:74-101 | `addPackage` extends the table: old keys keep their positions and entries, and distinct keys stay distinct |
| Resolution.VisitAll | phidias-bower.js:23-25 | the root loop extends the table the same way |
| Resolution.Reach | phidias-bower.js:76-89 | the reachable set has no excluded name, and holds the start name unless it is excluded |
| Resolution.VisitKeys | phidias-bower.js:74-101 | the keys after a visit are the old keys plus exactly the packages reachable from the name |
| Resolution.ExcludedNeverRecorded | phidias-bower.js:76-78 | an excluded name is recorded after a run if and only if it was recorded before |
| Resolution.ExcludedPrunesSubtree | phidias-bower.js:76-78 | visiting an excluded name changes nothing, and nothing is reachable through it |
| Resolution.UnloadedIsLeaf | phidias-bower.js:81-99 | a package whose manifest fails to load is recorded with `bower` unset, and its dependencies are not visited |
| Resolution.VisitRecorded | phidias-bower.js:95-100 | every entry holds `bowerDir/name` and the manifest loaded from there |
| Resolution.InsertDepsFirst | phidias-bower.js:95-100 | recording a package after its dependencies keeps every dependency before its dependent |
| Resolution.VisitDepsFirst | phidias-bower.js:84-100 | after a visit, every non-excluded dependency of a recorded package sits at an earlier position |
| Resolution.VisitSaturated | phidias-bower.js:95 | a visit whose reachable packages are all recorded leaves the table unchanged |
| Resolution.RepeatedRunAddsNothing | phidias-bower.js:7-27 | with the shared table, a second `getDependencies` over the same roots changes nothing |
| Resolution.VisitAllAppend | phidias-bower.js:23-25 | roots are visited one after another: a run over `a + b` is a run over `a`, then over `b` |
| Resolution.ResolveFromEmpty | phidias-bower.js:10-28 | from the empty table, the result has distinct keys, dependencies first, recorded entries, and exactly the reachable packages |
| Resolution.ArrayMemberNameDropped | phidias-bower.js:95 | a package named like an inherited array member (`map`, `push`, `keys`, `__proto__`) is never recorded as written, but is recorded by a membership test |
| Resolution.InsertAsWritten | phidias-bower.js:95-100 | the insertion as written: the name ends up recorded exactly when it was recorded before or is not an array member name; an array member name leaves the table as it was; existing entries are kept |
| Extraction.ConcatAppend | phidias-bower.js:39 | the per-package contributions concatenate in table order |
| Extraction.MainList | phidias-bower.js:45 | an absent `main` gives no entries, a string `main` is a one-element list, and an array is kept as it is |
| Extraction.FileOf | phidias-bower.js:49-65 | one main entry yields at most one path, one exactly when it ends with the extension, and that path is on disk or is `path/mainFile` |
| Extraction.Collect | phidias-bower.js:39-67 | the list of one kind over the packages in table order; packages without a loaded manifest contribute nothing |
| Extraction.Pick | phidias-bower.js:50-55 | the pushed path is either `path/mainFile` or `path/` followed by the minified name; the minified one whenever it exists on disk; and it is on disk or is `path/mainFile` |
| Extraction.FilesOf | phidias-bower.js:47-67 | one package's main entries contribute at most one path each |
| Extraction.PackageOf | phidias-bower.js:41-67 | a package without a loaded manifest contributes nothing; otherwise at most one path per main entry |
| Extraction.CollectMembership | phidias-bower.js:39-67 | a path is in the list of a kind if and only if some recorded package yields it from one of its main entries |
| Extraction.CollectEndsWith | phidias-bower.js:49-65 | every chosen path of kind `.js` or `.css` ends with that extension, minified or not |
| Extraction.MainFiles | phidias-bower.js:39-71 | `getMainFiles` over a resolved table puts only `.js` paths in `js` and only `.css` paths in `css` |
| Extraction.NoMainContributesNothing | phidias-bower.js:41-43 | a package without a loaded manifest or without `main` contributes nothing |
| Extraction.SingleMainIsOneEntry | phidias-bower.js:45 | a string `main` acts as the one-element array holding it |
| Extraction.MinifiedPreferred | phidias-bower.js:49-56 | for `stem.js`, the path `path/stem.min.js` is taken when it exists, and `path/stem.js` otherwise |
| Extraction.FirstOccurrenceRewritten | phidias-bower.js:50 | only the first `.js` is rewritten, so `jquery.jsonp.js` gives the candidate `jquery.min.jsonp.js` |
| Bower.PackageTable.constructor | phidias-bower.js:7 | `packages` starts empty |
| Bower.PackageTable.InsertIfAbsent | phidias-bower.js:95-100 | keeps the table well formed, and the table becomes `Insert(old table, name, entry)` |
| Bower.Resolver.constructor | phidias-bower.js:7-8 | `packages` and `exclude` start empty, and the table is well formed |
| Bower.DirOf | phidias-bower.js:12-14 | `dir` defaults to `.` |
| Bower.BowerDirOf | phidias-bower.js:16-18 | `bowerDir` defaults to `dir/bower_components`, and a supplied one is kept |
| Bower.Resolver.AddPackage | phidias-bower.js:74-101 | keeps the table well formed and updates it to `Visit(old table, name)` |
| Bower.Resolver.GetDependencies | phidias-bower.js:10-28 | keeps the table well formed; with the root manifest missing: the failure result and an unchanged table; otherwise the table becomes `VisitAll` over the root dependencies, and the table is returned |
| Bower.Resolver.AddAll | phidias-bower.js:23-25 | the loop of `getDependencies` keeps the table well formed and leaves the table that resolving the root dependencies in order gives |
| Bower.Resolver.GetMainFiles | phidias-bower.js:30-72 | the failure result when the root manifest is missing; otherwise the table after the run and `MainFiles` of it |
| Bower.PackageMainFiles | phidias-bower.js:39-67 | the loop over one package's main entries yields its `.js` and `.css` contributions |
| Bower.MainFileOf | phidias-bower.js:49-65 | one main entry yields the minified path when it exists, else its own path, and nothing when it lacks the extension |
| Bower.CollectMainFiles | phidias-bower.js:39-71 | the walk over the table yields `MainFiles` of the table |
| Gulp.IsRemote | phidias-gulp.js:81 | a source is remote exactly when its first four characters are `http`; shorter sources are local |
| Gulp.Normalize | phidias-gulp.js:71-73 | a single source becomes the one-element list; a list is kept as it is |
| Gulp.StreamOf | phidias-gulp.js:81-85 | a remote source becomes a download, any other a `gulp.src` stream of it |
| Gulp.Streams | phidias-gulp.js:77-87 | one sub-stream per source in order, a download exactly for the remote ones and `gulp.src` for the rest |
| Gulp.Merge | phidias-gulp.js:89 | the merged stream holds exactly the records of its sources |
| Gulp.MergeKeepsSourceOrder | phidias-gulp.js:89 | the records of the i-th source come after those of every earlier source and before those of every later one |
| Gulp.LocalSourcesMembership | phidias-gulp.js:100-106 | a source is watched if and only if it is given and is not remote |
| Gulp.LocalSourcesAppend | phidias-gulp.js:100-106 | the watch filter distributes over concatenation, so watched sources keep their relative order |
| Gulp.LocalSources | phidias-gulp.js:100-106 | the watched sources are no more than the given ones, and none of them is remote |
| Gulp.JobName | phidias-gulp.js:115-158 | a task is named `writing JS file <target>`, `writing CSS file <target>` or `copying into <dest>` |
| Gulp.JobNameDistinguishes | phidias-gulp.js:115-158 | gulp keeps one task per name, and two definitions share a name only when they are of the same kind and write to the same place |
| Gulp.WatchOf | phidias-gulp.js:94-110 | the watch a definition registers triggers its task and watches exactly its sources that are not remote |
| Gulp.OutputsOf | phidias-gulp.js:117-119 | the written file name is the part of the target after its last `/`, or the whole target without one; when the minified form ends in the extension, so does the minified file name |
| Gulp.PlanOf | phidias-gulp.js:113-164 | one input stream per source; `copy` reads every source with `gulp.src` and writes into `dest`; `js`/`css` download exactly the remote sources and write a `/`-free ending of the target and its minified name, which keeps the extension |
| Gulp.SlashBeforeName | phidias-gulp.js:117-118 | `dir/name` has dirname `dir` and basename `name` |
| Gulp.PlainTargetOutputs | phidias-gulp.js:117-119 | a target `dir/stem.js` writes `stem.js` and `stem.min.js` into `dir` |
| Gulp.ComponentOutputNames | phidias-gulp.js:174-182 | for a `name` with no `.` and no `/`, the component bundles are written into `dest/build` as `name.js`/`name.min.js` and `name.css`/`name.min.css` |
| Gulp.AppOutputNames | phidias-gulp.js:216-224 | for a `name` with no `.` and no `/`, the application bundles are written into `dest/build` as `name.app.js`/`name.app.min.js` and `name.app.css`/`name.app.min.css` |
| Gulp.AppSourcesOrder | phidias-gulp.js:216-224 | app script sources: the dependency scripts, then the components bundle, then the application glob. The app stylesheet reads `dest/name.css`, not the components target |
| Gulp.Defaults | phidias-gulp.js:168-171 | supplied options are kept; `client`, the caller's directory, `src/public` and `src/bower_components` fill the missing ones |
| Gulp.BundleFailsIffUnloaded | phidias-gulp.js:193-197 | `build`'s walk throws exactly when some resolved package has no manifest |
| Gulp.Matching | phidias-gulp.js:203-211 | the selected main entries of one kind are at most the given ones, and each ends with the extension |
| Gulp.BundlePackage | phidias-gulp.js:193-213 | the callback throws exactly when the package has no manifest; otherwise its global styles come first among its stylesheets, and its scripts all end in `.js` |
| Gulp.GlobalStyles | phidias-gulp.js:195 | the global-styles glob lies under the package's folder and matches `.scss` files |
| Gulp.Bundle | phidias-gulp.js:193-214 | on success there is at least one stylesheet per package, and every script ends in `.js` |
| Gulp.ComponentJobs | phidias-gulp.js:173-182 | the component part of `build` is a `js` task and then a `css` task, each over two sources |
| Gulp.AppJobs | phidias-gulp.js:216-227 | the application part of `build` is a `js`, a `css` and a `copy` task; the bundles read the dependency lists plus two sources; the copy moves `states/**/*.html` into `dest/partials` |
| Gulp.MatchingIsUnminified | phidias-gulp.js:203-211 | `build`'s selection of main entries is `getMainFiles`' selection with no minified file on disk |
| Gulp.BundlePackageSpec | phidias-gulp.js:193-213 | each package adds its global-styles glob, then its unminified `.js` and `.css` main entries |
| Gulp.BundleJsIsUnminifiedMainFiles | phidias-gulp.js:193-214 | when every manifest loaded, the bundled scripts are the dependency `.js` mains, unminified, in table order |
| Gulp.CollectBundle | phidias-gulp.js:193-214 | the `mapObject` walk of `build` computes `Bundle` over the table |
| Gulp.BundlePackageOf | phidias-gulp.js:193-213 | the callback for one package computes its contribution, or the failure for a package without a manifest |
| Gulp.MatchingFiles | phidias-gulp.js:203-213 | the loop over one package's main entries keeps the `.js` ones and the `.css` ones as `Matching` selects them |
| Gulp.GulpRegistry.Task | phidias-gulp.js:64 | appends the definition and leaves the watches unchanged |
| Gulp.GulpRegistry.Watch | phidias-gulp.js:108 | appends the watch and leaves the definitions unchanged |
| Gulp.BuildOptions.Settle | phidias-gulp.js:168-171 | every option field is set to its settled value, and that value is returned |
| Gulp.Phidias.constructor | phidias-gulp.js:59-61 | the task list starts empty |
| Gulp.Phidias.Task | phidias-gulp.js:63-67 | defines the task with gulp, appends its name to `tasks`, and returns the name |
| Gulp.Phidias.CombinedStream | phidias-gulp.js:69-91 | one sub-stream per source in source order: a download if and only if the source is remote, a local glob if and only if it is not |
| Gulp.Phidias.Watch | phidias-gulp.js:94-110 | registers one watch of the local sources, in order, triggering the task |
| Gulp.Phidias.Run | phidias-gulp.js:115-127 | a JS or CSS task reads its combined stream and writes `basename` and its `.min` name into `dirname` of the target |
| Gulp.Phidias.Define | phidias-gulp.js:113-164 | defines exactly one named task and its watch |
| Gulp.Phidias.Js | phidias-gulp.js:113-132 | defines `writing JS file target` and watches its local sources |
| Gulp.Phidias.Css | phidias-gulp.js:134-154 | defines `writing CSS file target` and watches its local sources |
| Gulp.Phidias.Copy | phidias-gulp.js:156-164 | defines `copying into target` and watches its local sources |
| Gulp.Phidias.Build | phidias-gulp.js:166-229 | settles the options and resolves the packages of `src`. It registers the component jobs, then, unless it throws, the application jobs and the partials copy, in order |
| Gulp.Phidias.BuildSettled | phidias-gulp.js:173-227 | with settled options: the same registrations, and failure exactly when the dependency lists cannot be built |
| Gulp.Phidias.AppDependencies | phidias-gulp.js:186-214 | the dependency lists fail when the root manifest is missing and otherwise exactly when some resolved package has no manifest |
| Gulp.Phidias.BundleDependencies | phidias-gulp.js:186-214 | resolves the packages of `src` into the shared table and returns `build`'s dependency lists, or the failure |
| Gulp.Phidias.DefineComponents | phidias-gulp.js:173-182 | registers the component script and stylesheet jobs, in order |
| Gulp.Phidias.DefineApp | phidias-gulp.js:216-227 | registers the application script and stylesheet jobs, then the partials copy |

## Findings

| source | as written | input that shows it | evidently intended | confidence | as-written member | corrected member |
|---|---|---|---|---|---|---|
| phidias-bower.js:95 | `packages` is an array, and the presence test is `packages[name] === undefined` | a dependency named `map` (or `push`, `length`, `filter`): the lookup finds the inherited array member, so the package is never recorded and its main files are never bundled | record every package that is not yet recorded | not executed | Resolution.ArrayMemberNameDropped | Resolution.Insert |

## Left out

- The default task, `gulp.task('default', phidias.tasks)` (phidias-gulp.js:233), is left out. It is registered once and aliases the live `tasks` list, which the model keeps as `Phidias.tasks`.
- The object returned by the module (phidias-gulp.js:235-239) is left out. It only re-exports `js`, `css` and `build`.
- The stream stages are opaque: concatenation, Sass, uglify, minify-css, rename, `gulp.dest`, the download plugin, and the internals of the ordered merge. A task's run is described by its ordered sub-streams and the names it writes; `Merge` states the ordering the merge promises.
- `logError`, the `on('error')` handlers and `console.log` (phidias-gulp.js:244-248, phidias-bower.js:92) are left out. `logError` prints the error and also emits `end`, so a failing stage (Sass or uglify) ends its stream early; the model has no stream errors and does not capture that.
- Watch events and task scheduling at run time are not modelled; only the registrations are.
- `module.parent.filename` (phidias-gulp.js:169) becomes the `callerDir` parameter.
- `require` is modelled as a map from path to manifest. Its module cache, its resolution of relative paths, and JSON parse errors are not modelled, apart from a throw as an absent path.
- `fs.existsSync` is modelled as a set of existing paths.
- Dependency versions (the values of `dependencies`) are not modelled; only the keys are read.
- Resolution.Visit: the manifest graph must be acyclic. The source has no cycle guard (its presence test comes after the recursion), so on a cycle it recurses until the stack overflows; the `try`/`catch` at phidias-bower.js:81-93 swallows that error and the table then depends on the engine's stack limit, which the model does not capture.
- Resolution.Visit: it records a package with the intended membership test `Insert`, not with `InsertAsWritten`. So `AddPackage`, `GetDependencies` and `GetMainFiles` model the corrected program: a dependency named like an array member is recorded, where the source skips it (see "## Findings").
- Resolution.InsertAsWritten: `ArrayMemberNames` holds the inherited names of an engine implementing ECMAScript 2016 (Node 6 and later): the `Array.prototype` and `Object.prototype` members, the legacy accessor helpers and `__proto__`. Names added to `Array.prototype` later (`flat`, `flatMap`, `at`, `findLast`, `findLastIndex`, `toReversed`, `toSorted`, `toSpliced`, `with`) are not in it, so on newer engines the model records those names although the source skips them; on engines older than ECMAScript 2015 the reverse holds for `keys`, `values`, `entries`, `find`, `findIndex`, `fill`, `copyWithin` and `includes`.
- `Object.keys` puts integer-like keys first; the model keeps pure insertion order. Package names that look like array indices are therefore not modelled.
- The options of `build` and the arguments of `getDependencies` are tested with `== undefined`, which also matches `null`; `main` and `bower` are tested with `=== undefined`. The model has one `None` case for an unset value, so a `null` option is not distinguished from an absent one, and a `null` `main` is not modelled (it would contribute nothing in either test).
- Text.ReplaceFirst: the replacement is inserted literally. JavaScript's `replace` also expands `$&`, `$$`, `` $` `` and `$'` in a string replacement; that is not modelled. The only replacements in the source, `.min.js` and `.min.css`, contain no `$`.
- Text.Dirname: trailing separators and Node's other normalisations in `path.dirname`/`path.basename` are not modelled.
- Gulp.Phidias.Build: a throw is modelled as the result `false`. The state at that point is kept: component jobs defined and packages resolved. The exception object itself is not modelled.
