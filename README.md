# laravel-mix-manifest-paths, modelled in Dafny

This project models the compilation engine of the laravel-mix plugin
`laravel-mix-manifest-paths`. The plugin compiles text files written as
templates. In each template, the `mix('<public url>')` helper resolves an
asset's public URL through the laravel-mix manifest. Templates may refer to
the outputs of other templates, so the plugin does three things:

- it keeps a dependency graph between entries, keyed by public URL;
- it compiles entries in topological order (dependencies first);
- it writes each output and updates the in-memory manifest, with or without
  content-hash versioning.

When a source file changes, the plugin refreshes that entry's edges and
recompiles the entry together with all of its transitive dependants.

The model also covers the pure rules the engine relies on:

- the `mix` resolver;
- entry resolution and last-wins de-duplication;
- the clearable memo cache;
- formatting of validator errors and the argument guards;
- the configuration getters;
- the plugin object that collects registrations.

## Modules

Each source file becomes one Dafny module, in the form that source file
takes.

- `Wrappers` (wrappers.dfy): Option, Result and Outcome.
- `Paths` (paths.dfy): the path and glob operations the core calls, as function-valued inputs.
- `Options` (options.dfy): the option records, the defaults `{{`, `}}` and `flatten: true`, and lodash `merge` over them.
- `Config` (config.dfy): the getters of `src/config.ts`, as functions of a laravel-mix state record.
- `TemplateFuncs` (template_funcs.dfy): `mix` and `url-join`.
- `Templates` (templates.dfy):
  - a compiled template, as a list of segments `Lit(text) | Interp(id) | Escape(id)`;
  - rendering;
  - lodash's HTML escape and its inverse.
- `Helpers` (helpers.dfy):
  - entries, `resolveRawEntry` and `resolveRawEntries`;
  - `cacheClearableMemoize`, as the class `Memo` (a `map` field, `Get`, `Clear`).
- `Validation` (validation.dfy):
  - the schemas, as predicates over a JavaScript value datatype;
  - `String.split` and `JSON.stringify` on strings;
  - `getErrorPropertyPath` (a method with a loop, proved against a function), `getAssertionMessage` and the guards.
- `DepGraphs` (dep_graph.dfy): the `dependency-graph` library, re-specified as the class `DepGraph`.
  - It has `nodes` (a map) and `out` (edge sets).
  - Ghost definitions of paths, `DependsOn`, cycles, dependants and topological orders.
  - `OverallOrder` is a Kahn-style sort, proved to return a topological order exactly when there is no cycle.
  - `DependantsOf` is a worklist search, proved to return exactly the transitive dependants. Its cycle error is raised exactly when a cycle passes through the node or one of its dependants.
- `CompilationSpec` (compilation_spec.dfy): what a compilation pass, a graph build and a change handler compute, as functions of the state before them, with the lemmas about them. Among them: compiling twice writes the same manifest, and the change handler recompiles exactly the changed entries and their transitive dependants.
- `Compilation` (compilation.dfy): the class `Workspace`.
  - Its fields: source and output files, decoded manifest files, the template cache, and the `onEntryCompiled` callbacks made so far.
  - Its methods `Compile`, `CollectDeps`, `BuildDepGraph`, `Build` and `OnChange` are proved to follow `CompilationSpec`. Each loop of the source is a method of its own, and so is each loop body that changes the workspace.
- `ManifestPathsPlugin` (manifest_paths.dfy): the class `ManifestPaths` of `src/index.ts`.

The inputs the code cannot see are parameters; the README does not list
them separately:

- the file system is a `map` from path to contents;
- the manifest files are decoded maps;
- MD5 is an uninterpreted `hash` function;
- lodash's template compiler is an uninterpreted `parse` function from a source text and delimiters to segments;
- `process.env` is a map;
- the laravel-mix state is a record.

Two quirks of the code are kept as written.

- **Template cache keyed by source path.** The template cache is keyed by the entry's source path only. A second entry with the same source but other delimiters reuses the first entry's compiled template within a pass. `TemplateFor` and `FirstCompiled` state this.
- **First node wins.** `addNode` on a URL that is already a node keeps the first entry's data. `build` compiles the entries that are node data, so `NodesOf` and `NodesOfFirst` state which entry that is.

## Model

| member | source | states |
|---|---|---|
| Config.PublicDir | src/config.ts:18-20 | the public directory is `publicPath` resolved, and `.` resolved when `publicPath` is unset |
| Config.ManifestPath | src/config.ts:21-29 | fails, with the missing-manifest error, exactly when no manifest name is configured; otherwise the public directory joined with that name |
| Config.UseVersioning | src/config.ts:33-35 | versioning holds iff the `version` component is registered and hot mode is off |
| Config.HotUrl | src/config.ts:36-47 | null unless hot mode is on and hmr options exist; otherwise `protocol://host:port`, with `https` exactly when the options say so |
| Config.Protocol | src/config.ts:42 | defines the hot URL's scheme: `https` when the hot-reload options ask for it, `http` otherwise; `HotUrl` states the URL built from it |
| Config.VersioningExcludesHotUrl | src/config.ts:33-39 | versioning and a hot URL never hold together |
| TemplateFuncs.EnvValue | src/template_funcs.ts:13 | an unset environment variable reads as the empty string |
| TemplateFuncs.FirstColon | src/template_funcs.ts:21 | where `^.*?:` ends: the first colon with no line terminator before it, or no match |
| TemplateFuncs.StripProtocol | src/template_funcs.ts:21 | everything up to and including that colon is removed; without a match the URL is unchanged |
| TemplateFuncs.FirstColonAfter | src/template_funcs.ts:21 | a prefix without colons or line terminators is cut exactly at the colon after it |
| TemplateFuncs.HotUrlWithoutProtocol | src/template_funcs.ts:21-23 | a configured hot URL loses `http:` or `https:` and keeps `//host:port` |
| TemplateFuncs.TrimTrailingSlashes | src/template_funcs.ts:16 | drops exactly the trailing slashes |
| TemplateFuncs.TrimLeadingSlashes | src/template_funcs.ts:16 | drops exactly the leading slashes |
| TemplateFuncs.UrlJoin | src/template_funcs.ts:16 | the join has exactly one slash at the boundary |
| TemplateFuncs.UrlJoinBoundary | src/template_funcs.ts:16 | joining a base with no trailing slash and an id with one leading slash is concatenation |
| TemplateFuncs.Mix | src/template_funcs.ts:5-33 | fails with `Unable to locate Mix file: '<id>'.` exactly when the id is missing from the manifest, before any hot-mode branch; otherwise proxy join, else stripped hot URL join with the unversioned id, else asset-URL join with the versioned value, else the versioned value |
| TemplateFuncs.HotModeIgnoresVersion | src/template_funcs.ts:12-24 | in hot mode the result does not depend on the manifest value |
| TemplateFuncs.MissingIdNamed | src/template_funcs.ts:8-10 | the error message names the missing id |
| TemplateFuncs.PlainExamples | src/template_funcs.ts:26-32 | without an asset URL, or with an empty one, the versioned value is returned unchanged |
| TemplateFuncs.AssetUrlPrefixes | src/template_funcs.ts:26-30 | a non-empty asset URL prefixes the versioned value |
| TemplateFuncs.HotUrlPrefixes | src/template_funcs.ts:19-23 | in hot mode without a proxy the result is `//host:port` + id |
| TemplateFuncs.HotProxyPrefixes | src/template_funcs.ts:13-17 | a non-empty proxy URL prefixes the unversioned id |
| TemplateFuncs.MissingExamples | src/template_funcs.ts:8-10 | `""` and an id without a leading slash are reported missing, in hot mode too |
| Templates.Refs | src/compilation.ts:43-55 | the ids a template passes to `mix`, in order; at most one per segment |
| Templates.RefsAppend | src/compilation.ts:53-55 | the references of two concatenated templates are the two reference lists |
| Templates.RefsMembers | src/compilation.ts:43-55 | an id is referenced iff some slot names it |
| Templates.HtmlEscape | src/compilation.ts:24 | defines lodash `escape`: each of `&`, `<`, `>`, `"`, `'` becomes its entity, left to right; its properties are `HtmlRoundTrip`, `HtmlEscapeSafe` and `HtmlEscapeAppend` |
| Templates.HtmlUnescape | src/compilation.ts:24 | defines lodash `unescape`, the five entities read back left to right; `HtmlRoundTrip` states it inverts `HtmlEscape` |
| Templates.UnescapeHtmlChar | src/compilation.ts:24 | unescaping undoes the escape of one character |
| Templates.HtmlRoundTrip | src/compilation.ts:24 | `unescape(escape(s)) == s` |
| Templates.HtmlEscapeSafe | src/compilation.ts:24 | an escaped value contains no `<`, `>`, `"` or `'` |
| Templates.HtmlEscapeAppend | src/compilation.ts:24 | escaping distributes over concatenation |
| Templates.EscapeAngleBrackets | src/compilation.ts:24 | `<c>` escapes to `&lt;c&gt;` |
| Templates.Render | src/compilation.ts:85-86 | defines rendering: the segments in order, each slot through `mix` (escaped for `!…!` slots), the first error aborting; `RenderOkIff`, `RenderFailsOnFirstMissing`, `RenderAgree` and `RenderAppend` state its properties |
| Templates.RenderOkIff | src/compilation.ts:85-86 | a render succeeds iff every referenced id is in the manifest |
| Templates.RenderFailsOnFirstMissing | src/compilation.ts:85-86 | a failed render yields the position of the first referenced id missing from the manifest (every earlier one is present), and its error names that id |
| Templates.RenderAgree | src/compilation.ts:85-86 | two contexts that resolve every reference alike render alike |
| Templates.RenderAppend | src/compilation.ts:85-86 | rendering a concatenation renders the parts in order |
| Helpers.Memo.constructor | src/helpers.ts:22-31 | a new memo starts with an empty cache |
| Helpers.Memo.Get | src/helpers.ts:22-31 | a cached key returns the cached value and changes nothing; otherwise the value is computed and cached on success |
| Helpers.Memo.Clear | src/compilation.ts:111 | the cache is empty afterwards |
| Helpers.ClearScenario | src/helpers.ts:22-31 | call, call, clear, call, call: hits are miss, hit, miss, hit, and every value is the computed one |
| Helpers.FailureScenario | src/helpers.ts:22-31 | a failing computation is not cached |
| Helpers.ReplaceBackslashes | src/helpers.ts:56 | every backslash becomes `/` and every other character stays |
| Helpers.PublicUrl | src/helpers.ts:55-56 | `/` + the dest relative to the public directory with backslashes replaced; starts with `/` and holds no backslash |
| Helpers.Sources | src/helpers.ts:38-39 | the normalized glob results, in order |
| Helpers.ResolveRawEntry | src/helpers.ts:32-60 | one entry per matched source, carrying the raw options; flattened dest = `to` + basename, otherwise `to` + path relative to the glob parent; public URL as above |
| Helpers.Destination | src/helpers.ts:44-53 | defines where a matched source goes: with `flatten`, the target directory resolved with the source's base name; otherwise with the source's path relative to the glob's parent directory |
| Helpers.ResolveSource | src/helpers.ts:42-59 | defines the resolved entry of one source: that source, `Destination`, the public URL of that destination and the raw entry's options; `ResolveRawEntry` states it for every source |
| Helpers.Flatten | src/helpers.ts:63 | defines `.flat()` one level deep, the lists concatenated in order; `FlattenMember` and `MemberFlatten` state that exactly the lists' elements appear |
| Helpers.AllResolved | src/helpers.ts:63 | defines `rawEntries.map(resolveRawEntry).flat()`, every raw entry's resolved entries in registration order; `ResolveRawEntriesDests` and `ResolveRawEntriesLastWins` state what survives it |
| Helpers.Reverse | src/helpers.ts:69 | the elements in reverse order |
| Helpers.UniqByDest | src/helpers.ts:69 | defines lodash `uniqBy(entries, "dest")`; `UniqByDestIsFirstOccurrences` proves it equal to the first-occurrence definition |
| Helpers.FlattenMember | src/helpers.ts:63 | every element of the flattened list comes from one of the lists |
| Helpers.MemberFlatten | src/helpers.ts:63 | every element of each list is in the flattened list |
| Helpers.UniqByDestDests | src/helpers.ts:69 | `uniqBy` keeps the set of destinations |
| Helpers.UniqByDestIsFirstOccurrences | src/helpers.ts:69 | `uniqBy` keeps exactly the first entry with each destination |
| Helpers.FirstOccurrencesMembers | src/helpers.ts:69 | the kept entries are exactly the first ones with their destination |
| Helpers.FirstOccurrencesDistinct | src/helpers.ts:69 | the kept entries have distinct destinations |
| Helpers.ResolveRawEntries | src/helpers.ts:62-70 | defines `resolveRawEntries`: every raw entry resolved, flattened, reversed, then de-duplicated by dest; the four lemmas below state what it keeps |
| Helpers.ResolveRawEntriesDistinct | src/helpers.ts:62-70 | no two resolved entries share a destination |
| Helpers.ResolveRawEntriesDests | src/helpers.ts:62-70 | every destination of any resolved entry is present |
| Helpers.ResolveRawEntriesLastWins | src/helpers.ts:62-70 | each kept entry comes from some raw entry and is the last one in input order with its destination |
| Helpers.ResolveRawEntriesKeepsLast | src/helpers.ts:62-70 | the last entry with each destination is kept |
| Validation.Split | src/validation.ts:8-9 | splitting yields at least one piece |
| Validation.JoinSplit | src/validation.ts:8-9 | joining the pieces of a split gives the string back |
| Validation.SplitJoin | src/validation.ts:8-9 | splitting a join of separator-free pieces gives the pieces back |
| Validation.SplitAppend | src/validation.ts:8-9 | one more separated piece adds one more segment |
| Validation.JsonQuote | src/validation.ts:37 | defines `JSON.stringify` of a string: the body in double quotes, with quote and backslash escaped, the short escapes for backspace, tab, newline, form feed and carriage return, and lowercase `\u00XX` for the other control characters; `JsonQuoteRoundTrip` states it reads back |
| Validation.JsonQuoteRoundTrip | src/validation.ts:37 | `JSON.stringify` of a string reads back to the string |
| Validation.GetErrorPropertyPath | src/validation.ts:6-41 | after dropping the root segments and the final schema keyword, the path is the variable name followed by one accessor per instance segment, the i-th one looking at schema keyword 2*i |
| Validation.Shift | src/validation.ts:13-14 | defines `shift()` for its effect: the first segment dropped, an empty list left empty |
| Validation.Pop | src/validation.ts:16 | defines `pop()` for its effect: the last segment dropped, an empty list left empty |
| Validation.ErrorPropertyPath | src/validation.ts:6-41 | defines what `getErrorPropertyPath` returns: the variable name followed by `Accessors` of the instance segments; the lemmas below state its shape |
| Validation.AppendAccessors | src/validation.ts:18-38 | the loop appends one accessor per instance segment, in order, to the variable name |
| Validation.AccessorFor | src/validation.ts:21-37 | dot notation for an identifier, a bare index under `items`, otherwise the `JSON.stringify`-quoted name in brackets |
| Validation.AccessorOpens | src/validation.ts:25-37 | every accessor has at least two characters and starts with `.` or `[` |
| Validation.RootErrorIsVarName | src/validation.ts:8-20 | an empty instance path yields exactly the variable name |
| Validation.ExtendInstancePath | src/validation.ts:18-38 | one more instance segment appends exactly one accessor |
| Validation.IdentifierUsesDot | src/validation.ts:23-28 | an identifier-like segment is appended as `.name` |
| Validation.AccessorsShape | src/validation.ts:20-38 | each segment adds at least two characters, starting with `.` or `[` |
| Validation.ArrayItemPath | src/validation.ts:30-34 | a numeric segment under an `items` keyword is appended as `[n]` without quotes |
| Validation.StringArrayItemPath | src/validation.ts:30-34 | an error on an item of the truthy-string array is reported as `name[n]` |
| Validation.PropertyPath | src/validation.ts:23-28 | an error on a property is reported as `name.property` |
| Validation.NestedPropertyPath | src/validation.ts:18-38 | an error on a nested property is reported as `name.outer.inner` |
| Validation.AssertionMessage | src/validation.ts:51-65 | the bare message without a variable name, otherwise `path: message` |
| Validation.IsTruthyString | src/validation.ts:91-94 | defines `truthyStringSchema`: a string of at least one character; `AssertIsTruthyString` fails exactly where it does not hold |
| Validation.IsTruthyStringArray | src/validation.ts:96-99 | defines `truthyStringArraySchema`: an array whose every item is a truthy string; `AssertIsTruthyStringArray` fails exactly where it does not hold |
| Validation.IsDelimiters | src/validation.ts:72-84 | defines the `delimiters` sub-schema: an object whose `left` and `right`, when present, are non-empty strings |
| Validation.IsOptions | src/validation.ts:69-89 | defines `optionsSchema`: an object whose `delimiters`, when present, matches `IsDelimiters` and whose `flatten`, when present, is a boolean; `AssertIsOptions` fails exactly where it does not hold |
| Validation.AssertIsTruthyString | src/validation.ts:116-125 | fails, with the assertion message, exactly when the value is no truthy string |
| Validation.AssertIsTruthyStringArray | src/validation.ts:127-136 | fails exactly when the value is not an array of truthy strings |
| Validation.AssertIsOptions | src/validation.ts:105-114 | fails exactly when the value does not match the options schema |
| Options.Merge | src/index.ts:47 | each option the user gives replaces the base's value; the others keep it (delimiters merged one by one) |
| Options.MergeNothing | src/index.ts:67 | merging no options leaves the defaults |
| DepGraphs.TopoSort | src/compilation.ts:80 | on an edge map closed under its keys, returns a topological order (distinct, all nodes, every dependency before its dependant), and fails exactly when there is a cycle |
| DepGraphs.StuckHasCycle | src/compilation.ts:80 | a set of nodes each with an edge inside the set contains a cycle |
| DepGraphs.TopologicalOrderAcyclic | src/compilation.ts:80 | a graph with a topological order has no cycle |
| DepGraphs.Pigeonhole | src/compilation.ts:80 | a walk longer than the node set repeats a node |
| DepGraphs.DepGraph.constructor | src/compilation.ts:60 | a new graph is valid, with no nodes and no edges |
| DepGraphs.DepGraph.HasNode | src/compilation.ts:44 | defines `hasNode`: the name is a node |
| DepGraphs.DepGraph.GetNodeData | src/compilation.ts:48 | defines `getNodeData` on a node: the data stored with it |
| DepGraphs.DepGraph.DirectDependenciesOf | src/compilation.ts:37 | defines `directDependenciesOf` on a node: its outgoing edges |
| DepGraphs.DepGraph.AddNode | src/compilation.ts:62-64 | a new name gets a node with the data and no edges; an existing name is left as it was |
| DepGraphs.DepGraph.AddDependency | src/compilation.ts:50 | adds the one edge, between two nodes |
| DepGraphs.DepGraph.RemoveDependency | src/compilation.ts:39-41 | removes the one edge and nothing else |
| DepGraphs.DepGraph.OverallOrder | src/compilation.ts:80 | some topological order of all nodes, and an error exactly when there is a cycle |
| DepGraphs.DepGraph.DependantsOf | src/compilation.ts:124 | exactly the nodes that depend on the name, directly or transitively; an error exactly when a cycle passes through it or one of them |
| DepGraphs.SearchDependants | src/compilation.ts:124 | the worklist search finds exactly the transitive dependants |
| DepGraphs.DependantsCycle | src/compilation.ts:124 | the dependants' subgraph has a cycle exactly when a cycle passes through the node or one of its dependants |
| CompilationSpec.NoSuchFile | src/compilation.ts:18 | defines the ENOENT message `readFileSync` throws for a missing file, `ENOENT: no such file or directory, open '<path>'`, also used for the manifest read at src/manifest.ts:8; `CollectAllFailsAt` states a build fails with it at the first missing source |
| CompilationSpec.Load | src/compilation.ts:17-32 | defines `getTemplate`: the file's text compiled with the entry's delimiters, or the ENOENT error when the file is missing; `TemplateFor` states how the cache uses it |
| CompilationSpec.TemplateFor | src/compilation.ts:17-34 | a source already cached yields the cached template, whatever delimiters it was compiled with; otherwise the file compiled with the entry's delimiters, or the ENOENT error when it is missing |
| CompilationSpec.CacheAfter | src/compilation.ts:34 | a successful compilation is stored under the source path; a failure stores nothing |
| CompilationSpec.ManifestValue | src/compilation.ts:94-98 | `url?id=hash(output)` with versioning, `url` without |
| CompilationSpec.CompileEntry | src/compilation.ts:85-100 | a missing source fails before anything changes; a render error fails before the write; on success the output is rendered against the current manifest, written to dest, the manifest value set, and one callback recorded |
| CompilationSpec.RunPass | src/compilation.ts:84-101 | one callback per compiled entry, in order, the earlier callbacks kept; the first failure stops the pass |
| CompilationSpec.RunPassStops | src/compilation.ts:84-101 | a failure aborts the rest of the pass |
| CompilationSpec.RunPassPrefix | src/compilation.ts:84-101 | the callbacks of a pass over a prefix are a prefix of the callbacks |
| CompilationSpec.RunPassFailsAt | src/compilation.ts:84-101 | a failed pass compiled exactly the entries before the failing one, then failed on it |
| CompilationSpec.RunPassLast | src/compilation.ts:88-98 | the last step of a complete pass writes its output to its dest and its value to its URL, and adds one callback |
| CompilationSpec.RunPassWrites | src/compilation.ts:88-98 | after a pass each compiled URL maps to the value of its last compilation (versioned or not), each written dest holds its last output, and every other manifest key and file is unchanged |
| CompilationSpec.RunPassRendersAgainstPrefix | src/compilation.ts:78-86 | each entry is rendered against the manifest as the entries before it left it |
| CompilationSpec.DependantSeesNewValue | src/compilation.ts:78-97 | an entry compiled earlier in the pass is seen by later renders with the value just set |
| CompilationSpec.RunPassKeepsCache | src/compilation.ts:85 | a pass whose templates are all cached leaves the template cache unchanged |
| CompilationSpec.RunPassTwice | src/compilation.ts:84-101 | when every template is cached and refers only to entries compiled before it, a second pass from the state the first left succeeds, makes the same callbacks and leaves the same manifest and files |
| CompilationSpec.Intersect | src/compilation.ts:82 | lodash `intersection`: exactly the requested elements of the list, each once |
| CompilationSpec.OrderedEntries | src/compilation.ts:80 | `overallOrder().map(getNodeData)`: as many entries as names, the k-th being the node data of the k-th name |
| CompilationSpec.ToCompile | src/compilation.ts:80-82 | defines `intersection(topologicalOrder, entries)` over `OrderedEntries`; `ToCompileInOrder` states it holds each requested node entry once, nothing else, dependencies first |
| CompilationSpec.IntersectKeepsOrder | src/compilation.ts:81-82 | the intersection keeps the list's relative order |
| CompilationSpec.OrderedEntriesInOrder | src/compilation.ts:79-80 | the node data in a topological order are distinct, are exactly the node data, and follow the order |
| CompilationSpec.ToCompileInOrder | src/compilation.ts:80-84 | the pass goes through each requested entry that is a node's data exactly once and no other, every dependency before its dependant |
| CompilationSpec.ToCompileDependenciesFirst | src/compilation.ts:80-82 | in the compiled list every dependency comes before its dependant |
| CompilationSpec.NodesOf | src/compilation.ts:62-64 | one node per distinct public URL, each holding an entry with that URL |
| CompilationSpec.NodesOfFirst | src/compilation.ts:62-64 | the node of a URL holds the first entry with it |
| CompilationSpec.KnownIds | src/compilation.ts:43-47 | the listed ids that are nodes |
| CompilationSpec.RefNodes | src/compilation.ts:43-55 | exactly the referenced ids that are nodes |
| CompilationSpec.CollectStep | src/compilation.ts:36-56 | the entry's old edges are gone; its new edges are exactly the referenced ids that are nodes; every other node's edges and the node set are unchanged; a missing source fails after the removal |
| CompilationSpec.CollectAll | src/compilation.ts:66-68 | the collection adds no node beyond the entries' URLs, and exactly those on success |
| CompilationSpec.FirstCompiled | src/compilation.ts:34-68 | the template cache after a build holds each source once, compiled with the delimiters of the first entry that has it |
| CompilationSpec.CollectAllReadable | src/compilation.ts:59-71 | building succeeds exactly when every source exists, and then each source is compiled once |
| CompilationSpec.CollectAllEdges | src/compilation.ts:59-71 | after a build each URL depends on exactly the nodes its last entry's template refers to, including entries later in the list |
| CompilationSpec.CollectAllOthers | src/compilation.ts:66-68 | nodes of no collected entry keep their edges |
| CompilationSpec.CollectAllFailsAt | src/compilation.ts:66-68 | a failed build stops at the first entry whose source is missing, with its ENOENT message |
| CompilationSpec.CollectAllStops | src/compilation.ts:66-68 | once collecting fails, the remaining entries change nothing |
| CompilationSpec.CollectAllNext | src/compilation.ts:66-68 | each loop iteration is one `CollectStep` on the graph so far |
| CompilationSpec.Compiles | src/compilation.ts:73-104 | defines a whole `compile` call: the config error, the missing manifest, the cycle, then the pass over the requested entries in graph order, the manifest written back only after a complete pass; `Compilation.Workspace.Compile` is proved to follow it |
| CompilationSpec.CompileTwice | src/compilation.ts:73-104 | compiling the same requested entries twice over the same graph, in the same order and the second time from what the first left, succeeds and writes the same manifest and files, with or without versioning, when the cache and edges cover every reference |
| CompilationSpec.CollectedGraphCovers | src/compilation.ts:59-71 | after building the graph of entries with distinct public URLs, the cache and the edges cover every reference, so the `compile` of a build meets `CompileTwice`'s condition |
| CompilationSpec.Relevant | src/compilation.ts:114 | exactly the entries whose source is the changed path |
| CompilationSpec.NodeData | src/compilation.ts:124-128 | the entries of the given ids that are nodes |
| CompilationSpec.DependantsSearch | src/compilation.ts:124 | defines `dependantsOf` as `ChangeStep` uses it: the transitive dependants, or a cycle error exactly when a cycle passes through the name or one of its dependants. It is the same characterisation `DepGraphs.DepGraph.DependantsOf` ensures; `Compilation.Workspace.ChangeEntry` calls that method and is proved equal to `ChangeStep`, which ties the two |
| CompilationSpec.ChangeStep | src/compilation.ts:120-128 | defines one iteration of the handler's loop: `collectDeps`, then the entry and the node data of its dependants added, a cycle through it a failure; `Compilation.Workspace.ChangeEntry` is proved to follow it |
| CompilationSpec.ChangeAll | src/compilation.ts:118-129 | defines the handler's loop over the relevant entries, the first failure stopping it; `Compilation.Workspace.ChangeLoop` is proved to follow it |
| CompilationSpec.ChangeAllShape | src/compilation.ts:118-129 | without a failure, the recompile set holds every relevant entry and otherwise only node data, for any starting set and any relevant entries |
| CompilationSpec.ChangeOne | src/compilation.ts:114-129 | for one relevant entry, the recompile set is exactly that entry plus the entries of every node that depends on it transitively in the refreshed graph |
| CompilationSpec.ChangeAllExact | src/compilation.ts:118-129 | for any number of relevant entries that are node data (the watch scenario has two sharing one source), the recompile set is exactly those entries plus the entries of every node that depends, directly or not, on one of them in the graph the loop leaves; other entries are not recompiled |
| CompilationSpec.ChangeHandlerExact | src/compilation.ts:114-129 | the same, with the relevant entries given as the entries whose source is the changed path |
| CompilationSpec.ChangeAllStops | src/compilation.ts:118-129 | once the handler's loop fails, the remaining entries change nothing |
| Compilation.Workspace.Compile | src/compilation.ts:73-104 | errors come in the source's order: manifest path, missing manifest, cycle, then the pass; the pass runs over the requested entries in the graph's topological order; the manifest file is written only when the pass completes |
| Compilation.Workspace.constructor | src/compilation.ts:34 | a workspace starts with the given files and manifests, no callbacks, and a fresh, empty template cache |
| Compilation.Workspace.CompileLoop | src/compilation.ts:84-101 | the loop's files, manifest, template cache and callbacks are those of `RunPass` |
| Compilation.Workspace.CompileOne | src/compilation.ts:85-100 | one iteration changes files, manifest, cache and callbacks as `CompileEntry` says, and stops with its failure |
| Compilation.Workspace.CollectDeps | src/compilation.ts:36-56 | the graph and the template cache after the call are those of `CollectStep` |
| Compilation.RemoveDependencies | src/compilation.ts:37-41 | afterwards the entry has no edges, and every other node's edges and the node set are unchanged |
| Compilation.CollectReferences | src/compilation.ts:43-51 | rendering with the collector adds an edge from the entry to each referenced id that is a node, and nothing else |
| Compilation.AddNodes | src/compilation.ts:62-64 | the graph after the first loop of `buildDepGraph` has the nodes of `NodesOf` and no edges |
| Compilation.AddNodeData | src/compilation.ts:124-128 | adds the node data of the dependants to the set |
| Compilation.Workspace.BuildDepGraph | src/compilation.ts:59-71 | nodes first, then the edges and template cache of `CollectAll` |
| Compilation.Workspace.CollectNext | src/compilation.ts:66-68 | one iteration is the next `CollectStep`; a failure is the outcome of the whole loop |
| Compilation.Workspace.Build | src/compilation.ts:141-153 | the cache is cleared, the graph is built, every entry is compiled as `Compile` states, and the cache is cleared again on success |
| Compilation.Workspace.OnChange | src/compilation.ts:110-139 | the graph and recompile set are those of `ChangeAll` over the relevant entries; when every entry is node data, that set is exactly the entries with the changed source and the node entries that depend on one of them in the refreshed graph; then that set is compiled as `Compile` states |
| Compilation.Workspace.ChangeLoop | src/compilation.ts:118-129 | the graph, template cache and recompile set after the loop are those of `ChangeAll` |
| Compilation.Workspace.ChangeEntry | src/compilation.ts:120-128 | one iteration refreshes the entry's edges, adds it and the node data of its dependants, as `ChangeStep` says; a cycle through it is a failure |
| ManifestPathsPlugin.MergeGiven | src/index.ts:67 | every registered option is the user's value where given and the current default otherwise |
| ManifestPathsPlugin.RegisterCheck | src/index.ts:55-65 | the checks pass exactly when `from` is a truthy string or an array of them, `to` is a truthy string and any options match the schema; a bad `from` is reported under the name `from` |
| ManifestPathsPlugin.FromStrings | src/index.ts:68 | an array passes its strings in order; a single string becomes a one-element list |
| ManifestPathsPlugin.SingleStringAsList | src/index.ts:68 | a single string is registered as the list holding just it |
| ManifestPathsPlugin.NewRawEntries | src/index.ts:69-73 | one raw entry per string, in order, all with the same `to` and options |
| ManifestPathsPlugin.ManifestPaths.constructor | src/index.ts:41-43 | a new plugin has no raw entries and the default options |
| ManifestPathsPlugin.ManifestPaths.SetDefaultOptions | src/index.ts:45-48 | checks first; accepted options are merged into the defaults; registered entries do not change |
| ManifestPathsPlugin.ManifestPaths.Register | src/index.ts:54-76 | a failed check changes nothing; otherwise one entry per `from` string is appended after the existing ones, all with the defaults merged with the given options |
| ManifestPathsPlugin.DefaultsApplyLater | src/index.ts:45-67 | entries registered before a change of defaults keep the old options; later ones get the new |

`ManifestPaths.Name` returns `"manifestPaths"` (src/index.ts:50-52). Its
body is that constant, so it has no contract of its own.

## Left out

- File I/O: reading and writing files is modelled as maps, and `mkdirSync` directory creation is not modelled. The manifest files are kept separate from the other files as already-decoded maps, so JSON parse and stringify of the manifest (src/manifest.ts) are not modelled. Neither is a malformed manifest file.
- The manifest cache (`readManifestCached`): each pass starts with a cleared cache and only `compile` and `mix` read it, so it is modelled as the single read at the start of `compile`. `mix` then reads the same in-memory map that `compile` updates. Clearing that cache has no visible effect in the model.
- MD5 (`hashContent`) is the uninterpreted `hash` function of `Setting`, so the 20-hex-digit format is not modelled.
- lodash `template`: the regular expressions built from the delimiters and the evaluation of the JavaScript inside slots are not modelled. A template is the list of segments that the uninterpreted `parse` returns, and every slot is assumed to be a `mix('<id>')` call. A render can therefore fail only through `mix`.
- CompilationSpec.CollectStep: rendering with the collector cannot fail in the model. A template whose JavaScript throws for another reason is not modelled.
- DepGraphs.DepGraph.OverallOrder: it promises some topological order, not the exact depth-first order of the `dependency-graph` library. The tests compare sorted call lists, and every property of the pass is proved for any topological order. The library's cycle-error message text is not modelled; a cycle is the `CycleFailure` value.
- Identity versus value: lodash `intersection` and the JavaScript `Set` in the change handler compare entries by object identity. The model compares them by value. Entries are distinct by destination after `resolveRawEntries`, so the two agree for the entries the plugin builds.
- Compilation.Workspace.OnChange: the handler's entries and graph are assumed to come from the same build (every entry's URL is a node), as `watch` and `build` guarantee. A missing node then cannot occur, so the library's error for one is not modelled.
- Compilation.Workspace.Compile: the graph's node data are assumed to be keyed by their own public URL (`Keyed`), as `buildDepGraph` guarantees. Compile's contract needs this.
- CompilationSpec.CompileTwice: the second `compile` reuses the template cache and the graph the first one left, and takes the same topological order, because the library's order is a function of the graph. A second full `build` rebuilds the graph from the sources first; that it gives the same cache and graph is not proved.
- `url-join` is modelled as joining with a single slash at the boundary. Its other normalizations (protocol slashes, `?` and `#` handling) are not.
- `getErrorPropertyPath` reads the schema keyword at index 2·i, which assumes two schema segments per nesting level. The model computes exactly that index. The schemas of this plugin never nest deeper than that.
- The validator (Ajv) is not modelled: its error record is an input (`Reporter` in the plugin, `AjvError` in the guards). Options with properties other than `delimiters` and `flatten`, which the schema allows and lodash `merge` copies, are not modelled. Neither are `undefined` values.
- Chokidar watching, the `entry-compiled` event emitter, the laravel-mix `after` hook, chalk logging and the webpack stats table (src/compilation.ts:155-169, src/index.ts:79-116) are host integration and are not modelled. Each `onEntryCompiled` callback is recorded as an event instead.
- `glob`, `glob-parent` and `path` operations are function-valued inputs (`GlobOps`, `PathOps`).
