/**
 * `src/compilation.ts` as a class over an in-memory file system: source and
 * output files, decoded manifest files, the compiled-template cache and the
 * sequence of `onEntryCompiled` callbacks made. Every method is proved to
 * follow the definitions of module `CompilationSpec`.
 */
module Compilation {
  import opened Wrappers
  import opened Options
  import opened Helpers
  import Config
  import opened TemplateFuncs
  import opened Templates
  import opened DepGraphs
  import opened CompilationSpec

  class Workspace {
    /** Text files by path: template sources and compiled outputs. */
    var files: map<string, string>
    /** Manifest files by path, as the maps their JSON holds. */
    var manifests: map<string, map<string, string>>
    /** The `onEntryCompiled` callbacks made so far. */
    var events: seq<Compiled>
    const cfg: Setting
    /** `getTemplateCached`: compiled templates by source path. */
    const templates: Memo<string, Template>

    ghost function State(): Snapshot
      reads this, templates
    {
      Snapshot(files, manifests, templates.cache, events)
    }

    constructor (cfg: Setting, files: map<string, string>, manifests: map<string, map<string, string>>)
      ensures this.cfg == cfg && this.files == files && this.manifests == manifests && events == []
      ensures fresh(templates) && templates.cache == map[]
    {
      this.cfg := cfg;
      this.files := files;
      this.manifests := manifests;
      events := [];
      templates := new Memo<string, Template>();
    }

    /**
     * `compile(entries, depGraph, onEntryCompiled)`: read the manifest, take
     * the graph's order, then render, write and record each requested entry
     * in that order; the manifest is written once, after the last entry.
     * `order` is the topological order the graph returned.
     */
    method Compile(requested: set<ResolvedEntry>, g: DepGraph) returns (failure: Option<Failure>, order: seq<string>)
      requires g.Valid() && Keyed(g.nodes)
      modifies this, templates
      ensures Compiles(cfg, old(State()), g.out, g.nodes, requested, order, State(), failure)
    {
      order := [];
      var mp := Config.ManifestPath(cfg.st, cfg.ps);
      if mp.Err? {
        failure := Some(ConfigFailure(mp.error));
        return;
      }
      var path := mp.value;
      if path !in manifests {
        failure := Some(ReadFailure(NoSuchFile(path)));
        return;
      }
      var manifest := manifests[path];
      var sorted := g.OverallOrder();
      if sorted.None? {
        failure := Some(CycleFailure);
        return;
      }
      order := sorted.value;
      var toCompile := ToCompile(order, g.nodes, requested);
      failure, manifest := CompileLoop(toCompile, manifest);
      if failure.None? {
        manifests := manifests[path := manifest];
      }
    }

    /**
     * The `for` loop of `compile`: for each entry in turn, get its template,
     * render it against the manifest as it is now, write the output, set the
     * manifest value and make the callback. The first error stops the loop.
     */
    method CompileLoop(toCompile: seq<ResolvedEntry>, manifest0: map<string, string>) returns (failure: Option<Failure>, manifest: map<string, string>)
      modifies this, templates
      ensures manifests == old(manifests)
      ensures RunPass(cfg, toCompile, PassState(old(files), manifest0, old(templates.cache), old(events))) ==
        PassResult(PassState(files, manifest, templates.cache, events), failure)
    {
      manifest := manifest0;
      ghost var s0 := PassState(files, manifest, templates.cache, events);
      var i := 0;
      while i < |toCompile|
        invariant 0 <= i <= |toCompile|
        invariant manifests == old(manifests)
        invariant RunPass(cfg, toCompile[..i], s0) == PassResult(PassState(files, manifest, templates.cache, events), None)
      {
        RunPassNext(cfg, toCompile, s0, i);
        failure, manifest := CompileOne(toCompile[i], manifest);
        if failure.Some? {
          RunPassStops(cfg, toCompile, s0, i + 1);
          return;
        }
        i := i + 1;
      }
      assert toCompile[..i] == toCompile;
      failure := None;
    }

    /** One iteration of `compile`'s loop, for entry `e` against the manifest as it is now. */
    method CompileOne(e: ResolvedEntry, manifest0: map<string, string>) returns (failure: Option<Failure>, manifest: map<string, string>)
      modifies this, templates
      ensures manifests == old(manifests)
      ensures CompileEntry(cfg, e, PassState(old(files), manifest0, old(templates.cache), old(events))) ==
        PassResult(PassState(files, manifest, templates.cache, events), failure)
    {
      manifest := manifest0;
      var t, _ := templates.Get(e.src, Load(files, cfg.parse, e.options.delimiters));
      if t.Err? {
        failure := Some(ReadFailure(t.error));
        return;
      }
      var rendered := Render(t.value, Context(cfg, manifest));
      if rendered.Err? {
        failure := Some(MixFailure(rendered.error));
        return;
      }
      var output := rendered.value;
      files := files[e.dest := output];
      manifest := manifest[e.publicUrl := ManifestValue(Config.UseVersioning(cfg.st), e.publicUrl, output, cfg.hash)];
      events := events + [Compiled(e, output)];
      failure := None;
    }

    /**
     * `collectDeps(entry, depGraph)`: drop the entry's edges, then render its
     * template with a resolver that adds an edge to each referenced id that
     * is a node and ignores the others.
     */
    method CollectDeps(e: ResolvedEntry, g: DepGraph) returns (failure: Option<Failure>)
      requires g.Valid() && Keyed(g.nodes) && e.publicUrl in g.nodes
      modifies g, templates
      ensures g.Valid() && g.nodes == old(g.nodes)
      ensures GraphResult(GraphState(g.out, templates.cache), failure) ==
        CollectStep(cfg, files, g.nodes.Keys, e, GraphState(old(g.out), old(templates.cache)))
    {
      var url := e.publicUrl;
      RemoveDependencies(url, g);
      var t, _ := templates.Get(e.src, Load(files, cfg.parse, e.options.delimiters));
      if t.Err? {
        failure := Some(ReadFailure(t.error));
        return;
      }
      ghost var cleared := g.out;
      CollectReferences(url, Refs(t.value), g);
      assert OnlyAt(old(g.out), g.out, url, RefNodes(t.value, g.nodes.Keys));
      OnlyAtIsUpdate(old(g.out), g.out, url, RefNodes(t.value, g.nodes.Keys));
      failure := None;
    }

    /**
     * `buildDepGraph(entries)`: a node for each public URL (the first entry
     * with it is its data), then the edges of every entry in turn.
     */
    method BuildDepGraph(entries: seq<ResolvedEntry>) returns (g: DepGraph, failure: Option<Failure>)
      modifies templates
      ensures fresh(g) && g.Valid() && Keyed(g.nodes) && g.nodes == NodesOf(entries)
      ensures GraphResult(GraphState(g.out, templates.cache), failure) ==
        CollectAll(cfg, files, g.nodes.Keys, entries, GraphState(NoEdges(UrlSet(entries)), old(templates.cache)))
    {
      g := AddNodes(entries);
      ghost var g0 := GraphState(g.out, templates.cache);
      var i := 0;
      while i < |entries|
        invariant 0 <= i <= |entries|
        invariant g.Valid() && g.nodes == NodesOf(entries) && Keyed(g.nodes)
        invariant CollectAll(cfg, files, g.nodes.Keys, entries[..i], g0) == GraphResult(GraphState(g.out, templates.cache), None)
      {
        failure := CollectNext(entries, i, g, g0);
        if failure.Some? {
          return;
        }
        i := i + 1;
      }
      assert entries[..i] == entries;
      failure := None;
    }

    /**
     * One iteration of `buildDepGraph`'s second loop: the edges of entry `i`.
     * A failure is the outcome of the whole loop.
     */
    method CollectNext(entries: seq<ResolvedEntry>, i: nat, g: DepGraph, ghost g0: GraphState) returns (failure: Option<Failure>)
      requires i < |entries| && g.Valid() && g.nodes == NodesOf(entries) && Keyed(g.nodes)
      requires CollectAll(cfg, files, g.nodes.Keys, entries[..i], g0) == GraphResult(GraphState(g.out, templates.cache), None)
      modifies g, templates
      ensures g.Valid() && g.nodes == old(g.nodes)
      ensures failure.None? ==>
        CollectAll(cfg, files, g.nodes.Keys, entries[..i + 1], g0) == GraphResult(GraphState(g.out, templates.cache), None)
      ensures failure.Some? ==>
        CollectAll(cfg, files, g.nodes.Keys, entries, g0) == GraphResult(GraphState(g.out, templates.cache), failure)
    {
      CollectAllNext(cfg, files, g.nodes.Keys, entries, g0, i);
      assert entries[i] in entries;
      failure := CollectDeps(entries[i], g);
      if failure.Some? {
        CollectAllStops(cfg, files, g.nodes.Keys, entries, g0, i + 1);
      }
    }

    /**
     * `build(entries, onEntryCompiled)`: clear the template cache, build the
     * graph, compile every entry, clear the cache again. An error leaves the
     * cache as it was at that point.
     */
    method Build(entries: seq<ResolvedEntry>) returns (g: DepGraph, failure: Option<Failure>, order: seq<string>)
      modifies this, templates
      ensures fresh(g) && g.Valid() && Keyed(g.nodes) && g.nodes == NodesOf(entries)
      ensures var c := CollectAll(cfg, old(files), g.nodes.Keys, entries, GraphState(NoEdges(UrlSet(entries)), map[]));
        g.out == c.graph.out &&
        (c.failure.Some? ==> failure == c.failure && State() == old(State()).(cache := c.graph.cache)) &&
        (c.failure.None? ==> exists cache :: Compiles(cfg, old(State()).(cache := c.graph.cache), g.out, g.nodes,
                                                       (set e | e in entries), order, State().(cache := cache), failure)) &&
        (c.failure.None? && failure.None? ==> templates.cache == map[])
    {
      templates.Clear();
      order := [];
      g, failure := BuildDepGraph(entries);
      if failure.Some? {
        return;
      }
      failure, order := Compile((set e | e in entries), g);
      ghost var after := State();
      if failure.None? {
        templates.Clear();
      }
      assert State().(cache := after.cache) == after;
    }

    /**
     * The change handler for a change to `filepath`: clear the template
     * cache, refresh the edges of each entry whose source is that path and
     * gather it with its dependants, compile what was gathered, clear the
     * cache again.
     */
    method OnChange(entries: seq<ResolvedEntry>, g: DepGraph, filepath: string) returns (failure: Option<Failure>, order: seq<string>)
      requires g.Valid() && Keyed(g.nodes)
      requires forall e :: e in entries ==> e.publicUrl in g.nodes
      modifies this, templates, g
      ensures g.Valid() && g.nodes == old(g.nodes)
      ensures var ch := ChangeAll(cfg, old(files), g.nodes, Relevant(entries, filepath), ChangeState(GraphState(old(g.out), map[]), {}));
        g.out == ch.state.graph.out &&
        (ch.failure.Some? ==> failure == ch.failure && State() == old(State()).(cache := ch.state.graph.cache)) &&
        (ch.failure.None? ==> exists cache :: Compiles(cfg, old(State()).(cache := ch.state.graph.cache), g.out, g.nodes,
                                                        ch.state.recompile, order, State().(cache := cache), failure)) &&
        (ch.failure.None? && failure.None? ==> templates.cache == map[])
      ensures var ch := ChangeAll(cfg, old(files), g.nodes, Relevant(entries, filepath), ChangeState(GraphState(old(g.out), map[]), {}));
        (forall e :: e in entries ==> e in g.nodes.Values) && ch.failure.None? ==>
          forall x :: x in ch.state.recompile <==>
            (x in entries && x.src == filepath) ||
            (x in g.nodes.Values && exists e :: e in entries && e.src == filepath && DependsOn(g.out, x.publicUrl, e.publicUrl))
    {
      templates.Clear();
      order := [];
      var relevant := Relevant(entries, filepath);
      var toCompile;
      failure, toCompile := ChangeLoop(relevant, g);
      if failure.Some? {
        return;
      }
      if forall e :: e in entries ==> e in g.nodes.Values {
        ChangeHandlerExact(cfg, files, g.nodes, entries, filepath, GraphState(old(g.out), map[]));
      }
      failure, order := Compile(toCompile, g);
      ghost var after := State();
      if failure.None? {
        templates.Clear();
      }
      assert State().(cache := after.cache) == after;
    }

    /** The change handler's loop over the relevant entries; the first failure stops it. */
    method ChangeLoop(relevant: seq<ResolvedEntry>, g: DepGraph) returns (failure: Option<Failure>, toCompile: set<ResolvedEntry>)
      requires g.Valid() && Keyed(g.nodes)
      requires forall e :: e in relevant ==> e.publicUrl in g.nodes
      modifies templates, g
      ensures g.Valid() && g.nodes == old(g.nodes)
      ensures ChangeAll(cfg, files, g.nodes, relevant, ChangeState(GraphState(old(g.out), old(templates.cache)), {})) ==
        ChangeResult(ChangeState(GraphState(g.out, templates.cache), toCompile), failure)
    {
      toCompile := {};
      ghost var cs0 := ChangeState(GraphState(g.out, templates.cache), {});
      var i := 0;
      while i < |relevant|
        invariant 0 <= i <= |relevant|
        invariant g.Valid() && g.nodes == old(g.nodes)
        invariant ChangeAll(cfg, files, g.nodes, relevant[..i], cs0) ==
          ChangeResult(ChangeState(GraphState(g.out, templates.cache), toCompile), None)
      {
        ChangeAllNext(cfg, files, g.nodes, relevant, cs0, i);
        assert relevant[i] in relevant;
        failure, toCompile := ChangeEntry(relevant[i], g, toCompile);
        if failure.Some? {
          ChangeAllStops(cfg, files, g.nodes, relevant, cs0, i + 1);
          return;
        }
        i := i + 1;
      }
      assert relevant[..i] == relevant;
      failure := None;
    }

    /**
     * One iteration of the change handler: refresh the entry's edges, add it,
     * then add the node data of its dependants; a cycle through it fails.
     */
    method ChangeEntry(e: ResolvedEntry, g: DepGraph, toCompile: set<ResolvedEntry>) returns (failure: Option<Failure>, recompile: set<ResolvedEntry>)
      requires g.Valid() && Keyed(g.nodes) && e.publicUrl in g.nodes
      modifies templates, g
      ensures g.Valid() && g.nodes == old(g.nodes)
      ensures ChangeStep(cfg, files, g.nodes, e, ChangeState(GraphState(old(g.out), old(templates.cache)), toCompile)) ==
        ChangeResult(ChangeState(GraphState(g.out, templates.cache), recompile), failure)
    {
      recompile := toCompile;
      failure := CollectDeps(e, g);
      if failure.Some? {
        return;
      }
      recompile := recompile + {e};
      var deps := g.DependantsOf(e.publicUrl);
      if deps.None? {
        failure := Some(CycleFailure);
        return;
      }
      recompile := AddNodeData(recompile, deps.value, g);
    }
  }

  /** `after` is `before` with the edges of `url` only, set to `v`. */
  ghost predicate OnlyAt(before: Edges, after: Edges, url: string, v: set<string>) {
    after.Keys == before.Keys && url in after && after[url] == v &&
    forall u :: u in after && u != url ==> after[u] == before[u]
  }

  lemma OnlyAtIsUpdate(before: Edges, after: Edges, url: string, v: set<string>)
    requires OnlyAt(before, after, url, v)
    ensures after == before[url := v]
  {
  }

  /** The first loop of `collectDeps`: `removeDependency(url, dep)` for each direct dependency. */
  method RemoveDependencies(url: string, g: DepGraph)
    requires g.Valid() && url in g.nodes
    modifies g
    ensures g.Valid() && g.nodes == old(g.nodes)
    ensures g.out == old(g.out)[url := {}]
  {
    var rest := g.DirectDependenciesOf(url);
    while rest != {}
      invariant g.Valid() && g.nodes == old(g.nodes)
      invariant OnlyAt(old(g.out), g.out, url, rest)
      decreases |rest|
    {
      var d :| d in rest;
      g.RemoveDependency(url, d);
      rest := rest - {d};
    }
    OnlyAtIsUpdate(old(g.out), g.out, url, {});
  }

  /**
   * Rendering a template with `collectDeps`'s resolver: each id the template
   * passes to `mix`, in order, becomes an edge from `url` when it is a node.
   */
  method CollectReferences(url: string, refs: seq<string>, g: DepGraph)
    requires g.Valid() && Keyed(g.nodes) && url in g.nodes
    modifies g
    ensures g.Valid() && g.nodes == old(g.nodes)
    ensures g.out == old(g.out)[url := old(g.out)[url] + KnownIds(refs, g.nodes.Keys)]
  {
    var i := 0;
    assert KnownIds(refs[..0], g.nodes.Keys) == {};
    while i < |refs|
      invariant 0 <= i <= |refs|
      invariant g.Valid() && g.nodes == old(g.nodes)
      invariant OnlyAt(old(g.out), g.out, url, old(g.out)[url] + KnownIds(refs[..i], g.nodes.Keys))
    {
      KnownIdsSnoc(refs[..i], refs[i], g.nodes.Keys);
      if g.HasNode(refs[i]) {
        var dep := g.GetNodeData(refs[i]);
        g.AddDependency(url, dep.publicUrl);
      }
      assert refs[..i + 1] == refs[..i] + [refs[i]];
      i := i + 1;
    }
    assert refs[..i] == refs;
    OnlyAtIsUpdate(old(g.out), g.out, url, old(g.out)[url] + KnownIds(refs, g.nodes.Keys));
  }

  /** `for (const dep of deps) toCompile.add(dep)`, with `deps` the node data of `ids`. */
  method AddNodeData(toCompile: set<ResolvedEntry>, ids: set<string>, g: DepGraph) returns (r: set<ResolvedEntry>)
    requires g.Valid() && ids <= g.nodes.Keys
    ensures r == toCompile + NodeData(g.nodes, ids)
  {
    r := toCompile;
    var rest := ids;
    while rest != {}
      invariant rest <= ids
      invariant r == toCompile + NodeData(g.nodes, ids - rest)
      decreases |rest|
    {
      var d :| d in rest;
      assert NodeData(g.nodes, ids - (rest - {d})) == NodeData(g.nodes, ids - rest) + {g.nodes[d]};
      r := r + {g.GetNodeData(d)};
      rest := rest - {d};
    }
  }

  /** The first loop of `buildDepGraph`: `addNode(entry.public_url, entry)` for each entry. */
  method AddNodes(entries: seq<ResolvedEntry>) returns (g: DepGraph)
    ensures fresh(g) && g.Valid() && g.nodes == NodesOf(entries) && g.out == NoEdges(UrlSet(entries))
  {
    g := new DepGraph();
    var i := 0;
    while i < |entries|
      invariant 0 <= i <= |entries|
      invariant g.Valid() && g.nodes == NodesOf(entries[..i]) && g.out == NoEdges(UrlSet(entries[..i]))
    {
      assert entries[..i + 1][..i] == entries[..i];
      g.AddNode(entries[i].publicUrl, entries[i]);
      i := i + 1;
    }
    assert entries[..i] == entries;
  }
}
