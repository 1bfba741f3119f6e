/**
 * The dependency graph `src/compilation.ts` keeps between passes. Nodes are
 * keyed by an entry's public URL; an edge A -> B means that A's template
 * refers to B, so B has to be compiled before A.
 */
module DepGraphs {
  import opened Wrappers
  import opened Helpers

  /** Each node's outgoing edges, the only edge direction the model stores. */
  type Edges = map<string, set<string>>

  /** Every edge ends at a node. */
  ghost predicate Closed(g: Edges) {
    forall k :: k in g ==> g[k] <= g.Keys
  }

  /** A walk of at least one edge. */
  ghost predicate IsPath(g: Edges, p: seq<string>) {
    |p| >= 2 && forall i :: 0 <= i < |p| - 1 ==> p[i] in g && p[i + 1] in g[p[i]]
  }

  /** `a` depends on `b`, directly or through other nodes. */
  ghost predicate DependsOn(g: Edges, a: string, b: string) {
    exists p :: IsPath(g, p) && p[0] == a && p[|p| - 1] == b
  }

  ghost predicate HasCycle(g: Edges) {
    exists a :: a in g && DependsOn(g, a, a)
  }

  /** Every node that depends on `name`, directly or transitively. */
  ghost function Dependants(g: Edges, name: string): set<string> {
    set m | m in g.Keys && DependsOn(g, m, name)
  }

  /**
   * Each node exactly once, every dependency before its dependant (which also
   * rules out a node depending on itself).
   */
  ghost predicate IsTopologicalOrder(g: Edges, order: seq<string>) {
    (forall i, j :: 0 <= i < j < |order| ==> order[i] != order[j]) &&
    (forall x :: x in order <==> x in g) &&
    (forall i, j :: 0 <= i < |order| && 0 <= j < |order| && order[i] in g && order[j] in g[order[i]] ==> j < i)
  }

  /** The edges among the nodes of `s`. */
  function Induced(g: Edges, s: set<string>): Edges
    requires s <= g.Keys
  {
    map k | k in s :: g[k] * s
  }

  // ---------------------------------------------------------------------------
  // Paths
  // ---------------------------------------------------------------------------

  /** One more edge in front of a path (or of the trivial path at `b`). */
  lemma DependsOnCons(g: Edges, m: string, x: string, b: string)
    requires m in g && x in g[m]
    requires x == b || DependsOn(g, x, b)
    ensures DependsOn(g, m, b)
  {
    if x == b {
      assert IsPath(g, [m, x]);
    } else {
      var p :| IsPath(g, p) && p[0] == x && p[|p| - 1] == b;
      var q := [m] + p;
      assert q[1..] == p;
      assert IsPath(g, q);
    }
  }

  /** Closing a walk: the part of it between two visits of a node is a cycle. */
  lemma SubPath(g: Edges, p: seq<string>, i: nat, j: nat)
    requires |p| >= 1 && forall k :: 0 <= k < |p| - 1 ==> p[k] in g && p[k + 1] in g[p[k]]
    requires i < j < |p|
    ensures IsPath(g, p[i..j + 1])
  {
    var q := p[i..j + 1];
    forall k | 0 <= k < |q| - 1
      ensures q[k] in g && q[k + 1] in g[q[k]]
    {
      assert q[k] == p[i + k] && q[k + 1] == p[i + k + 1];
    }
  }

  /** Two graphs with the same nodes and edges everywhere but at node `a`. */
  ghost predicate AgreeOff(g1: Edges, g2: Edges, a: string) {
    forall u :: u != a ==> (u in g1 <==> u in g2) && (u in g1 ==> g1[u] == g2[u])
  }

  /** The first position of a walk that is `a` or `b`, when its last one is. */
  lemma {:induction false} FirstHit(p: seq<string>, a: string, b: string) returns (t: nat)
    requires p != [] && (p[|p| - 1] == a || p[|p| - 1] == b)
    ensures t < |p| && (p[t] == a || p[t] == b)
    ensures forall i :: 0 <= i < t ==> p[i] != a && p[i] != b
    decreases |p|
  {
    if p[0] == a || p[0] == b {
      t := 0;
    } else {
      var t' := FirstHit(p[1..], a, b);
      t := t' + 1;
      forall i | 0 <= i < t ensures p[i] != a && p[i] != b {
        if i > 0 {
          assert p[i] == p[1..][i - 1];
        }
      }
    }
  }

  /**
   * The start of a walk up to position `t` that does not pass through `a`
   * before `t` is a walk in every graph that differs only at `a`.
   */
  lemma WalkAvoiding(g1: Edges, g2: Edges, p: seq<string>, a: string, t: nat)
    requires IsPath(g1, p) && AgreeOff(g1, g2, a)
    requires 1 <= t < |p| && forall i :: 0 <= i < t ==> p[i] != a
    ensures IsPath(g2, p[..t + 1]) && DependsOn(g2, p[0], p[t])
  {
    var q := p[..t + 1];
    forall k | 0 <= k < |q| - 1
      ensures q[k] in g2 && q[k + 1] in g2[q[k]]
    {
      assert q[k] == p[k] && q[k + 1] == p[k + 1] && p[k] != a;
    }
    assert q[0] == p[0] && q[|q| - 1] == p[t];
  }

  /** Of more elements than a set holds, all drawn from it, two are equal. */
  lemma {:induction false} Pigeonhole(s: seq<string>, r: set<string>) returns (i: nat, j: nat)
    requires forall k :: 0 <= k < |s| ==> s[k] in r
    requires |s| > |r|
    ensures i < j < |s| && s[i] == s[j]
  {
    if k :| 1 <= k < |s| && s[k] == s[0] {
      i, j := 0, k;
    } else {
      var r' := r - {s[0]};
      var t := s[1..];
      forall k | 0 <= k < |t| ensures t[k] in r' {
        assert t[k] == s[k + 1];
      }
      var i', j' := Pigeonhole(t, r');
      i, j := i' + 1, j' + 1;
    }
  }

  /**
   * A non-empty set of nodes each of which has an edge back into the set
   * contains a cycle: walk inside it until some node repeats.
   */
  lemma StuckHasCycle(g: Edges, r: set<string>)
    requires r <= g.Keys && r != {}
    requires forall n :: n in r ==> !(g[n] !! r)
    ensures HasCycle(g)
  {
    var n :| n in r;
    var walk := [n];
    while |walk| <= |r|
      invariant 1 <= |walk| <= |r| + 1
      invariant WalkIn(g, r, walk)
      decreases |r| + 1 - |walk|
    {
      var last := walk[|walk| - 1];
      var m :| m in g[last] && m in r;
      WalkExtend(g, r, walk, m);
      walk := walk + [m];
    }
    WalkRepeats(g, r, walk);
  }

  /** `walk` stays inside `r` and follows edges. */
  ghost predicate WalkIn(g: Edges, r: set<string>, walk: seq<string>) {
    (forall k :: 0 <= k < |walk| ==> walk[k] in r) &&
    (forall k :: 0 <= k < |walk| - 1 ==> walk[k] in g && walk[k + 1] in g[walk[k]])
  }

  /** A walk inside `r` goes on along an edge from its last node into `r`. */
  lemma WalkExtend(g: Edges, r: set<string>, walk: seq<string>, m: string)
    requires walk != [] && WalkIn(g, r, walk) && walk[|walk| - 1] in g
    requires m in g[walk[|walk| - 1]] && m in r
    ensures WalkIn(g, r, walk + [m])
  {
    var w := walk + [m];
    forall k | 0 <= k < |w| - 1 ensures w[k] in g && w[k + 1] in g[w[k]] {
      assert w[k] == walk[k];
      if k + 1 < |walk| {
        assert w[k + 1] == walk[k + 1];
      }
    }
  }

  /** A walk inside `r` longer than `r` visits some node twice, which closes a cycle. */
  lemma WalkRepeats(g: Edges, r: set<string>, walk: seq<string>)
    requires WalkIn(g, r, walk) && |walk| > |r|
    ensures HasCycle(g)
  {
    var i, j := Pigeonhole(walk, r);
    SubPath(g, walk, i, j);
    var c := walk[i..j + 1];
    assert c[0] == walk[i] && c[|c| - 1] == walk[j];
    assert DependsOn(g, walk[i], walk[i]);
  }

  /** The position of a node in an order without repetitions. */
  ghost function IndexOf(order: seq<string>, x: string): (i: nat)
    requires x in order
    ensures i < |order| && order[i] == x
  {
    if order[0] == x then 0 else 1 + IndexOf(order[1..], x)
  }

  /** Along a path, positions in a topological order strictly decrease. */
  lemma {:induction false} PathDescends(g: Edges, order: seq<string>, p: seq<string>, k: nat)
    requires IsTopologicalOrder(g, order) && IsPath(g, p) && p[|p| - 1] in g
    requires 1 <= k < |p|
    ensures p[0] in order && p[k] in order && IndexOf(order, p[k]) < IndexOf(order, p[0])
  {
    assert p[k - 1] in g && p[k] in g;
    assert p[k - 1] in order && p[k] in order;
    var a := IndexOf(order, p[k - 1]);
    var b := IndexOf(order, p[k]);
    assert order[a] in g && order[b] in g[order[a]];
    if k > 1 {
      PathDescends(g, order, p, k - 1);
    }
  }

  /** A graph that has a topological order has no cycle. */
  lemma TopologicalOrderAcyclic(g: Edges, order: seq<string>)
    requires IsTopologicalOrder(g, order)
    ensures !HasCycle(g)
  {
    if HasCycle(g) {
      var a :| a in g && DependsOn(g, a, a);
      var p :| IsPath(g, p) && p[0] == a && p[|p| - 1] == a;
      PathDescends(g, order, p, |p| - 1);
    }
  }

  /**
   * A walk that ends inside a set closed under taking dependants stays
   * inside it all along.
   */
  lemma {:induction false} PathInsideClosed(g: Edges, s: set<string>, p: seq<string>)
    requires forall y, m :: y in s && m in g && y in g[m] ==> m in s
    requires IsPath(g, p) && p[|p| - 1] in s
    ensures forall k :: 0 <= k < |p| ==> p[k] in s
  {
    if |p| > 2 {
      var q := p[1..];
      assert IsPath(g, q) by {
        forall k | 0 <= k < |q| - 1 ensures q[k] in g && q[k + 1] in g[q[k]] {
          assert q[k] == p[k + 1] && q[k + 1] == p[k + 2];
        }
      }
      PathInsideClosed(g, s, q);
      forall k | 1 <= k < |p| ensures p[k] in s {
        assert p[k] == q[k - 1];
      }
    }
    assert p[1] in s && p[0] in g && p[1] in g[p[0]];
  }

  /** The edges of an induced subgraph are edges of the graph; within the set, all of them are kept. */
  lemma InducedPaths(g: Edges, s: set<string>, p: seq<string>)
    requires s <= g.Keys
    ensures IsPath(Induced(g, s), p) ==> IsPath(g, p)
    ensures IsPath(g, p) && (forall k :: 0 <= k < |p| ==> p[k] in s) ==> IsPath(Induced(g, s), p)
  {
  }

  // ---------------------------------------------------------------------------
  // Sorting
  // ---------------------------------------------------------------------------

  /**
   * Repeatedly emit a node all of whose dependencies are already emitted.
   * When no such node is left but some nodes are, those nodes form a cycle.
   */
  method TopoSort(g: Edges) returns (r: Option<seq<string>>)
    requires Closed(g)
    ensures r.Some? ==> IsTopologicalOrder(g, r.value)
    ensures r.None? <==> HasCycle(g)
  {
    var done: seq<string> := [];
    var remaining := g.Keys;
    while remaining != {}
      invariant remaining <= g.Keys
      invariant forall x :: x in done ==> x in g
      invariant forall x :: x in g ==> (x in done <==> x !in remaining)
      invariant forall i, j :: 0 <= i < j < |done| ==> done[i] != done[j]
      invariant forall i :: 0 <= i < |done| ==> g[done[i]] !! remaining
      invariant forall i, j :: 0 <= i < |done| && 0 <= j < |done| && done[i] in g && done[j] in g[done[i]] ==> j < i
      decreases |remaining|
    {
      if n :| n in remaining && g[n] !! remaining {
        done := done + [n];
        remaining := remaining - {n};
      } else {
        StuckHasCycle(g, remaining);
        return None;
      }
    }
    r := Some(done);
    TopologicalOrderAcyclic(g, done);
  }

  // ---------------------------------------------------------------------------
  // The graph object
  // ---------------------------------------------------------------------------

  /**
   * The graph of the `dependency-graph` package, reduced to what the
   * compiler calls: node data and outgoing edges by node name.
   */
  class DepGraph {
    var nodes: map<string, ResolvedEntry>
    var out: Edges

    ghost predicate Valid()
      reads this
    {
      out.Keys == nodes.Keys && Closed(out)
    }

    constructor ()
      ensures Valid() && nodes == map[] && out == map[]
    {
      nodes := map[];
      out := map[];
    }

    /** Adding a name that is already a node changes nothing: its first data stays. */
    method AddNode(name: string, data: ResolvedEntry)
      requires Valid()
      modifies this
      ensures Valid()
      ensures name in old(nodes) ==> nodes == old(nodes) && out == old(out)
      ensures name !in old(nodes) ==> nodes == old(nodes)[name := data] && out == old(out)[name := {}]
    {
      if name !in nodes {
        nodes := nodes[name := data];
        out := out[name := {}];
      }
    }

    predicate HasNode(name: string)
      reads this
    {
      name in nodes
    }

    function GetNodeData(name: string): ResolvedEntry
      requires name in nodes
      reads this
    {
      nodes[name]
    }

    function DirectDependenciesOf(name: string): set<string>
      requires Valid() && name in nodes
      reads this
    {
      out[name]
    }

    /** Both ends must be nodes; an edge that exists already is not doubled. */
    method AddDependency(from: string, to: string)
      requires Valid() && from in nodes && to in nodes
      modifies this
      ensures Valid() && nodes == old(nodes)
      ensures out == old(out)[from := old(out)[from] + {to}]
    {
      out := out[from := out[from] + {to}];
    }

    /** Removing an edge that is not there, even from a missing node, changes nothing. */
    method RemoveDependency(from: string, to: string)
      requires Valid()
      modifies this
      ensures Valid() && nodes == old(nodes)
      ensures out == if from in old(out) then old(out)[from := old(out)[from] - {to}] else old(out)
    {
      if from in out {
        out := out[from := out[from] - {to}];
      }
    }

    /** `overallOrder()`: some topological order of all nodes, and a cycle error exactly when there is a cycle. */
    method OverallOrder() returns (r: Option<seq<string>>)
      requires Valid()
      ensures r.Some? ==> IsTopologicalOrder(out, r.value)
      ensures r.None? <==> HasCycle(out)
    {
      r := TopoSort(out);
    }

    /**
     * `dependantsOf(name)`: every node that depends on `name`. The search
     * fails when it meets a cycle, that is when a cycle passes through
     * `name` or through one of its dependants.
     */
    method DependantsOf(name: string) returns (r: Option<set<string>>)
      requires Valid() && name in nodes
      ensures r.Some? ==> r.value == Dependants(out, name)
      ensures r.None? <==> exists m :: (m == name || DependsOn(out, m, name)) && DependsOn(out, m, m)
    {
      var found := SearchDependants(out, name);
      var order := TopoSort(Induced(out, found + {name}));
      DependantsCycle(out, name, found);
      r := if order.None? then None else Some(found);
    }
  }

  /** Collect the dependants of `name` by following edges backwards from it. */
  method SearchDependants(g: Edges, name: string) returns (found: set<string>)
    requires Closed(g) && name in g
    ensures found == Dependants(g, name)
    ensures forall y, m :: y in found + {name} && m in g && y in g[m] ==> m in found
  {
    found := {};
    var todo: set<string> := {name};
    while todo != {}
      invariant found <= g.Keys
      invariant todo <= found + {name}
      invariant forall m :: m in found ==> DependsOn(g, m, name)
      invariant forall y, m :: y in (found + {name}) - todo && m in g && y in g[m] ==> m in found
      decreases |g.Keys - found|, |todo|
    {
      var x :| x in todo;
      var preds := set m | m in g.Keys && x in g[m] && m !in found;
      SearchStep(g, name, found, todo, x, preds);
      found := found + preds;
      todo := (todo - {x}) + preds;
    }
    assert (found + {name}) - todo == found + {name};
    ClosedHoldsDependants(g, name, found);
  }

  /** One round of the search keeps its invariants and makes progress. */
  lemma SearchStep(g: Edges, name: string, found: set<string>, todo: set<string>, x: string, preds: set<string>)
    requires found <= g.Keys && todo <= found + {name} && x in todo
    requires forall m :: m in found ==> DependsOn(g, m, name)
    requires forall y, m :: y in (found + {name}) - todo && m in g && y in g[m] ==> m in found
    requires preds == set m | m in g.Keys && x in g[m] && m !in found
    ensures forall m :: m in found + preds ==> DependsOn(g, m, name)
    ensures forall y, m :: y in (found + preds + {name}) - ((todo - {x}) + preds) && m in g && y in g[m] ==>
      m in found + preds
    ensures preds == {} || |g.Keys - (found + preds)| < |g.Keys - found|
    ensures preds == {} ==> found + preds == found && |(todo - {x}) + preds| < |todo|
  {
    forall m | m in preds ensures DependsOn(g, m, name) {
      DependsOnCons(g, m, x, name);
    }
    SearchProgress(g, found, todo, x, preds);
    forall y, m | y in (found + preds + {name}) - ((todo - {x}) + preds) && m in g && y in g[m]
      ensures m in found + preds
    {
      if y != x {
        assert y in (found + {name}) - todo;
      }
    }
  }

  /** A round either finds new dependants or shrinks the work list. */
  lemma SearchProgress(g: Edges, found: set<string>, todo: set<string>, x: string, preds: set<string>)
    requires x in todo
    requires preds == set m | m in g.Keys && x in g[m] && m !in found
    ensures preds == {} || |g.Keys - (found + preds)| < |g.Keys - found|
    ensures preds == {} ==> found + preds == found && |(todo - {x}) + preds| < |todo|
  {
    if preds == {} {
      assert (todo - {x}) + preds == todo - {x};
    } else {
      var p :| p in preds;
      var left, before := g.Keys - (found + preds), g.Keys - found;
      assert before == left + (before - left) && left * (before - left) == {};
      assert p in before - left;
    }
  }

  /** A set closed under taking dependants, once `name` is added, holds all of `name`'s dependants. */
  lemma ClosedHoldsDependants(g: Edges, name: string, found: set<string>)
    requires found <= g.Keys
    requires forall m :: m in found ==> DependsOn(g, m, name)
    requires forall y, m :: y in found + {name} && m in g && y in g[m] ==> m in found
    ensures found == Dependants(g, name)
  {
    forall p | IsPath(g, p) && p[|p| - 1] == name
      ensures p[0] in found
    {
      PathInsideClosed(g, found + {name}, p);
      assert p[1] in found + {name} && p[0] in g && p[1] in g[p[0]];
    }
  }

  /**
   * The search meets a cycle exactly when the dependants of `name`, with
   * `name` itself, hold a cycle among themselves.
   */
  lemma DependantsCycle(g: Edges, name: string, found: set<string>)
    requires Closed(g) && name in g
    requires found == Dependants(g, name)
    requires forall y, m :: y in found + {name} && m in g && y in g[m] ==> m in found
    ensures HasCycle(Induced(g, found + {name})) <==>
      exists m :: (m == name || DependsOn(g, m, name)) && DependsOn(g, m, m)
  {
    var v := found + {name};
    var sub := Induced(g, v);
    if HasCycle(sub) {
      var a :| a in sub && DependsOn(sub, a, a);
      var p :| IsPath(sub, p) && p[0] == a && p[|p| - 1] == a;
      InducedPaths(g, v, p);
      assert DependsOn(g, a, a);
    }
    forall m | (m == name || DependsOn(g, m, name)) && DependsOn(g, m, m)
      ensures HasCycle(sub)
    {
      var p :| IsPath(g, p) && p[0] == m && p[|p| - 1] == m;
      if m != name {
        var q :| IsPath(g, q) && q[0] == m && q[|q| - 1] == name;
        assert q[0] in found;
      }
      PathInsideClosed(g, v, p);
      InducedPaths(g, v, p);
      assert DependsOn(sub, m, m);
    }
  }
}
