/** The exact order of the collected commands: inputs before what is made from them, from left to right. */
module Postorder {
  import opened NinjaSyntax
  import opened Graphs
  import opened Collecting
  import opened CollectingProofs
  import opened CommandCollectors

  /** Nothing that leads to node `n` is among these nodes, or made by one of these edges. */
  ghost predicate Apart(g: Graph, n: nat, nodes: set<nat>, edges: set<nat>)
  {
    forall m :: g.Reachable([n], m) ==> m !in nodes && (g.InEdge(m).Some? ==> g.InEdge(m).value !in edges)
  }

  function Adding(st: Visit, nodes: set<nat>, edges: set<nat>): Visit
  {
    Visit(st.nodes + nodes, st.edges + edges, st.finished)
  }

  lemma {:induction false} ReachableBelow(g: Graph, n: nat, m: nat, x: nat)
    requires g.Feeds(m, n) && g.Reachable([m], x)
    ensures g.Reachable([n], x)
  {
    var p :| |p| > 0 && p[0] in [m] && p[|p| - 1] == x && g.IsPath(p);
    var q := [n] + p;
    forall i | 0 <= i < |q| - 1 ensures g.Feeds(q[i + 1], q[i]) {
      if i > 0 { assert g.Feeds(p[i], p[i - 1]); }
    }
    assert g.IsPath(q) && q[0] in [n];
  }

  lemma ApartBelow(g: Graph, n: nat, e: nat, nodes: set<nat>, edges: set<nat>)
    requires g.Valid() && n < |g.nodes| && g.nodes[n].inEdge == Some(e) && Apart(g, n, nodes, edges)
    ensures forall m :: m in g.edges[e].inputs ==> Apart(g, m, nodes, edges)
  {
    forall m, x | m in g.edges[e].inputs && g.Reachable([m], x) ensures g.Reachable([n], x) {
      assert g.Feeds(m, n);
      ReachableBelow(g, n, m, x);
    }
  }

  /** What was visited before makes no difference for what it does not lead to. */
  lemma {:induction false} CollectApart(g: Graph, st: Visit, n: nat, nodes: set<nat>, edges: set<nat>)
    requires g.Valid() && n < |g.nodes| && Apart(g, n, nodes, edges)
    ensures Collect(g, Adding(st, nodes, edges), n) == Adding(Collect(g, st, n), nodes, edges)
    decreases |g.AllNodes() - st.nodes|, 0
  {
    assert n !in nodes && (g.InEdge(n).Some? ==> g.InEdge(n).value !in edges) by {
      RootReachable(g, [n], n);
    }
    if n !in st.nodes {
      var seen := st.(nodes := st.nodes + {n});
      assert Adding(st, nodes, edges).nodes + {n} == Adding(seen, nodes, edges).nodes;
      if g.nodes[n].inEdge.Some? && g.nodes[n].inEdge.value !in st.edges {
        var e := g.nodes[n].inEdge.value;
        var begun := seen.(edges := st.edges + {e});
        assert Adding(st, nodes, edges).edges + {e} == Adding(begun, nodes, edges).edges;
        assert n in g.AllNodes() - st.nodes && n !in g.AllNodes() - begun.nodes;
        Smaller(g.AllNodes() - begun.nodes, g.AllNodes() - st.nodes);
        ApartBelow(g, n, e, nodes, edges);
        hide Apart;
        CollectAllApart(g, begun, g.edges[e].inputs, nodes, edges);
      }
    }
  }

  lemma {:induction false} CollectAllApart(g: Graph, st: Visit, ns: seq<nat>, nodes: set<nat>, edges: set<nat>)
    requires g.Valid() && g.NodesOk(ns) && forall m :: m in ns ==> Apart(g, m, nodes, edges)
    ensures CollectAll(g, Adding(st, nodes, edges), ns) == Adding(CollectAll(g, st, ns), nodes, edges)
    decreases |g.AllNodes() - st.nodes|, |ns|
  {
    hide Apart;
    if ns != [] {
      CollectApart(g, st, ns[0], nodes, edges);
      var r := Collect(g, st, ns[0]);
      NoLarger(g.AllNodes() - r.nodes, g.AllNodes() - st.nodes);
      CollectAllApart(g, r, ns[1..], nodes, edges);
    }
  }

  /** Edges on a path depend on those further down it. */
  lemma {:induction false} DependsAlong(g: Graph, f: nat, e: nat, p: seq<nat>)
    requires g.Valid() && f < |g.edges| && |p| > 0 && p[0] in g.edges[f].inputs && g.IsPath(p)
    requires g.InEdge(p[|p| - 1]) == Some(e)
    ensures g.DependsOn(f, e)
    decreases |p|
  {
    var i :| 0 <= i < |g.edges[f].inputs| && g.edges[f].inputs[i] == p[0];
    if |p| == 1 {
      assert g.DirectlyDepends(f, e);
      DirectIsDependency(g, f, e);
    } else {
      assert g.Feeds(p[1], p[0]);
      var h := g.InEdge(p[0]).value;
      assert g.DirectlyDepends(f, h);
      DirectIsDependency(g, f, h);
      var q := p[1..];
      forall k | 0 <= k < |q| - 1 ensures g.Feeds(q[k + 1], q[k]) { assert g.Feeds(p[k + 2], p[k + 1]); }
      DependsAlong(g, h, e, q);
      DependsTransitive(g, f, h, e);
    }
  }

  lemma InputsApart(g: Graph, n: nat, e: nat)
    requires g.Valid() && n < |g.nodes| && g.nodes[n].inEdge == Some(e) && !g.DependsOn(e, e)
    ensures forall m :: m in g.edges[e].inputs ==> Apart(g, m, {n}, {e})
  {
    forall m | m in g.edges[e].inputs ensures Apart(g, m, {n}, {e}) {
      forall x | g.Reachable([m], x) ensures x != n && g.InEdge(x) != Some(e) {
        if g.InEdge(x) == Some(e) {
          var p :| |p| > 0 && p[0] in [m] && p[|p| - 1] == x && g.IsPath(p);
          DependsAlong(g, e, e, p);
        }
      }
    }
  }

  /**
   * The commands of a node that does not depend on itself: those of its inputs,
   * from the first to the last, and then its own.
   */
  lemma OwnCommandLast(g: Graph, n: nat, e: nat)
    requires g.Valid() && n < |g.nodes| && g.nodes[n].inEdge == Some(e) && !g.DependsOn(e, e)
    ensures Commands(g, [n]) == Commands(g, g.edges[e].inputs) + if g.edges[e].phony then [] else [e]
  {
    var inputs := g.edges[e].inputs;
    InputsApart(g, n, e);
    hide Apart;
    CollectAllApart(g, NOTHING, inputs, {n}, {e});
    var done := CollectAll(g, NOTHING, inputs);
    assert Adding(NOTHING, {n}, {e}) == Visit({n}, {e}, []);
    assert Collect(g, NOTHING, n).finished == done.finished + [e];
    assert CollectAll(g, NOTHING, [n]) == Collect(g, NOTHING, n) by { assert [n][1..] == []; }
    NonPhonyAppend(g, done.finished, e);
  }

  lemma {:induction false} NonPhonyPrefix(g: Graph, a: seq<nat>, b: seq<nat>)
    requires g.Valid() && a <= b
    ensures NonPhony(g, a) <= NonPhony(g, b)
    decreases |b|
  {
    if |a| < |b| {
      var rest := b[..|b| - 1];
      assert a <= rest;
      NonPhonyPrefix(g, a, rest);
    } else {
      assert a == b;
    }
  }

  /** The commands of more nodes start with those of the first ones. */
  lemma FirstCommandsFirst(g: Graph, a: seq<nat>, n: nat)
    requires g.Valid() && g.NodesOk(a) && n < |g.nodes|
    ensures Commands(g, a) <= Commands(g, a + [n])
  {
    var st := CollectAll(g, NOTHING, a);
    CollectAllKeeps(g, NOTHING, a);
    CollectAllAppend(g, NOTHING, a, n);
    CollectKeeps(g, st, n);
    NonPhonyPrefix(g, st.finished, Collect(g, st, n).finished);
  }
}
