/** When the collected commands are in dependency order: unless one of them depends on itself. */
module DependencyOrder {
  import opened NinjaSyntax
  import opened Graphs
  import opened Collecting
  import opened CollectingProofs

  /** Every edge that does not depend on itself comes behind all the edges it depends on. */
  ghost predicate Ordered(g: Graph, es: seq<nat>)
  {
    forall j: nat, b: nat :: 0 <= j < |es| && !g.DependsOn(es[j], es[j]) && g.DependsOn(es[j], b) ==> b in es[..j]
  }

  /** Whatever is being visited needs what node `n` is made by. */
  ghost predicate AllAwait(g: Graph, st: Visit, n: nat)
  {
    forall a, e :: a in st.Active() && g.InEdge(n) == Some(e) ==> g.DependsOn(a, e)
  }

  lemma AwaitInputs(g: Graph, st: Visit, n: nat, e: nat, begun: Visit)
    requires g.Valid() && n < |g.nodes| && g.nodes[n].inEdge == Some(e)
    requires AllAwait(g, st, n) && begun.Active() == st.Active() + {e}
    ensures forall m :: m in g.edges[e].inputs ==> AllAwait(g, begun, m)
  {
    forall m, a, b | m in g.edges[e].inputs && a in begun.Active() && g.InEdge(m) == Some(b)
      ensures g.DependsOn(a, b)
    {
      assert g.DirectlyDepends(e, b);
      DirectIsDependency(g, e, b);
      if a != e {
        assert g.InEdge(n) == Some(e);
        DependsTransitive(g, a, e, b);
      }
    }
  }

  /** Whatever is still being visited needs edge `e`, or is edge `e`. */
  ghost predicate AllNeed(g: Graph, st: Visit, e: nat)
  {
    forall a :: a in st.Active() ==> a == e || g.DependsOn(a, e)
  }

  /** When the inputs of an edge are done, everything behind them is, unless the edge is on a cycle. */
  lemma {:induction false} ChainFinished(g: Graph, done: Visit, e: nat, p: seq<nat>)
    requires g.Valid() && Consistent(g, done) && AllNeed(g, done, e) && !g.DependsOn(e, e) && e < |g.edges|
    requires forall m :: m in g.edges[e].inputs ==> m in done.nodes
    requires |p| >= 2 && p[0] == e && g.IsChain(p)
    ensures p[|p| - 1] in done.finished
    decreases |p|
  {
    var x, y := p[|p| - 2], p[|p| - 1];
    assert g.DependsOn(e, y);
    assert g.DirectlyDepends(x, y);
    if |p| > 2 {
      var q := p[..|p| - 1];
      forall i | 0 <= i < |q| - 1 ensures g.DirectlyDepends(q[i], q[i + 1]) { assert g.DirectlyDepends(p[i], p[i + 1]); }
      ChainFinished(g, done, e, q);
    }
    var i :| 0 <= i < |g.edges[x].inputs| && g.InEdge(g.edges[x].inputs[i]) == Some(y);
    assert g.edges[x].inputs[i] in done.nodes && y in done.edges;
    if y in done.Active() && y != e { DependsTransitive(g, e, y, e); }
  }

  /** So the edge can be put behind everything it needs. */
  lemma OrderedFinish(g: Graph, done: Visit, e: nat)
    requires g.Valid() && Consistent(g, done) && AllNeed(g, done, e) && Ordered(g, done.finished) && e < |g.edges|
    requires forall m :: m in g.edges[e].inputs ==> m in done.nodes
    ensures Ordered(g, done.finished + [e])
  {
    var es := done.finished + [e];
    forall j: nat, b: nat | 0 <= j < |es| && !g.DependsOn(es[j], es[j]) && g.DependsOn(es[j], b)
      ensures b in es[..j]
    {
      if j < |done.finished| {
        assert es[..j] == done.finished[..j];
      } else {
        var p :| |p| >= 2 && p[0] == e && p[|p| - 1] == b && g.IsChain(p);
        ChainFinished(g, done, e, p);
        assert es[..j] == done.finished;
      }
    }
  }

  lemma {:induction false} CollectOrdered(g: Graph, st: Visit, n: nat)
    requires g.Valid() && n < |g.nodes|
    requires Consistent(g, st) && Ordered(g, st.finished) && AllAwait(g, st, n)
    ensures Ordered(g, Collect(g, st, n).finished)
    decreases |g.AllNodes() - st.nodes|, 0
  {
    if n !in st.nodes && g.nodes[n].inEdge.Some? && g.nodes[n].inEdge.value !in st.edges {
      var e := g.nodes[n].inEdge.value;
      var begun := Visit(st.nodes + {n}, st.edges + {e}, st.finished);
      Begin(g, st, n, e);
      assert n in g.AllNodes() - st.nodes && n !in g.AllNodes() - begun.nodes;
      Smaller(g.AllNodes() - begun.nodes, g.AllNodes() - st.nodes);
      AwaitInputs(g, st, n, e, begun);
      CollectAllOrdered(g, begun, g.edges[e].inputs);
      CollectAllKeeps(g, begun, g.edges[e].inputs);
      var done := CollectAll(g, begun, g.edges[e].inputs);
      assert AllNeed(g, done, e) by { assert g.InEdge(n) == Some(e) && done.Active() == st.Active() + {e}; }
      OrderedFinish(g, done, e);
    }
  }

  lemma {:induction false} CollectAllOrdered(g: Graph, st: Visit, ns: seq<nat>)
    requires g.Valid() && g.NodesOk(ns)
    requires Consistent(g, st) && Ordered(g, st.finished)
    requires forall m :: m in ns ==> AllAwait(g, st, m)
    ensures Ordered(g, CollectAll(g, st, ns).finished)
    decreases |g.AllNodes() - st.nodes|, |ns|
  {
    if ns != [] {
      CollectKeeps(g, st, ns[0]);
      CollectOrdered(g, st, ns[0]);
      var r := Collect(g, st, ns[0]);
      NoLarger(g.AllNodes() - r.nodes, g.AllNodes() - st.nodes);
      assert forall m :: m in ns ==> AllAwait(g, r, m);
      CollectAllOrdered(g, r, ns[1..]);
    }
  }

  /** Where a command stands among the commands, by where it stands among all edges. */
  lemma {:induction false} CommandPosition(g: Graph, es: seq<nat>, k: nat) returns (j: nat)
    requires g.Valid() && k < |NonPhony(g, es)|
    ensures j < |es| && es[j] == NonPhony(g, es)[k] && NonPhony(g, es[..j]) == NonPhony(g, es)[..k]
  {
    var rest := es[..|es| - 1];
    if k < |NonPhony(g, rest)| {
      j := CommandPosition(g, rest, k);
      assert rest[..j] == es[..j];
    } else {
      j := |es| - 1;
    }
  }

  /** Each command comes after every command it depends on, chains of phony edges included. */
  ghost predicate InOrder(g: Graph, commands: seq<nat>)
  {
    forall k: nat, b: nat :: k < |commands| && b < |g.edges| && !g.edges[b].phony && g.DependsOn(commands[k], b) ==>
      b in commands[..k]
  }

  lemma CommandInOrder(g: Graph, roots: seq<nat>, k: nat, b: nat)
    requires g.Valid() && g.NodesOk(roots) && k < |Commands(g, roots)|
    requires !g.DependsOn(Commands(g, roots)[k], Commands(g, roots)[k])
    requires b < |g.edges| && !g.edges[b].phony && g.DependsOn(Commands(g, roots)[k], b)
    ensures b in Commands(g, roots)[..k]
  {
    CollectAllOrdered(g, NOTHING, roots);
    var es := CollectAll(g, NOTHING, roots).finished;
    var j := CommandPosition(g, es, k);
    NonPhonyMembers(g, es[..j]);
  }

  /**
   * Collected commands are in dependency order exactly when no command that some
   * root needs depends on itself. Cycles that the roots do not need and cycles
   * of phony edges do no harm.
   */
  lemma CommandsInDependencyOrder(g: Graph, roots: seq<nat>)
    requires g.Valid() && g.NodesOk(roots)
    ensures InOrder(g, Commands(g, roots)) <==>
            forall e: nat :: e < |g.edges| && !g.edges[e].phony && g.Needed(roots, e) ==> !g.DependsOn(e, e)
  {
    hide Commands;
    var commands := Commands(g, roots);
    CollectionIsExact(g, roots);
    if forall e: nat :: e < |g.edges| && !g.edges[e].phony && g.Needed(roots, e) ==> !g.DependsOn(e, e) {
      forall k: nat, b: nat | k < |commands| && b < |g.edges| && !g.edges[b].phony && g.DependsOn(commands[k], b)
        ensures b in commands[..k]
      {
        assert commands[k] in commands;
        CommandInOrder(g, roots, k, b);
      }
    }
    if InOrder(g, commands) {
      forall e: nat | e < |g.edges| && !g.edges[e].phony && g.Needed(roots, e) ensures !g.DependsOn(e, e) {
        var k :| 0 <= k < |commands| && commands[k] == e;
        assert e !in commands[..k];
      }
    }
  }
}
