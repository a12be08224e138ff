/** Exactness and order of the collected commands. */
module CollectingProofs {
  import opened NinjaSyntax
  import opened Graphs
  import opened Collecting

  predicate Distinct(s: seq<nat>)
  {
    forall i, j :: 0 <= i < j < |s| ==> s[i] != s[j]
  }

  /**
   * What every visit keeps: a visited node's edge is visited, a finished edge's
   * inputs are visited, and no edge finishes twice.
   */
  ghost predicate Consistent(g: Graph, st: Visit)
  {
    && (forall n :: n in st.nodes && g.InEdge(n).Some? ==> g.InEdge(n).value in st.edges)
    && (forall e :: e in st.edges ==> e < |g.edges|)
    && (forall e :: e in st.finished ==> e in st.edges)
    && (forall e, m :: e in st.finished && m in g.edges[e].inputs ==> m in st.nodes)
    && Distinct(st.finished)
  }

  /** `r` continues `st`: the order so far stands, and the same edges are still active. */
  ghost predicate Extends(st: Visit, r: Visit)
  {
    && st.nodes <= r.nodes && st.edges <= r.edges
    && st.finished <= r.finished
    && r.Active() == st.Active()
  }

  lemma Begin(g: Graph, st: Visit, n: nat, e: nat)
    requires g.Valid() && n < |g.nodes| && g.nodes[n].inEdge == Some(e)
    requires Consistent(g, st) && e !in st.edges
    ensures var st' := Visit(st.nodes + {n}, st.edges + {e}, st.finished);
            Consistent(g, st') && st'.Active() == st.Active() + {e} && e !in st.Active()
  {
  }

  lemma Finish(g: Graph, st: Visit, begun: Visit, e: nat, done: Visit)
    requires Consistent(g, begun) && Consistent(g, done) && Extends(begun, done)
    requires begun.Active() == st.Active() + {e} && e !in st.Active() && e < |g.edges|
    requires st.nodes <= begun.nodes && st.edges <= begun.edges && st.finished == begun.finished
    requires forall m :: m in g.edges[e].inputs ==> m in done.nodes
    ensures var r := done.(finished := done.finished + [e]);
            Consistent(g, r) && Extends(st, r)
  {
    var r := done.(finished := done.finished + [e]);
    assert e in done.Active();
    assert (set x | x in r.finished) == (set x | x in done.finished) + {e};
  }

  lemma {:induction false} CollectKeeps(g: Graph, st: Visit, n: nat)
    requires g.Valid() && n < |g.nodes| && Consistent(g, st)
    ensures var r := Collect(g, st, n);
            Consistent(g, r) && Extends(st, r) && n in r.nodes
    decreases |g.AllNodes() - st.nodes|, 0
  {
    if n !in st.nodes && g.nodes[n].inEdge.Some? && g.nodes[n].inEdge.value !in st.edges {
      var e := g.nodes[n].inEdge.value;
      var begun := Visit(st.nodes + {n}, st.edges + {e}, st.finished);
      Begin(g, st, n, e);
      assert n in g.AllNodes() - st.nodes && n !in g.AllNodes() - begun.nodes;
      Smaller(g.AllNodes() - begun.nodes, g.AllNodes() - st.nodes);
      CollectAllKeeps(g, begun, g.edges[e].inputs);
      Finish(g, st, begun, e, CollectAll(g, begun, g.edges[e].inputs));
    }
  }

  lemma {:induction false} CollectAllKeeps(g: Graph, st: Visit, ns: seq<nat>)
    requires g.Valid() && g.NodesOk(ns) && Consistent(g, st)
    ensures var r := CollectAll(g, st, ns);
            Consistent(g, r) && Extends(st, r) && forall m :: m in ns ==> m in r.nodes
    decreases |g.AllNodes() - st.nodes|, |ns|
  {
    if ns != [] {
      CollectKeeps(g, st, ns[0]);
      var r := Collect(g, st, ns[0]);
      NoLarger(g.AllNodes() - r.nodes, g.AllNodes() - st.nodes);
      CollectAllKeeps(g, r, ns[1..]);
      assert forall m :: m in ns ==> m == ns[0] || m in ns[1..];
    }
  }

  /** Only what the roots need is visited. */
  ghost predicate OnlyNeeded(g: Graph, st: Visit, roots: seq<nat>)
  {
    && (forall n :: n in st.nodes ==> g.Reachable(roots, n))
    && (forall e :: e in st.edges ==> g.Needed(roots, e))
  }

  lemma {:induction false} CollectOnlyNeeded(g: Graph, st: Visit, n: nat, roots: seq<nat>)
    requires g.Valid() && n < |g.nodes| && OnlyNeeded(g, st, roots) && g.Reachable(roots, n)
    ensures OnlyNeeded(g, Collect(g, st, n), roots)
    decreases |g.AllNodes() - st.nodes|, 0
  {
    if n !in st.nodes && g.nodes[n].inEdge.Some? && g.nodes[n].inEdge.value !in st.edges {
      var e := g.nodes[n].inEdge.value;
      assert g.InEdge(n) == Some(e);
      assert g.Needed(roots, e);
      var begun := Visit(st.nodes + {n}, st.edges + {e}, st.finished);
      assert n in g.AllNodes() - st.nodes && n !in g.AllNodes() - begun.nodes;
      Smaller(g.AllNodes() - begun.nodes, g.AllNodes() - st.nodes);
      forall m | m in g.edges[e].inputs ensures g.Reachable(roots, m) {
        assert g.Feeds(m, n);
        ReachableStep(g, roots, n, m);
      }
      CollectAllOnlyNeeded(g, begun, g.edges[e].inputs, roots);
    }
  }

  lemma {:induction false} CollectAllOnlyNeeded(g: Graph, st: Visit, ns: seq<nat>, roots: seq<nat>)
    requires g.Valid() && g.NodesOk(ns) && OnlyNeeded(g, st, roots)
    requires forall m :: m in ns ==> g.Reachable(roots, m)
    ensures OnlyNeeded(g, CollectAll(g, st, ns), roots)
    decreases |g.AllNodes() - st.nodes|, |ns|
  {
    if ns != [] {
      CollectOnlyNeeded(g, st, ns[0], roots);
      var r := Collect(g, st, ns[0]);
      NoLarger(g.AllNodes() - r.nodes, g.AllNodes() - st.nodes);
      CollectAllOnlyNeeded(g, r, ns[1..], roots);
    }
  }

  /** With nothing active, the visited nodes are closed under inputs. */
  lemma {:induction false} ClosedUnderPaths(g: Graph, st: Visit, p: seq<nat>)
    requires Consistent(g, st) && st.Active() == {}
    requires |p| > 0 && p[0] in st.nodes && g.IsPath(p)
    ensures p[|p| - 1] in st.nodes
  {
    if |p| > 1 {
      assert g.Feeds(p[1], p[0]);
      var e := g.InEdge(p[0]).value;
      assert e in st.edges && e !in st.Active();
      assert e in st.finished;
      var q := p[1..];
      assert forall i :: 0 <= i < |q| - 1 ==> g.Feeds(q[i + 1], q[i]) by {
        forall i | 0 <= i < |q| - 1 ensures g.Feeds(q[i + 1], q[i]) { assert g.Feeds(p[i + 2], p[i + 1]); }
      }
      ClosedUnderPaths(g, st, q);
    }
  }

  lemma {:induction false} NonPhonyMembers(g: Graph, es: seq<nat>)
    requires g.Valid()
    ensures forall e: nat :: e in NonPhony(g, es) <==> e in es && e < |g.edges| && !g.edges[e].phony
  {
    if es != [] {
      var e, rest := es[|es| - 1], es[..|es| - 1];
      NonPhonyMembers(g, rest);
      assert es == rest + [e];
    }
  }

  lemma {:induction false} NonPhonyDistinct(g: Graph, es: seq<nat>)
    requires g.Valid()
    requires Distinct(es)
    ensures Distinct(NonPhony(g, es))
  {
    if es != [] {
      var e, rest := es[|es| - 1], es[..|es| - 1];
      NonPhonyDistinct(g, rest);
      NonPhonyMembers(g, rest);
      assert forall i :: 0 <= i < |rest| ==> rest[i] == es[i];
      assert e !in rest;
      var r, all := NonPhony(g, rest), NonPhony(g, es);
      forall i, j | 0 <= i < j < |all| ensures all[i] != all[j] {
        assert all[i] == r[i] && r[i] in r;
        if j < |r| { assert all[j] == r[j]; }
      }
    }
  }

  lemma AtTheEnd(g: Graph, roots: seq<nat>)
    requires g.Valid() && g.NodesOk(roots)
    ensures var st := CollectAll(g, NOTHING, roots);
            Consistent(g, st) && st.Active() == {} && OnlyNeeded(g, st, roots) &&
            forall m :: m in roots ==> m in st.nodes
  {
    CollectAllKeeps(g, NOTHING, roots);
    forall m | m in roots ensures g.Reachable(roots, m) { RootReachable(g, roots, m); }
    CollectAllOnlyNeeded(g, NOTHING, roots, roots);
  }

  lemma NeededIsFinished(g: Graph, roots: seq<nat>, st: Visit, e: nat)
    requires Consistent(g, st) && st.Active() == {} && forall m :: m in roots ==> m in st.nodes
    requires g.Needed(roots, e)
    ensures e in st.finished
  {
    var n :| g.InEdge(n) == Some(e) && g.Reachable(roots, n);
    var p :| |p| > 0 && p[0] in roots && p[|p| - 1] == n && g.IsPath(p);
    ClosedUnderPaths(g, st, p);
    assert e in st.edges && e !in st.Active();
  }

  /**
   * Collection is exact, on every graph, cyclic or not: each command that some
   * root needs is collected once, and nothing else is.
   */
  lemma CollectionIsExact(g: Graph, roots: seq<nat>)
    requires g.Valid() && g.NodesOk(roots)
    ensures Distinct(Commands(g, roots))
    ensures forall e: nat :: e in Commands(g, roots) <==> e < |g.edges| && !g.edges[e].phony && g.Needed(roots, e)
  {
    FinishedIsNeeded(g, roots);
    NonPhonyMembers(g, CollectAll(g, NOTHING, roots).finished);
    AtTheEnd(g, roots);
    NonPhonyDistinct(g, CollectAll(g, NOTHING, roots).finished);
  }

  lemma FinishedIsNeeded(g: Graph, roots: seq<nat>)
    requires g.Valid() && g.NodesOk(roots)
    ensures forall e: nat :: e in CollectAll(g, NOTHING, roots).finished <==> g.Needed(roots, e)
  {
    var st := CollectAll(g, NOTHING, roots);
    AtTheEnd(g, roots);
    forall e: nat ensures e in st.finished <==> g.Needed(roots, e) {
      if g.Needed(roots, e) { NeededIsFinished(g, roots, st, e); }
    }
  }

  /** So the order of the roots matters only for the order of the commands. */
  lemma RootOrderIrrelevant(g: Graph, roots: seq<nat>, others: seq<nat>)
    requires g.Valid() && g.NodesOk(roots) && g.NodesOk(others)
    requires forall n :: n in roots <==> n in others
    ensures forall e :: e in Commands(g, roots) <==> e in Commands(g, others)
  {
    CollectionIsExact(g, roots);
    CollectionIsExact(g, others);
    forall n ensures g.Reachable(roots, n) <==> g.Reachable(others, n) {
    }
  }
}
