/** What the depth-first collection of internal/command_collector computes. */
module Collecting {
  import opened NinjaSyntax
  import opened Graphs

  /** Visited nodes, visited edges, and the edges whose visit is over, in that order. */
  datatype Visit = Visit(nodes: set<nat>, edges: set<nat>, finished: seq<nat>) {

    /** Edges whose inputs are still being visited. */
    function Active(): set<nat> { edges - set e | e in finished }
  }

  const NOTHING := Visit({}, {}, [])

  function Collect(g: Graph, st: Visit, n: nat): (r: Visit)
    requires g.Valid() && n < |g.nodes|
    ensures st.nodes <= r.nodes
    decreases |g.AllNodes() - st.nodes|, 0
  {
    if n in st.nodes then st else
    var seen := st.(nodes := st.nodes + {n});
    if g.nodes[n].inEdge.None? then seen else
    var e := g.nodes[n].inEdge.value;
    if e in st.edges then seen else
    assert g.AllNodes() - seen.nodes < g.AllNodes() - st.nodes by {
      assert n in g.AllNodes() - st.nodes && n !in g.AllNodes() - seen.nodes;
    }
    Smaller(g.AllNodes() - seen.nodes, g.AllNodes() - st.nodes);
    var done := CollectAll(g, seen.(edges := st.edges + {e}), g.edges[e].inputs);
    done.(finished := done.finished + [e])
  }

  function CollectAll(g: Graph, st: Visit, ns: seq<nat>): (r: Visit)
    requires g.Valid() && g.NodesOk(ns)
    ensures st.nodes <= r.nodes
    decreases |g.AllNodes() - st.nodes|, |ns|
  {
    if ns == [] then st else
    var r := Collect(g, st, ns[0]);
    NoLarger(g.AllNodes() - r.nodes, g.AllNodes() - st.nodes);
    CollectAll(g, r, ns[1..])
  }

  lemma Smaller(a: set<nat>, b: set<nat>)
    requires a < b
    ensures |a| < |b|
  {
    assert b == a + (b - a);
    assert |b| == |a| + |b - a|;
  }

  lemma NoLarger(a: set<nat>, b: set<nat>)
    requires a <= b
    ensures |a| <= |b|
  {
    assert b == a + (b - a);
    assert |b| == |a| + |b - a|;
  }

  function NonPhony(g: Graph, es: seq<nat>): (r: seq<nat>)
    requires g.Valid()
  {
    if es == [] then []
    else
      var e := es[|es| - 1];
      NonPhony(g, es[..|es| - 1]) + if e < |g.edges| && !g.edges[e].phony then [e] else []
  }

  lemma NonPhonyAppend(g: Graph, es: seq<nat>, e: nat)
    requires g.Valid() && e < |g.edges|
    ensures NonPhony(g, es + [e]) == NonPhony(g, es) + if g.edges[e].phony then [] else [e]
  {
    assert (es + [e])[..|es|] == es;
  }

  /** The commands collected from these roots, in order. */
  function Commands(g: Graph, roots: seq<nat>): seq<nat>
    requires g.Valid() && g.NodesOk(roots)
  {
    NonPhony(g, CollectAll(g, NOTHING, roots).finished)
  }
}
