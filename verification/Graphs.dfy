/** The dependency graph: nodes are files, edges are the build statements that make them. */
module Graphs {
  import opened NinjaSyntax

  datatype Node = Node(path: string, inEdge: Option<nat>)

  datatype Edge = Edge(rule: string, inputs: seq<nat>, outputs: seq<nat>, phony: bool, command: string)

  function Below(n: nat): (r: set<nat>)
    ensures forall i: nat :: i in r <==> i < n
  {
    if n == 0 then {} else Below(n - 1) + {n - 1}
  }

  datatype Graph = Graph(nodes: seq<Node>, edges: seq<Edge>) {

    /** Nodes and edges refer to each other by position. */
    predicate Valid()
    {
      && (forall n :: 0 <= n < |nodes| && nodes[n].inEdge.Some? ==> nodes[n].inEdge.value < |edges|)
      && (forall e :: 0 <= e < |edges| ==> NodesOk(edges[e].inputs))
    }

    predicate NodesOk(ns: seq<nat>)
    {
      forall i :: 0 <= i < |ns| ==> ns[i] < |nodes|
    }

    function AllNodes(): set<nat> { Below(|nodes|) }

    function AllEdges(): set<nat> { Below(|edges|) }

    /** The edge that makes node `n`, if any. */
    function InEdge(n: nat): Option<nat>
    {
      if n < |nodes| then nodes[n].inEdge else None
    }

    /** Edge `a` has an input that edge `b` makes. */
    predicate DirectlyDepends(a: nat, b: nat)
    {
      a < |edges| && exists i :: 0 <= i < |edges[a].inputs| && InEdge(edges[a].inputs[i]) == Some(b)
    }

    predicate IsChain(p: seq<nat>)
    {
      forall i :: 0 <= i < |p| - 1 ==> DirectlyDepends(p[i], p[i + 1])
    }

    /** Edge `a` needs edge `b`, directly or through others, phony ones included. */
    ghost predicate DependsOn(a: nat, b: nat)
    {
      exists p :: |p| >= 2 && p[0] == a && p[|p| - 1] == b && IsChain(p)
    }

    /** Following edges backwards from one node to one of its inputs, and so on. */
    predicate IsPath(p: seq<nat>)
    {
      forall i :: 0 <= i < |p| - 1 ==> Feeds(p[i + 1], p[i])
    }

    /** `m` is an input of the edge that makes `n`. */
    predicate Feeds(m: nat, n: nat)
    {
      InEdge(n).Some? && InEdge(n).value < |edges| && m in edges[InEdge(n).value].inputs
    }

    ghost predicate Reachable(roots: seq<nat>, n: nat)
    {
      exists p :: |p| > 0 && p[0] in roots && p[|p| - 1] == n && IsPath(p)
    }

    /** An edge that is needed to make one of the roots. */
    ghost predicate Needed(roots: seq<nat>, e: nat)
    {
      exists n :: InEdge(n) == Some(e) && Reachable(roots, n)
    }
  }

  lemma DirectIsDependency(g: Graph, a: nat, b: nat)
    requires g.DirectlyDepends(a, b)
    ensures g.DependsOn(a, b)
  {
    var p := [a, b];
    assert g.IsChain(p);
  }

  lemma DependsTransitive(g: Graph, a: nat, b: nat, c: nat)
    requires g.DependsOn(a, b) && g.DependsOn(b, c)
    ensures g.DependsOn(a, c)
  {
    var p :| |p| >= 2 && p[0] == a && p[|p| - 1] == b && g.IsChain(p);
    var q :| |q| >= 2 && q[0] == b && q[|q| - 1] == c && g.IsChain(q);
    var r := p + q[1..];
    forall i | 0 <= i < |r| - 1
      ensures g.DirectlyDepends(r[i], r[i + 1])
    {
      if i < |p| - 1 {
        assert g.DirectlyDepends(p[i], p[i + 1]);
      } else {
        assert g.DirectlyDepends(q[i - |p| + 1], q[i - |p| + 2]);
      }
    }
    assert g.IsChain(r);
  }

  lemma ReachableStep(g: Graph, roots: seq<nat>, n: nat, m: nat)
    requires g.Reachable(roots, n) && g.Feeds(m, n)
    ensures g.Reachable(roots, m)
  {
    var p :| |p| > 0 && p[0] in roots && p[|p| - 1] == n && g.IsPath(p);
    var q := p + [m];
    forall i | 0 <= i < |q| - 1
      ensures g.Feeds(q[i + 1], q[i])
    {
      if i < |p| - 1 { assert g.Feeds(p[i + 1], p[i]); }
    }
    assert g.IsPath(q);
  }

  lemma RootReachable(g: Graph, roots: seq<nat>, n: nat)
    requires n in roots
    ensures g.Reachable(roots, n)
  {
    assert g.IsPath([n]);
  }
}
