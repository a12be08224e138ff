/** The collector object of internal/command_collector/command_collector.go. */
module CommandCollectors {
  import opened NinjaSyntax
  import opened Graphs
  import opened Collecting

  class CommandCollector {
    const g: Graph
    var visitedNodes: set<nat>
    var visitedEdges: set<nat>
    var inEdges: seq<nat>
    /** The edges whose visit is over, phony ones included. */
    ghost var finished: seq<nat>

    ghost function State(): Visit
      reads this
    {
      Visit(visitedNodes, visitedEdges, finished)
    }

    ghost predicate Valid()
      reads this
    {
      g.Valid() && inEdges == NonPhony(g, finished)
    }

    constructor (g: Graph)
      requires g.Valid()
      ensures this.g == g && Valid() && State() == NOTHING
    {
      this.g := g;
      visitedNodes, visitedEdges, inEdges := {}, {}, [];
      finished := [];
    }

    method CollectFrom(n: nat)
      requires Valid() && n < |g.nodes|
      modifies this
      ensures Valid() && State() == Collect(g, old(State()), n)
      decreases |g.AllNodes() - visitedNodes|, 0
    {
      if n in visitedNodes { return; }
      visitedNodes := visitedNodes + {n};
      assert n in g.AllNodes() - old(visitedNodes) && n !in g.AllNodes() - visitedNodes;
      Smaller(g.AllNodes() - visitedNodes, g.AllNodes() - old(visitedNodes));
      if g.nodes[n].inEdge.None? { return; }
      var edge := g.nodes[n].inEdge.value;
      if edge in visitedEdges { return; }
      visitedEdges := visitedEdges + {edge};
      ghost var begun := State();
      var inputs := g.edges[edge].inputs;
      for i := 0 to |inputs|
        invariant Valid()
        invariant begun.nodes <= visitedNodes
        invariant CollectAll(g, begun, inputs) == CollectAll(g, State(), inputs[i..])
      {
        NoLarger(g.AllNodes() - visitedNodes, g.AllNodes() - begun.nodes);
        CollectFrom(inputs[i]);
      }
      assert inputs[|inputs|..] == [];
      NonPhonyAppend(g, finished, edge);
      if !g.edges[edge].phony {
        inEdges := inEdges + [edge];
      }
      finished := finished + [edge];
    }
  }

  /** The targets tool: collects from each target in turn, and gives up on one that nothing makes. */
  method CollectTargets(g: Graph, targets: seq<nat>) returns (commands: Option<seq<nat>>)
    requires g.Valid() && g.NodesOk(targets)
    ensures commands.None? <==> exists i :: 0 <= i < |targets| && g.nodes[targets[i]].inEdge.None?
    ensures commands.Some? ==> commands.value == Commands(g, targets)
  {
    var collector := new CommandCollector(g);
    for i := 0 to |targets|
      invariant fresh(collector) && collector.g == g && collector.Valid()
      invariant collector.State() == CollectAll(g, NOTHING, targets[..i])
      invariant forall k :: 0 <= k < i ==> g.nodes[targets[k]].inEdge.Some?
    {
      if g.nodes[targets[i]].inEdge.None? { return None; }
      assert targets[..i + 1] == targets[..i] + [targets[i]];
      CollectAllAppend(g, NOTHING, targets[..i], targets[i]);
      collector.CollectFrom(targets[i]);
    }
    assert targets[..|targets|] == targets;
    commands := Some(collector.inEdges);
  }

  lemma {:induction false} CollectAllAppend(g: Graph, st: Visit, ns: seq<nat>, n: nat)
    requires g.Valid() && g.NodesOk(ns) && n < |g.nodes|
    ensures CollectAll(g, st, ns + [n]) == Collect(g, CollectAll(g, st, ns), n)
    decreases |ns|
  {
    if ns == [] {
      assert (ns + [n])[1..] == [];
    } else {
      assert (ns + [n])[1..] == ns[1..] + [n];
      CollectAllAppend(g, Collect(g, st, ns[0]), ns[1..], n);
    }
  }
}
