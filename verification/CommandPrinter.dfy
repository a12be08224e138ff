/** The command printing of the `commands` tool in cmd/reninja/reninja.go. */
module CommandPrinters {
  import opened NinjaSyntax
  import opened Graphs
  import opened Collecting
  import opened Printing

  /** The `seen` map that the recursive calls share, and the commands printed. */
  class CommandPrinter {
    const g: Graph
    var seen: set<nat>
    var printed: seq<nat>

    ghost function State(): Progress
      reads this
    {
      Progress(seen, printed)
    }

    constructor (g: Graph)
      ensures this.g == g && State() == Progress({}, [])
    {
      this.g := g;
      seen, printed := {}, [];
    }

    method PrintCommands(edge: Option<nat>, mode: Mode)
      requires g.Valid() && (edge.Some? ==> edge.value < |g.edges|)
      modifies this
      ensures State() == Print(g, old(State()), edge, mode)
      decreases |g.AllEdges() - seen|, 0
    {
      if edge.None? || edge.value in seen { return; }
      var e := edge.value;
      seen := seen + {e};
      assert e in g.AllEdges() - old(seen) && e !in g.AllEdges() - seen;
      Smaller(g.AllEdges() - seen, g.AllEdges() - old(seen));
      if mode == All {
        ghost var begun := State();
        var inputs := g.edges[e].inputs;
        for i := 0 to |inputs|
          invariant begun.seen <= seen
          invariant PrintInputs(g, begun, inputs, mode) == PrintInputs(g, State(), inputs[i..], mode)
        {
          NoLarger(g.AllEdges() - seen, g.AllEdges() - begun.seen);
          PrintCommands(g.nodes[inputs[i]].inEdge, mode);
        }
        assert inputs[|inputs|..] == [];
      }
      if !g.edges[e].phony {
        printed := printed + [e];
      }
    }
  }

  /** The tool: one walk per target, all sharing what has been seen. */
  method PrintTargets(g: Graph, targets: seq<nat>, mode: Mode) returns (printed: seq<nat>)
    requires g.Valid() && g.NodesOk(targets)
    ensures printed == PrintInputs(g, Progress({}, []), targets, mode).printed
    ensures mode == All ==> printed == Commands(g, targets)
  {
    var printer := new CommandPrinter(g);
    for i := 0 to |targets|
      invariant fresh(printer) && printer.g == g
      invariant PrintInputs(g, Progress({}, []), targets, mode) == PrintInputs(g, printer.State(), targets[i..], mode)
    {
      printer.PrintCommands(g.nodes[targets[i]].inEdge, mode);
    }
    assert targets[|targets|..] == [];
    TraversalsAgree(g, targets);
    printed := printer.printed;
  }
}
