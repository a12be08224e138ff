/** The edge-based walk of `PrintCommands`, and why it agrees with the collector. */
module Printing {
  import opened NinjaSyntax
  import opened Graphs
  import opened Collecting
  import opened CollectingProofs

  datatype Mode = Single | All

  /** Edges seen so far and the commands printed so far. */
  datatype Progress = Progress(seen: set<nat>, printed: seq<nat>)

  function Print(g: Graph, st: Progress, edge: Option<nat>, mode: Mode): (r: Progress)
    requires g.Valid() && (edge.Some? ==> edge.value < |g.edges|)
    ensures st.seen <= r.seen
    decreases |g.AllEdges() - st.seen|, 0
  {
    if edge.None? || edge.value in st.seen then st else
    var e := edge.value;
    var seen := st.(seen := st.seen + {e});
    assert e in g.AllEdges() - st.seen && e !in g.AllEdges() - seen.seen;
    Smaller(g.AllEdges() - seen.seen, g.AllEdges() - st.seen);
    var done := if mode == All then PrintInputs(g, seen, g.edges[e].inputs, mode) else seen;
    if g.edges[e].phony then done else done.(printed := done.printed + [e])
  }

  function PrintInputs(g: Graph, st: Progress, ns: seq<nat>, mode: Mode): (r: Progress)
    requires g.Valid() && g.NodesOk(ns)
    ensures st.seen <= r.seen
    decreases |g.AllEdges() - st.seen|, |ns|
  {
    if ns == [] then st else
    var r := Print(g, st, g.nodes[ns[0]].inEdge, mode);
    NoLarger(g.AllEdges() - r.seen, g.AllEdges() - st.seen);
    PrintInputs(g, r, ns[1..], mode)
  }

  /** What the printer sees of a collector's state. */
  function Shadow(g: Graph, st: Visit): Progress
    requires g.Valid()
  {
    Progress(st.edges, NonPhony(g, st.finished))
  }

  /** One step of the collector on a node is one step of the printer on its edge. */
  lemma {:induction false} StepsAgree(g: Graph, st: Visit, n: nat)
    requires g.Valid() && n < |g.nodes| && Consistent(g, st)
    ensures Print(g, Shadow(g, st), g.nodes[n].inEdge, All) == Shadow(g, Collect(g, st, n))
    decreases |g.AllNodes() - st.nodes|, 0
  {
    if n in st.nodes {
      assert g.InEdge(n).Some? ==> g.InEdge(n).value in st.edges;
    } else if g.nodes[n].inEdge.Some? && g.nodes[n].inEdge.value !in st.edges {
      var e := g.nodes[n].inEdge.value;
      var begun := Visit(st.nodes + {n}, st.edges + {e}, st.finished);
      Begin(g, st, n, e);
      assert n in g.AllNodes() - st.nodes && n !in g.AllNodes() - begun.nodes;
      Smaller(g.AllNodes() - begun.nodes, g.AllNodes() - st.nodes);
      InputsAgree(g, begun, g.edges[e].inputs);
      NonPhonyAppend(g, CollectAll(g, begun, g.edges[e].inputs).finished, e);
    }
  }

  lemma {:induction false} InputsAgree(g: Graph, st: Visit, ns: seq<nat>)
    requires g.Valid() && g.NodesOk(ns) && Consistent(g, st)
    ensures PrintInputs(g, Shadow(g, st), ns, All) == Shadow(g, CollectAll(g, st, ns))
    decreases |g.AllNodes() - st.nodes|, |ns|
  {
    if ns != [] {
      StepsAgree(g, st, ns[0]);
      CollectKeeps(g, st, ns[0]);
      var r := Collect(g, st, ns[0]);
      NoLarger(g.AllNodes() - r.nodes, g.AllNodes() - st.nodes);
      InputsAgree(g, r, ns[1..]);
    }
  }

  /**
   * The two traversals agree on every graph, cyclic or not: printing all
   * commands for a list of nodes prints exactly what is collected from them, in
   * the same order.
   */
  lemma TraversalsAgree(g: Graph, roots: seq<nat>)
    requires g.Valid() && g.NodesOk(roots)
    ensures PrintInputs(g, Progress({}, []), roots, All).printed == Commands(g, roots)
  {
    InputsAgree(g, NOTHING, roots);
  }

  /** The edges that make some nodes, in the order of the nodes, each where it first occurs. */
  function FirstOnes(g: Graph, ns: seq<nat>): seq<nat>
  {
    if ns == [] then []
    else
      var before, e := FirstOnes(g, ns[..|ns| - 1]), g.InEdge(ns[|ns| - 1]);
      if e.Some? && e.value !in before then before + [e.value] else before
  }

  lemma {:induction false} FirstOnesExact(g: Graph, ns: seq<nat>)
    ensures Distinct(FirstOnes(g, ns))
    ensures forall e :: e in FirstOnes(g, ns) <==> exists i :: 0 <= i < |ns| && g.InEdge(ns[i]) == Some(e)
  {
    if ns != [] {
      var before, n := ns[..|ns| - 1], |ns| - 1;
      FirstOnesExact(g, before);
      forall e ensures e in FirstOnes(g, ns) <==> exists i :: 0 <= i < |ns| && g.InEdge(ns[i]) == Some(e) {
        if e in FirstOnes(g, before) {
          var i :| 0 <= i < |before| && g.InEdge(before[i]) == Some(e);
          assert g.InEdge(ns[i]) == Some(e);
        } else if i :| 0 <= i < |ns| && g.InEdge(ns[i]) == Some(e) {
          assert i == n || before[i] == ns[i];
        }
      }
    }
  }

  /** What printing single commands keeps, for the roots looked at so far. */
  ghost predicate SingleSoFar(g: Graph, st: Progress, done: seq<nat>)
    requires g.Valid()
  {
    && (forall e :: e in st.seen <==> e in FirstOnes(g, done))
    && (forall e :: e in FirstOnes(g, done) ==> e < |g.edges|)
    && st.printed == NonPhony(g, FirstOnes(g, done))
  }

  lemma SingleStep(g: Graph, st: Progress, done: seq<nat>, n: nat)
    requires g.Valid() && n < |g.nodes| && SingleSoFar(g, st, done)
    ensures SingleSoFar(g, Print(g, st, g.nodes[n].inEdge, Single), done + [n])
  {
    assert (done + [n])[..|done|] == done;
    var e, before := g.nodes[n].inEdge, FirstOnes(g, done);
    if e.Some? && e.value !in before {
      NonPhonyAppend(g, before, e.value);
      assert FirstOnes(g, done + [n]) == before + [e.value];
    } else {
      assert FirstOnes(g, done + [n]) == before;
    }
    hide FirstOnes, NonPhony;
  }

  lemma {:induction false} SingleAll(g: Graph, st: Progress, done: seq<nat>, ns: seq<nat>)
    requires g.Valid() && g.NodesOk(ns) && SingleSoFar(g, st, done)
    ensures SingleSoFar(g, PrintInputs(g, st, ns, Single), done + ns)
    decreases |ns|
  {
    if ns == [] {
      assert done + ns == done;
    } else {
      var r := Print(g, st, g.nodes[ns[0]].inEdge, Single);
      assert PrintInputs(g, st, ns, Single) == PrintInputs(g, r, ns[1..], Single);
      hide SingleSoFar, Print, PrintInputs;
      SingleStep(g, st, done, ns[0]);
      SingleAll(g, Print(g, st, g.nodes[ns[0]].inEdge, Single), done + [ns[0]], ns[1..]);
      assert done + [ns[0]] + ns[1..] == done + ns;
    }
  }

  /** In single mode exactly the roots' own commands are printed, each once, in the order of the roots. */
  lemma SingleIsExact(g: Graph, roots: seq<nat>)
    requires g.Valid() && g.NodesOk(roots)
    ensures var printed := PrintInputs(g, Progress({}, []), roots, Single).printed;
            && printed == NonPhony(g, FirstOnes(g, roots)) && Distinct(printed)
            && forall e: nat :: e in printed <==>
                 e < |g.edges| && !g.edges[e].phony && exists i :: 0 <= i < |roots| && g.InEdge(roots[i]) == Some(e)
  {
    SingleAll(g, Progress({}, []), [], roots);
    assert [] + roots == roots;
    FirstOnesExact(g, roots);
    NonPhonyDistinct(g, FirstOnes(g, roots));
    NonPhonyMembers(g, FirstOnes(g, roots));
  }
}
