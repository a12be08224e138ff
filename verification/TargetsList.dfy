/**
 * The `targets` tool: a listing of what nodes are made from, level by level.
 * A line of the listing is the path that leads to it, as a sequence of choices:
 * which root, which of its inputs, which of that one's inputs, and so on.
 */
module TargetsList {
  import opened PyStrings
  import opened NinjaSyntax
  import opened Graphs
  import opened Collecting

  type Path = seq<nat>

  function Children(g: Graph, n: nat): (r: seq<nat>)
    requires g.Valid() && n < |g.nodes|
    ensures g.NodesOk(r)
  {
    if g.nodes[n].inEdge.Some? then g.edges[g.nodes[n].inEdge.value].inputs else []
  }

  /** The node at the end of a path, if the path exists in the unfolding. */
  function NodeAt(g: Graph, ns: seq<nat>, p: Path): (r: Option<nat>)
    requires g.Valid() && g.NodesOk(ns)
    ensures r.Some? ==> p != [] && r.value < |g.nodes|
    decreases |p|
  {
    if p == [] || p[0] >= |ns| then None
    else if |p| == 1 then Some(ns[p[0]])
    else NodeAt(g, Children(g, ns[p[0]]), p[1..])
  }

  /** How many edges an edge depends on: smaller for each of its dependencies. */
  ghost function Rank(g: Graph, e: nat): nat
  {
    |set b | b in g.AllEdges() && g.DependsOn(e, b)|
  }

  lemma RankDecreases(g: Graph, a: nat, b: nat)
    requires !g.DependsOn(b, b) && g.DirectlyDepends(a, b) && b < |g.edges|
    ensures Rank(g, b) < Rank(g, a)
  {
    var ofA := set c | c in g.AllEdges() && g.DependsOn(a, c);
    var ofB := set c | c in g.AllEdges() && g.DependsOn(b, c);
    DirectIsDependency(g, a, b);
    forall c | c in ofB ensures c in ofA { DependsTransitive(g, a, b, c); }
    assert b in ofA && b !in ofB;
    Smaller(ofB, ofA);
  }

  /** No cycle can be reached from the edge. */
  ghost predicate LeadsToNoCycle(g: Graph, e: nat)
  {
    !g.DependsOn(e, e) && forall b :: g.DependsOn(e, b) ==> !g.DependsOn(b, b)
  }

  /**
   * A listing ends: it is limited to `depth` levels, or the nodes lead to no
   * cycles and `bound` is above the ranks of all edges to follow.
   */
  ghost predicate Ends(g: Graph, ns: seq<nat>, depth: int, bound: nat)
  {
    depth > 0 ||
    forall i, e :: 0 <= i < |ns| && g.InEdge(ns[i]) == Some(e) ==> LeadsToNoCycle(g, e) && Rank(g, e) < bound
  }

  lemma NoCycleBelow(g: Graph, e: nat, b: nat)
    requires LeadsToNoCycle(g, e) && g.DirectlyDepends(e, b)
    ensures LeadsToNoCycle(g, b)
  {
    DirectIsDependency(g, e, b);
    forall c | g.DependsOn(b, c) ensures !g.DependsOn(c, c) { DependsTransitive(g, e, b, c); }
  }

  ghost function Measure(depth: int, bound: nat): nat { if depth > 0 then depth else bound }

  /** The level below a node is listed unless this is the last one. */
  predicate Deeper(g: Graph, n: nat, depth: int)
    requires g.Valid() && n < |g.nodes|
  {
    g.nodes[n].inEdge.Some? && (depth > 1 || depth <= 0)
  }

  lemma EndsBelow(g: Graph, ns: seq<nat>, depth: int, bound: nat, i: nat)
    requires g.Valid() && g.NodesOk(ns) && Ends(g, ns, depth, bound)
    requires i < |ns| && Deeper(g, ns[i], depth)
    ensures var e := g.nodes[ns[i]].inEdge.value;
            Ends(g, g.edges[e].inputs, depth - 1, Rank(g, e)) && Measure(depth - 1, Rank(g, e)) < Measure(depth, bound)
  {
    var e := g.nodes[ns[i]].inEdge.value;
    assert g.InEdge(ns[i]) == Some(e);
    if depth <= 0 {
      var inputs := g.edges[e].inputs;
      forall k, b | 0 <= k < |inputs| && g.InEdge(inputs[k]) == Some(b)
        ensures LeadsToNoCycle(g, b) && Rank(g, b) < Rank(g, e)
      {
        assert g.DirectlyDepends(e, b);
        NoCycleBelow(g, e, b);
        RankDecreases(g, e, b);
      }
    }
  }

  function Under(i: nat, ps: seq<Path>): (r: seq<Path>)
    ensures |r| == |ps| && forall k :: 0 <= k < |r| ==> r[k] == [i] + ps[k]
  {
    if ps == [] then [] else [[i] + ps[0]] + Under(i, ps[1..])
  }

  lemma UnderMembers(i: nat, ps: seq<Path>, p: Path)
    requires p != [] && p[0] == i
    ensures p in Under(i, ps) <==> p[1..] in ps
  {
    if p in Under(i, ps) {
      var k :| 0 <= k < |ps| && [i] + ps[k] == p;
      assert ([i] + ps[k])[1..] == ps[k];
    }
    if p[1..] in ps {
      var k :| 0 <= k < |ps| && ps[k] == p[1..];
      assert Under(i, ps)[k] == p;
    }
  }

  /** The listing of the nodes from position `i` on. */
  ghost function Listing(g: Graph, ns: seq<nat>, depth: int, bound: nat, i: nat): seq<Path>
    requires g.Valid() && g.NodesOk(ns) && Ends(g, ns, depth, bound) && i <= |ns|
    decreases Measure(depth, bound), |ns| - i
  {
    if i == |ns| then []
    else [[i]] + Under(i, Subtree(g, ns, depth, bound, i)) + Listing(g, ns, depth, bound, i + 1)
  }

  ghost function Subtree(g: Graph, ns: seq<nat>, depth: int, bound: nat, i: nat): seq<Path>
    requires g.Valid() && g.NodesOk(ns) && Ends(g, ns, depth, bound) && i < |ns|
    decreases Measure(depth, bound), 0
  {
    if !Deeper(g, ns[i], depth) then [] else
    var e := g.nodes[ns[i]].inEdge.value;
    EndsBelow(g, ns, depth, bound, i);
    Listing(g, g.edges[e].inputs, depth - 1, Rank(g, e), 0)
  }

  /** The paths of the unfolding that a listing of this depth should show. */
  predicate Shown(g: Graph, ns: seq<nat>, depth: int, p: Path)
    requires g.Valid() && g.NodesOk(ns)
  {
    NodeAt(g, ns, p).Some? && (depth > 0 ==> |p| <= depth)
  }

  lemma ShownBelow(g: Graph, ns: seq<nat>, depth: int, p: Path)
    requires g.Valid() && g.NodesOk(ns) && |p| >= 2 && p[0] < |ns|
    ensures Shown(g, ns, depth, p) <==>
            Deeper(g, ns[p[0]], depth) && Shown(g, Children(g, ns[p[0]]), depth - 1, p[1..])
  {
    var below := NodeAt(g, Children(g, ns[p[0]]), p[1..]);
    assert NodeAt(g, ns, p) == below;
    assert g.nodes[ns[p[0]]].inEdge.None? ==> below == None;
  }

  /** A listing shows exactly the paths it should. */
  lemma {:induction false} ListingMembers(g: Graph, ns: seq<nat>, depth: int, bound: nat, i: nat, p: Path)
    requires g.Valid() && g.NodesOk(ns) && Ends(g, ns, depth, bound) && i <= |ns|
    ensures p in Listing(g, ns, depth, bound, i) <==> Shown(g, ns, depth, p) && p[0] >= i
    decreases Measure(depth, bound), |ns| - i
  {
    if i < |ns| {
      ListingMembers(g, ns, depth, bound, i + 1, p);
      SubtreeMembers(g, ns, depth, bound, i, p);
    }
  }

  lemma {:induction false} SubtreeMembers(g: Graph, ns: seq<nat>, depth: int, bound: nat, i: nat, p: Path)
    requires g.Valid() && g.NodesOk(ns) && Ends(g, ns, depth, bound) && i < |ns|
    ensures p == [i] || p in Under(i, Subtree(g, ns, depth, bound, i)) <==> Shown(g, ns, depth, p) && p[0] == i
    decreases Measure(depth, bound), 0
  {
    var sub := Subtree(g, ns, depth, bound, i);
    if p != [] && p[0] == i && |p| >= 2 {
      ShownBelow(g, ns, depth, p);
      assert p == [i] + p[1..];
      if Deeper(g, ns[i], depth) {
        var e := g.nodes[ns[i]].inEdge.value;
        EndsBelow(g, ns, depth, bound, i);
        ListingMembers(g, g.edges[e].inputs, depth - 1, Rank(g, e), 0, p[1..]);
      }
      UnderMembers(i, sub, p);
    } else if p in Under(i, sub) {
      var k :| 0 <= k < |sub| && [i] + sub[k] == p;
      assert sub[k] == [] && Deeper(g, ns[i], depth);
      var e := g.nodes[ns[i]].inEdge.value;
      EndsBelow(g, ns, depth, bound, i);
      ListingMembers(g, g.edges[e].inputs, depth - 1, Rank(g, e), 0, []);
    } else if |p| == 1 && p[0] == i {
      assert p == [i];
    }
  }

  /** Dictionary order: a path comes before its extensions and before later choices. */
  predicate Before(a: Path, b: Path)
  {
    if b == [] then false
    else if a == [] then true
    else a[0] < b[0] || (a[0] == b[0] && Before(a[1..], b[1..]))
  }

  ghost predicate Sorted(ps: seq<Path>)
  {
    forall i, j :: 0 <= i < j < |ps| ==> Before(ps[i], ps[j])
  }

  lemma UnderSorted(i: nat, ps: seq<Path>)
    requires Sorted(ps)
    ensures Sorted(Under(i, ps))
  {
    var r := Under(i, ps);
    forall j, k | 0 <= j < k < |r| ensures Before(r[j], r[k]) {
      assert r[j][1..] == ps[j] && r[k][1..] == ps[k];
    }
  }

  /** A listing is in dictionary order: parents first, then their inputs in order. */
  lemma {:induction false} ListingSorted(g: Graph, ns: seq<nat>, depth: int, bound: nat, i: nat)
    requires g.Valid() && g.NodesOk(ns) && Ends(g, ns, depth, bound) && i <= |ns|
    ensures Sorted(Listing(g, ns, depth, bound, i))
    decreases Measure(depth, bound), |ns| - i
  {
    assert Sorted([]);
    hide Sorted, Rank;
    if i < |ns| {
      var sub := Subtree(g, ns, depth, bound, i);
      if Deeper(g, ns[i], depth) {
        var e := g.nodes[ns[i]].inEdge.value;
        EndsBelow(g, ns, depth, bound, i);
        ListingSorted(g, g.edges[e].inputs, depth - 1, Rank(g, e), 0);
        forall p | p in sub ensures p != [] {
          ListingMembers(g, g.edges[e].inputs, depth - 1, Rank(g, e), 0, p);
        }
      }
      ListingSorted(g, ns, depth, bound, i + 1);
      var rest := Listing(g, ns, depth, bound, i + 1);
      forall p | p in rest ensures p != [] && p[0] > i {
        ListingMembers(g, ns, depth, bound, i + 1, p);
      }
      UnderSorted(i, sub);
      SortedConcat(i, sub, rest);
    }
  }

  lemma SortedConcat(i: nat, sub: seq<Path>, rest: seq<Path>)
    requires Sorted(Under(i, sub)) && Sorted(rest)
    requires forall p :: p in sub ==> p != []
    requires forall p :: p in rest ==> p != [] && p[0] > i
    ensures Sorted([[i]] + Under(i, sub) + rest)
  {
    var u := Under(i, sub);
    var all := [[i]] + u + rest;
    forall j, k | 0 <= j < k < |all| ensures Before(all[j], all[k]) {
      if k > |u| {
        assert all[k] == rest[k - 1 - |u|] && all[k] in rest;
        if j > |u| {
          assert all[j] == rest[j - 1 - |u|];
        } else {
          assert all[j][0] == i by { if j > 0 { assert all[j] == u[j - 1] == [i] + sub[j - 1]; } }
          SmallerFirst(all[j], all[k]);
        }
      } else {
        assert all[k] == u[k - 1] == [i] + sub[k - 1] && sub[k - 1] in sub;
        if j > 0 { assert all[j] == u[j - 1]; } else { PrefixFirst(i, sub[k - 1]); }
      }
    }
  }

  lemma SmallerFirst(a: Path, b: Path)
    requires a != [] && b != [] && a[0] < b[0]
    ensures Before(a, b)
  {
  }

  lemma PrefixFirst(i: nat, p: Path)
    requires p != []
    ensures Before([i], [i] + p)
  {
    assert [i][1..] == [] && ([i] + p)[1..] == p;
  }

  lemma {:induction false} BeforeIrreflexive(a: Path)
    ensures !Before(a, a)
  {
    if a != [] { BeforeIrreflexive(a[1..]); }
  }

  lemma {:induction false} BeforeAsymmetric(a: Path, b: Path)
    requires Before(a, b)
    ensures !Before(b, a)
  {
    if a != [] && a[0] == b[0] { BeforeAsymmetric(a[1..], b[1..]); }
  }

  /** There is only one way to put a set of paths in order. */
  lemma {:induction false} SortedUnique(a: seq<Path>, b: seq<Path>)
    requires Sorted(a) && Sorted(b) && forall p :: p in a <==> p in b
    ensures a == b
    decreases |a|
  {
    assert a != [] ==> a[0] in a;
    assert b != [] ==> b[0] in b;
    if a != [] {
      SameFirst(a, b);
      forall p ensures p in a[1..] <==> p in b[1..] {
        TailMembers(a, p);
        TailMembers(b, p);
      }
      SortedUnique(a[1..], b[1..]);
      assert a == [a[0]] + a[1..] && b == [b[0]] + b[1..];
    }
  }

  lemma TailMembers(a: seq<Path>, p: Path)
    requires Sorted(a) && a != []
    ensures p in a[1..] <==> p in a && p != a[0]
  {
    if p in a[1..] {
      var k :| 0 <= k < |a[1..]| && a[1..][k] == p;
      assert Before(a[0], a[k + 1]);
      BeforeIrreflexive(p);
    }
  }

  lemma SameFirst(a: seq<Path>, b: seq<Path>)
    requires Sorted(a) && Sorted(b) && a != [] && b != [] && forall p :: p in a <==> p in b
    ensures a[0] == b[0]
  {
    assert a[0] in a && b[0] in b;
    var i :| 0 <= i < |b| && b[i] == a[0];
    var j :| 0 <= j < |a| && a[j] == b[0];
    assert i > 0 ==> Before(b[0], b[i]);
    assert j > 0 ==> Before(a[0], a[j]);
    if Before(a[0], b[0]) { BeforeAsymmetric(a[0], b[0]); }
  }

  /** No edge depends on more edges than there are. */
  lemma RankBounded(g: Graph, e: nat)
    ensures Rank(g, e) <= |g.AllEdges()|
  {
    NoLarger((set b | b in g.AllEdges() && g.DependsOn(e, b)), g.AllEdges());
  }

  /** The tool ends if its depth is positive or the roots lead to no cycles. */
  ghost predicate CanEnd(g: Graph, roots: seq<nat>, depth: int)
  {
    depth > 0 || forall i, e :: 0 <= i < |roots| && g.InEdge(roots[i]) == Some(e) ==> LeadsToNoCycle(g, e)
  }

  function EdgeBound(g: Graph): nat { |g.AllEdges()| + 1 }

  lemma ToolEnds(g: Graph, roots: seq<nat>, depth: int)
    requires CanEnd(g, roots, depth)
    ensures Ends(g, roots, depth, EdgeBound(g))
  {
    forall i, e | 0 <= i < |roots| && g.InEdge(roots[i]) == Some(e) ensures Rank(g, e) < EdgeBound(g) {
      RankBounded(g, e);
    }
  }

  /** The whole listing of the tool. */
  ghost function Tool(g: Graph, roots: seq<nat>, depth: int): seq<Path>
    requires g.Valid() && g.NodesOk(roots) && CanEnd(g, roots, depth)
  {
    ToolEnds(g, roots, depth);
    Listing(g, roots, depth, EdgeBound(g), 0)
  }

  /**
   * The listing is the tree unfolding: it shows exactly the paths that exist, up
   * to the given depth if it is positive, each once, in dictionary order.
   */
  lemma ListingIsUnfolding(g: Graph, roots: seq<nat>, depth: int)
    requires g.Valid() && g.NodesOk(roots) && CanEnd(g, roots, depth)
    ensures forall p :: p in Tool(g, roots, depth) <==> Shown(g, roots, depth, p)
    ensures Sorted(Tool(g, roots, depth))
  {
    ToolEnds(g, roots, depth);
    forall p ensures p in Tool(g, roots, depth) <==> Shown(g, roots, depth, p) {
      ListingMembers(g, roots, depth, EdgeBound(g), 0, p);
    }
    ListingSorted(g, roots, depth, EdgeBound(g), 0);
  }

  function UpTo(ps: seq<Path>, d: nat): seq<Path>
  {
    if ps == [] then []
    else (if |ps[0]| <= d then [ps[0]] else []) + UpTo(ps[1..], d)
  }

  lemma {:induction false} UpToMembers(ps: seq<Path>, d: nat, p: Path)
    ensures p in UpTo(ps, d) <==> p in ps && |p| <= d
  {
    if ps != [] { UpToMembers(ps[1..], d, p); }
  }

  lemma {:induction false} UpToSorted(ps: seq<Path>, d: nat)
    requires Sorted(ps)
    ensures Sorted(UpTo(ps, d))
  {
    if ps != [] {
      UpToSorted(ps[1..], d);
      var rest, all := UpTo(ps[1..], d), UpTo(ps, d);
      if |ps[0]| <= d {
        forall j, k | 0 <= j < k < |all| ensures Before(all[j], all[k]) {
          assert all[k] == rest[k - 1] && rest[k - 1] in rest;
          UpToMembers(ps[1..], d, all[k]);
          if j > 0 {
            assert all[j] == rest[j - 1];
          } else {
            var m :| 0 <= m < |ps[1..]| && ps[1..][m] == all[k];
            assert Before(ps[0], ps[m + 1]);
          }
        }
      }
    }
  }

  /** A listing limited to `d` levels is a deeper or unlimited one cut off at that level. */
  lemma DepthTruncates(g: Graph, roots: seq<nat>, d: nat, deep: int)
    requires g.Valid() && g.NodesOk(roots) && CanEnd(g, roots, deep) && 0 < d && (deep <= 0 || d <= deep)
    ensures Tool(g, roots, d) == UpTo(Tool(g, roots, deep), d)
  {
    ListingIsUnfolding(g, roots, d);
    ListingIsUnfolding(g, roots, deep);
    UpToSorted(Tool(g, roots, deep), d);
    forall p ensures p in Tool(g, roots, d) <==> p in UpTo(Tool(g, roots, deep), d) {
      UpToMembers(Tool(g, roots, deep), d, p);
    }
    SortedUnique(Tool(g, roots, d), UpTo(Tool(g, roots, deep), d));
  }

  /** The limit makes no difference exactly when no path is longer. */
  lemma DeepEnough(g: Graph, roots: seq<nat>, d: nat)
    requires g.Valid() && g.NodesOk(roots) && CanEnd(g, roots, 0) && 0 < d
    ensures Tool(g, roots, d) == Tool(g, roots, 0) <==> AtMost(g, roots, d)
  {
    ListingIsUnfolding(g, roots, d);
    ListingIsUnfolding(g, roots, 0);
    if AtMost(g, roots, d) {
      forall p ensures p in Tool(g, roots, d) <==> p in Tool(g, roots, 0) {
        assert Shown(g, roots, d, p) <==> Shown(g, roots, 0, p);
      }
      SortedUnique(Tool(g, roots, d), Tool(g, roots, 0));
    } else {
      var p :| NodeAt(g, roots, p).Some? && |p| > d;
      assert Shown(g, roots, 0, p) && !Shown(g, roots, d, p);
    }
  }

  /** A path along a chain of edges. */
  lemma {:induction false} PathAlong(g: Graph, ns: seq<nat>, i: nat, chain: seq<nat>) returns (p: Path)
    requires g.Valid() && g.NodesOk(ns) && i < |ns| && chain != [] && g.IsChain(chain)
    requires g.InEdge(ns[i]) == Some(chain[0])
    ensures |p| == |chain| && NodeAt(g, ns, p).Some?
    decreases |chain|
  {
    p := [i];
    if |chain| > 1 {
      assert g.DirectlyDepends(chain[0], chain[1]);
      var inputs := g.edges[chain[0]].inputs;
      var j :| 0 <= j < |inputs| && g.InEdge(inputs[j]) == Some(chain[1]);
      assert g.IsChain(chain[1..]) by {
        forall k | 0 <= k < |chain[1..]| - 1 ensures g.DirectlyDepends(chain[1..][k], chain[1..][k + 1]) {
          assert g.DirectlyDepends(chain[k + 1], chain[k + 2]);
        }
      }
      var q := PathAlong(g, inputs, j, chain[1..]);
      p := [i] + q;
      assert p[1..] == q;
    }
  }

  lemma ChainsJoin(g: Graph, a: seq<nat>, b: seq<nat>)
    requires a != [] && b != [] && g.IsChain(a) && g.IsChain(b) && a[|a| - 1] == b[0]
    ensures g.IsChain(a + b[1..])
  {
    var c := a + b[1..];
    forall k | 0 <= k < |c| - 1 ensures g.DirectlyDepends(c[k], c[k + 1]) {
      if k < |a| - 1 {
        assert g.DirectlyDepends(a[k], a[k + 1]);
      } else {
        assert g.DirectlyDepends(b[k - |a| + 1], b[k - |a| + 2]);
      }
    }
  }

  /** Going round a cycle gives chains of any length. */
  lemma {:induction false} LongChain(g: Graph, b: nat, n: nat) returns (chain: seq<nat>)
    requires g.DependsOn(b, b)
    ensures |chain| > n && chain[0] == b && chain[|chain| - 1] == b && g.IsChain(chain)
  {
    var round :| |round| >= 2 && round[0] == b && round[|round| - 1] == b && g.IsChain(round);
    if n <= 1 {
      chain := round;
    } else {
      var shorter := LongChain(g, b, n - 1);
      ChainsJoin(g, shorter, round);
      chain := shorter + round[1..];
    }
  }

  lemma LongPath(g: Graph, roots: seq<nat>, n: nat) returns (p: Path)
    requires g.Valid() && g.NodesOk(roots) && !CanEnd(g, roots, 0)
    ensures |p| > n && NodeAt(g, roots, p).Some?
  {
    var i, e :| 0 <= i < |roots| && g.InEdge(roots[i]) == Some(e) && !LeadsToNoCycle(g, e);
    if g.DependsOn(e, e) {
      var chain := LongChain(g, e, n);
      p := PathAlong(g, roots, i, chain);
    } else {
      var b :| g.DependsOn(e, b) && g.DependsOn(b, b);
      var there :| |there| >= 2 && there[0] == e && there[|there| - 1] == b && g.IsChain(there);
      var chain := LongChain(g, b, n);
      ChainsJoin(g, there, chain);
      p := PathAlong(g, roots, i, there + chain[1..]);
    }
  }

  function Longest(ps: seq<Path>): (n: nat)
    ensures forall p :: p in ps ==> |p| <= n
  {
    if ps == [] then 0
    else
      var n := Longest(ps[1..]);
      assert forall p :: p in ps ==> p == ps[0] || p in ps[1..];
      if |ps[0]| > n then |ps[0]| else n
  }

  /** No path of the unfolding has more than `n` levels. */
  ghost predicate AtMost(g: Graph, roots: seq<nat>, n: nat)
    requires g.Valid() && g.NodesOk(roots)
  {
    forall p :: NodeAt(g, roots, p).Some? ==> |p| <= n
  }

  lemma ListingBounds(g: Graph, roots: seq<nat>)
    requires g.Valid() && g.NodesOk(roots) && CanEnd(g, roots, 0)
    ensures AtMost(g, roots, Longest(Tool(g, roots, 0)))
  {
    ListingIsUnfolding(g, roots, 0);
    hide Tool, Longest, CanEnd;
    forall p | NodeAt(g, roots, p).Some? ensures |p| <= Longest(Tool(g, roots, 0)) {
      assert Shown(g, roots, 0, p);
    }
  }

  /** Without a limit there is an end to list exactly when the roots lead to no cycle. */
  lemma EndsExactlyWhen(g: Graph, roots: seq<nat>)
    requires g.Valid() && g.NodesOk(roots)
    ensures CanEnd(g, roots, 0) <==> exists n: nat :: AtMost(g, roots, n)
  {
    hide CanEnd;
    if CanEnd(g, roots, 0) {
      hide AtMost;
      ListingBounds(g, roots);
    } else {
      forall n: nat ensures !AtMost(g, roots, n) {
        var p := LongPath(g, roots, n);
      }
    }
  }

  function Label(g: Graph, n: nat): string
    requires g.Valid() && n < |g.nodes|
  {
    var node := g.nodes[n];
    if node.inEdge.Some? then node.path + ": " + g.edges[node.inEdge.value].rule + "\n" else node.path + "\n"
  }

  /** A line is indented by one step per level. */
  function RenderLine(g: Graph, ns: seq<nat>, p: Path, indent: nat): string
    requires g.Valid() && g.NodesOk(ns)
  {
    var n := NodeAt(g, ns, p);
    if n.None? then "" else Spaces(2 * (indent + |p| - 1)) + Label(g, n.value)
  }

  function Lines(g: Graph, ns: seq<nat>, ps: seq<Path>, indent: nat): (r: seq<string>)
    requires g.Valid() && g.NodesOk(ns)
    ensures |r| == |ps| && forall k :: 0 <= k < |r| ==> r[k] == RenderLine(g, ns, ps[k], indent)
  {
    seq(|ps|, k requires 0 <= k < |ps| => RenderLine(g, ns, ps[k], indent))
  }

  function Render(g: Graph, ns: seq<nat>, ps: seq<Path>, indent: nat): string
    requires g.Valid() && g.NodesOk(ns)
  {
    Concat(Lines(g, ns, ps, indent))
  }

  lemma RenderConcat(g: Graph, ns: seq<nat>, a: seq<Path>, b: seq<Path>, indent: nat)
    requires g.Valid() && g.NodesOk(ns)
    ensures Render(g, ns, a + b, indent) == Render(g, ns, a, indent) + Render(g, ns, b, indent)
  {
    LinesConcat(g, ns, a, b, indent);
    ConcatAppend(Lines(g, ns, a, indent), Lines(g, ns, b, indent));
  }

  lemma LinesConcat(g: Graph, ns: seq<nat>, a: seq<Path>, b: seq<Path>, indent: nat)
    requires g.Valid() && g.NodesOk(ns)
    ensures Lines(g, ns, a + b, indent) == Lines(g, ns, a, indent) + Lines(g, ns, b, indent)
  {
    var l, r := Lines(g, ns, a + b, indent), Lines(g, ns, a, indent) + Lines(g, ns, b, indent);
    forall k | 0 <= k < |l| ensures l[k] == r[k] {
      assert (a + b)[k] == if k < |a| then a[k] else b[k - |a|];
    }
  }

  lemma RenderUnder(g: Graph, ns: seq<nat>, i: nat, ps: seq<Path>, indent: nat)
    requires g.Valid() && g.NodesOk(ns) && i < |ns| && forall p :: p in ps ==> p != []
    ensures Render(g, ns, Under(i, ps), indent) == Render(g, Children(g, ns[i]), ps, indent + 1)
  {
    var l, r := Lines(g, ns, Under(i, ps), indent), Lines(g, Children(g, ns[i]), ps, indent + 1);
    forall k | 0 <= k < |ps| ensures l[k] == r[k] {
      assert ps[k] in ps;
      LineUnder(g, ns, i, ps[k], indent);
    }
    assert l == r;
  }

  lemma LineUnder(g: Graph, ns: seq<nat>, i: nat, p: Path, indent: nat)
    requires g.Valid() && g.NodesOk(ns) && i < |ns| && p != []
    ensures RenderLine(g, ns, [i] + p, indent) == RenderLine(g, Children(g, ns[i]), p, indent + 1)
  {
    assert ([i] + p)[1..] == p;
  }

  lemma SubtreeNonEmptyPaths(g: Graph, ns: seq<nat>, depth: int, bound: nat, i: nat)
    requires g.Valid() && g.NodesOk(ns) && Ends(g, ns, depth, bound) && i < |ns|
    ensures forall p :: p in Subtree(g, ns, depth, bound, i) ==> p != []
  {
    if Deeper(g, ns[i], depth) {
      var e := g.nodes[ns[i]].inEdge.value;
      EndsBelow(g, ns, depth, bound, i);
      ListingMembers(g, g.edges[e].inputs, depth - 1, Rank(g, e), 0, []);
    }
  }

  /** The text of one node and everything listed below it. */
  lemma RenderStep(g: Graph, ns: seq<nat>, depth: int, bound: nat, i: nat, indent: nat)
    requires g.Valid() && g.NodesOk(ns) && Ends(g, ns, depth, bound) && i < |ns|
    ensures Render(g, ns, Listing(g, ns, depth, bound, i), indent)
         == Spaces(2 * indent) + Label(g, ns[i])
            + Render(g, Children(g, ns[i]), Subtree(g, ns, depth, bound, i), indent + 1)
            + Render(g, ns, Listing(g, ns, depth, bound, i + 1), indent)
  {
    var sub, rest := Subtree(g, ns, depth, bound, i), Listing(g, ns, depth, bound, i + 1);
    SubtreeNonEmptyPaths(g, ns, depth, bound, i);
    RenderUnder(g, ns, i, sub, indent);
    RenderConcat(g, ns, [[i]] + Under(i, sub), rest, indent);
    RenderConcat(g, ns, [[i]], Under(i, sub), indent);
    RenderOne(g, ns, i, indent);
  }

  lemma RenderOne(g: Graph, ns: seq<nat>, i: nat, indent: nat)
    requires g.Valid() && g.NodesOk(ns) && i < |ns|
    ensures Render(g, ns, [[i]], indent) == Spaces(2 * indent) + Label(g, ns[i])
  {
    var lines := Lines(g, ns, [[i]], indent);
    assert lines[1..] == [] && lines[0] == RenderLine(g, ns, [i], indent);
    assert Concat(lines) == lines[0] + Concat(lines[1..]);
  }

  /** What is printed for the nodes from position `i` on. */
  ghost function Text(g: Graph, ns: seq<nat>, depth: int, bound: nat, i: nat, indent: nat): string
    requires g.Valid() && g.NodesOk(ns) && Ends(g, ns, depth, bound) && i <= |ns|
  {
    Render(g, ns, Listing(g, ns, depth, bound, i), indent)
  }

  lemma TextEnds(g: Graph, ns: seq<nat>, depth: int, bound: nat, indent: nat)
    requires g.Valid() && g.NodesOk(ns) && Ends(g, ns, depth, bound)
    ensures Text(g, ns, depth, bound, |ns|, indent) == ""
  {
  }

  /** The same, told by what the printer does: go below the node, or only print it. */
  lemma RenderDeeper(g: Graph, ns: seq<nat>, depth: int, bound: nat, i: nat, indent: nat)
    requires g.Valid() && g.NodesOk(ns) && Ends(g, ns, depth, bound) && i < |ns| && Deeper(g, ns[i], depth)
    ensures var e := g.nodes[ns[i]].inEdge.value;
            Ends(g, g.edges[e].inputs, depth - 1, Rank(g, e)) && Measure(depth - 1, Rank(g, e)) < Measure(depth, bound) &&
            Text(g, ns, depth, bound, i, indent) == Spaces(2 * indent) + Label(g, ns[i])
            + Text(g, g.edges[e].inputs, depth - 1, Rank(g, e), 0, indent + 1) + Text(g, ns, depth, bound, i + 1, indent)
  {
    EndsBelow(g, ns, depth, bound, i);
    RenderStep(g, ns, depth, bound, i, indent);
  }

  lemma RenderLeaf(g: Graph, ns: seq<nat>, depth: int, bound: nat, i: nat, indent: nat)
    requires g.Valid() && g.NodesOk(ns) && Ends(g, ns, depth, bound) && i < |ns| && !Deeper(g, ns[i], depth)
    ensures Text(g, ns, depth, bound, i, indent)
         == Spaces(2 * indent) + Label(g, ns[i]) + Text(g, ns, depth, bound, i + 1, indent)
  {
    RenderStep(g, ns, depth, bound, i, indent);
    assert Render(g, Children(g, ns[i]), [], indent + 1) == "";
    var here := Spaces(2 * indent) + Label(g, ns[i]);
    assert here + "" == here;
  }

  /**
   * The recursive printer. It ends on every graph if the depth is positive, and
   * otherwise if the nodes lead to no cycle.
   */
  method ToolTargetsList(g: Graph, nodes: seq<nat>, depth: int, indent: nat, ghost bound: nat) returns (out: string)
    requires g.Valid() && g.NodesOk(nodes) && Ends(g, nodes, depth, bound)
    ensures out == Render(g, nodes, Listing(g, nodes, depth, bound, 0), indent)
    decreases Measure(depth, bound)
  {
    hide Concat, Ends, Rank, Lines, Listing;
    ghost var whole := Text(g, nodes, depth, bound, 0, indent);
    ghost var rest := whole;
    out := "";
    for i := 0 to |nodes|
      invariant out + rest == whole && rest == Text(g, nodes, depth, bound, i, indent)
    {
      var n := nodes[i];
      var here := Spaces(2 * indent) + Label(g, n);
      if g.nodes[n].inEdge.Some? && (depth > 1 || depth <= 0) {
        RenderDeeper(g, nodes, depth, bound, i, indent);
        var e := g.nodes[n].inEdge.value;
        var below := ToolTargetsList(g, g.edges[e].inputs, depth - 1, indent + 1, Rank(g, e));
        here := here + below;
      } else {
        RenderLeaf(g, nodes, depth, bound, i, indent);
      }
      rest := Text(g, nodes, depth, bound, i + 1, indent);
      Regroup(out, here, rest);
      out := out + here;
    }
    TextEnds(g, nodes, depth, bound, indent);
  }

  /** The tool, started from the root nodes without indentation. */
  method ListTargets(g: Graph, roots: seq<nat>, depth: int) returns (out: string)
    requires g.Valid() && g.NodesOk(roots) && CanEnd(g, roots, depth)
    ensures out == Render(g, roots, Tool(g, roots, depth), 0)
  {
    ToolEnds(g, roots, depth);
    out := ToolTargetsList(g, roots, depth, 0, EdgeBound(g));
  }

  /** A line of the listing: the node's path, indented by its level, and the rule of the edge that makes it, if any. */
  lemma ListedLines(g: Graph, roots: seq<nat>, depth: int, k: nat, n: nat)
    requires g.Valid() && g.NodesOk(roots) && CanEnd(g, roots, depth)
    requires k < |Tool(g, roots, depth)| && NodeAt(g, roots, Tool(g, roots, depth)[k]) == Some(n)
    ensures var lines, level := Lines(g, roots, Tool(g, roots, depth), 0), |Tool(g, roots, depth)[k]|;
            && Render(g, roots, Tool(g, roots, depth), 0) == Concat(lines) && |lines| == |Tool(g, roots, depth)|
            && (g.nodes[n].inEdge == None ==> lines[k] == Spaces(2 * level - 2) + g.nodes[n].path + "\n")
            && (forall e: nat :: g.nodes[n].inEdge == Some(e) ==>
                  lines[k] == Spaces(2 * level - 2) + g.nodes[n].path + ": " + g.edges[e].rule + "\n")
  {
    hide Tool, CanEnd, RenderLine, NodeAt, Concat;
    LineOfNode(g, roots, Tool(g, roots, depth)[k], n);
  }

  lemma LineOfNode(g: Graph, ns: seq<nat>, p: Path, n: nat)
    requires g.Valid() && g.NodesOk(ns) && NodeAt(g, ns, p) == Some(n)
    ensures p != [] && n < |g.nodes|
    ensures g.nodes[n].inEdge == None ==> RenderLine(g, ns, p, 0) == Spaces(2 * |p| - 2) + g.nodes[n].path + "\n"
    ensures forall e: nat :: g.nodes[n].inEdge == Some(e) ==>
              RenderLine(g, ns, p, 0) == Spaces(2 * |p| - 2) + g.nodes[n].path + ": " + g.edges[e].rule + "\n"
  {
    assert 2 * (0 + |p| - 1) == 2 * |p| - 2;
    var indent, path := Spaces(2 * |p| - 2), g.nodes[n].path;
    hide Spaces, NodeAt;
    if g.nodes[n].inEdge.None? {
      Regroup(indent, path, "\n");
    } else {
      var rule := g.edges[g.nodes[n].inEdge.value].rule;
      Regroup(indent, path + ": " + rule, "\n");
      Regroup(indent, path + ": ", rule);
      Regroup(indent, path, ": ");
    }
  }
}
