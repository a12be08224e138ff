/** The compilation database printer of cmd/reninja/reninja.go. */
module Compdb {
  import opened PyStrings
  import opened NinjaSyntax
  import opened Graphs
  import opened Collecting
  import opened CollectingProofs
  import opened CommandCollectors

  /** One object: what to run, where, for which input, making which output. */
  function Object(g: Graph, directory: string, e: nat, input: nat, quote: string -> string): string
    requires g.Valid() && Printable(g, e) && input < |g.nodes|
  {
    "\n  {\n    \"directory\": " + quote(directory)
    + ",\n    \"command\": " + quote(g.edges[e].command)
    + ",\n    \"file\": " + quote(g.nodes[input].path)
    + ",\n    \"output\": " + quote(g.nodes[g.edges[e].outputs[0]].path)
    + "\n  }"
  }

  function Member(key: string, value: string, quote: string -> string): string
  {
    "\n    \"" + key + "\": " + quote(value)
  }

  /** An object has four members, and this is what they are. */
  lemma ObjectMembers(g: Graph, directory: string, e: nat, input: nat, quote: string -> string)
    requires g.Valid() && Printable(g, e) && input < |g.nodes|
    ensures var output := g.edges[e].outputs[0];
            Object(g, directory, e, input, quote)
            == "\n  {" + Join([Member("directory", directory, quote), Member("command", g.edges[e].command, quote),
                               Member("file", g.nodes[input].path, quote), Member("output", g.nodes[output].path, quote)], ",")
               + "\n  }"
  {
    var a, b := Member("directory", directory, quote), Member("command", g.edges[e].command, quote);
    var c, d := Member("file", g.nodes[input].path, quote), Member("output", g.nodes[g.edges[e].outputs[0]].path, quote);
    var q, r := quote(directory), quote(g.edges[e].command);
    var s, t := quote(g.nodes[input].path), quote(g.nodes[g.edges[e].outputs[0]].path);
    assert a == "\n    \"directory\": " + q && b == "\n    \"command\": " + r;
    assert c == "\n    \"file\": " + s && d == "\n    \"output\": " + t;
    JoinFour(a, b, c, d);
    FourMembers(q, r, s, t);
  }

  lemma JoinFour(a: string, b: string, c: string, d: string)
    ensures Join([a, b, c, d], ",") == a + "," + (b + "," + (c + "," + d))
  {
    assert [a, b, c, d][1..] == [b, c, d] && [b, c, d][1..] == [c, d] && [c, d][1..] == [d];
    assert Join([c, d], ",") == c + "," + d;
    assert Join([b, c, d], ",") == b + "," + (c + "," + d);
  }

  lemma FourMembers(q: string, r: string, s: string, t: string)
    ensures "\n  {\n    \"directory\": " + q + ",\n    \"command\": " + r + ",\n    \"file\": " + s
            + ",\n    \"output\": " + t + "\n  }"
         == "\n  {" + ("\n    \"directory\": " + q + "," + ("\n    \"command\": " + r + ","
            + ("\n    \"file\": " + s + "," + ("\n    \"output\": " + t)))) + "\n  }"
  {
    var k, l, m, n := "\n    \"directory\": ", "\n    \"command\": ", "\n    \"file\": ", "\n    \"output\": ";
    assert "\n  {\n    \"directory\": " == "\n  {" + k && ",\n    \"command\": " == "," + l;
    assert ",\n    \"file\": " == "," + m && ",\n    \"output\": " == "," + n;
    FlattenFour("\n  {", k, q, l, r, m, s, n, t, ",");
  }

  lemma FlattenFour(o: string, k: string, q: string, l: string, r: string, m: string, s: string, n: string, t: string, c: string)
    ensures o + k + q + (c + l) + r + (c + m) + s + (c + n) + t == o + (k + q + c + (l + r + c + (m + s + c + (n + t))))
  {
    var y := m + s + c + (n + t);
    var x := l + r + c + y;
    assert o + (k + q + c + x) == o + k + q + c + x;
    assert o + k + q + c + x == o + k + q + (c + l) + r + c + y;
    assert o + k + q + (c + l) + r + c + y == o + k + q + (c + l) + r + (c + m) + s + c + (n + t);
  }

  /** The printer looks at the first output of an edge. */
  predicate Printable(g: Graph, e: nat)
  {
    e < |g.edges| && g.edges[e].outputs != [] && g.edges[e].outputs[0] < |g.nodes|
  }

  predicate EveryEdgePrintable(g: Graph)
  {
    forall e :: 0 <= e < |g.edges| ==> Printable(g, e)
  }

  predicate AllPrintable(g: Graph, edges: seq<nat>)
  {
    forall i :: 0 <= i < |edges| ==> Printable(g, edges[i])
  }

  /** One object per input of an edge, in order. */
  function Objects(g: Graph, directory: string, e: nat, quote: string -> string): (r: seq<string>)
    requires g.Valid() && Printable(g, e)
    ensures |r| == |g.edges[e].inputs|
    ensures forall i :: 0 <= i < |r| ==> r[i] == Object(g, directory, e, g.edges[e].inputs[i], quote)
  {
    var ins := g.edges[e].inputs;
    seq(|ins|, i requires 0 <= i < |ins| => Object(g, directory, e, ins[i], quote))
  }

  /** The objects of all edges that are not phony, one edge after the other. */
  function Database(g: Graph, directory: string, edges: seq<nat>, quote: string -> string): seq<string>
    requires g.Valid() && AllPrintable(g, edges)
  {
    if edges == [] then []
    else
      var e := edges[|edges| - 1];
      Database(g, directory, edges[..|edges| - 1], quote) + if g.edges[e].phony then [] else Objects(g, directory, e, quote)
  }

  /** The objects of a single edge: none if it is phony, else one for each input. */
  lemma ObjectsOfEdge(g: Graph, directory: string, e: nat, quote: string -> string)
    requires g.Valid() && Printable(g, e)
    ensures var objects := Database(g, directory, [e], quote);
            if g.edges[e].phony then objects == []
            else |objects| == |g.edges[e].inputs|
                 && forall i :: 0 <= i < |objects| ==> objects[i] == Object(g, directory, e, g.edges[e].inputs[i], quote)
  {
    hide Object;
    assert [e][..0] == [];
    assert Database(g, directory, [], quote) == [];
    var own := if g.edges[e].phony then [] else Objects(g, directory, e, quote);
    assert Database(g, directory, [e], quote) == [] + own == own;
  }

  /** The database of two lists of edges is one behind the other. */
  lemma {:induction false} DatabaseConcat(g: Graph, directory: string, a: seq<nat>, b: seq<nat>, quote: string -> string)
    requires g.Valid() && AllPrintable(g, a) && AllPrintable(g, b)
    ensures Database(g, directory, a + b, quote) == Database(g, directory, a, quote) + Database(g, directory, b, quote)
    decreases |b|
  {
    hide Object, Objects;
    if b == [] {
      assert a + b == a;
    } else {
      var front, e := b[..|b| - 1], b[|b| - 1];
      DatabaseConcat(g, directory, a, front, quote);
      assert (a + b)[..|a + b| - 1] == a + front && (a + b)[|a + b| - 1] == e;
      var own := if g.edges[e].phony then [] else Objects(g, directory, e, quote);
      Regroup(Database(g, directory, a, quote), Database(g, directory, front, quote), own);
    }
  }

  lemma {:induction false} JoinAppend(a: seq<string>, b: seq<string>)
    ensures Join(a + b, ",") == if a == [] then Join(b, ",") else if b == [] then Join(a, ",") else Join(a, ",") + "," + Join(b, ",")
  {
    if a == [] {
      assert a + b == b;
    } else if b == [] {
      assert a + b == a;
    } else {
      JoinAppend(a[1..], b);
      assert (a + b)[1..] == a[1..] + b;
      if |a| == 1 { assert a[1..] == []; }
    }
  }

  method PrintCompdbObjectsForEdge(g: Graph, directory: string, e: nat, quote: string -> string) returns (out: string)
    requires g.Valid() && Printable(g, e)
    ensures out == Join(Objects(g, directory, e, quote), ",")
  {
    ghost var objects := Objects(g, directory, e, quote);
    var inputs := g.edges[e].inputs;
    out := "";
    var first := true;
    for i := 0 to |inputs|
      invariant first <==> i == 0
      invariant out == Join(objects[..i], ",")
    {
      assert objects[..i + 1] == objects[..i] + [objects[i]];
      JoinAppend(objects[..i], [objects[i]]);
      if !first {
        out := out + ",";
      }
      var entry := Object(g, directory, e, inputs[i], quote);
      out := out + entry;
      first := false;
    }
    assert objects[..|inputs|] == objects;
  }

  /**
   * Prints a well-separated array: the objects of all (edge, input) pairs of
   * edges that are not phony, in order, with single commas between them.
   */
  method PrintCompdb(g: Graph, directory: string, edges: seq<nat>, quote: string -> string) returns (out: string)
    requires g.Valid() && AllPrintable(g, edges)
    ensures out == "[" + Join(Database(g, directory, edges, quote), ",") + "\n]\n"
  {
    out := "[";
    var first := true;
    for i := 0 to |edges|
      invariant first <==> Database(g, directory, edges[..i], quote) == []
      invariant out == "[" + Join(Database(g, directory, edges[..i], quote), ",")
    {
      var e := edges[i];
      DatabaseStep(g, directory, edges, i, quote);
      if g.edges[e].phony || |g.edges[e].inputs| == 0 {
        continue;
      }
      if !first {
        out := out + ",";
      }
      var objects := PrintCompdbObjectsForEdge(g, directory, e, quote);
      out := out + objects;
      first := false;
    }
    assert edges[..|edges|] == edges;
    out := out + "\n]\n";
  }

  /** What one more edge adds to the array. */
  lemma DatabaseStep(g: Graph, directory: string, edges: seq<nat>, i: nat, quote: string -> string)
    requires g.Valid() && AllPrintable(g, edges) && i < |edges|
    ensures var e := edges[i];
            var before, after := Database(g, directory, edges[..i], quote), Database(g, directory, edges[..i + 1], quote);
            var objects := Join(Objects(g, directory, e, quote), ",");
            if g.edges[e].phony || |g.edges[e].inputs| == 0 then after == before
            else after != [] &&
                 "[" + Join(after, ",") == if before == [] then "[" + objects else "[" + Join(before, ",") + "," + objects
  {
    var e := edges[i];
    assert edges[..i + 1][..i] == edges[..i];
    hide Objects;
    var before := Database(g, directory, edges[..i], quote);
    assert Database(g, directory, edges[..i + 1], quote) ==
           if g.edges[e].phony || |g.edges[e].inputs| == 0 then before else before + Objects(g, directory, e, quote);
    hide Join, Database;
    if !g.edges[e].phony && |g.edges[e].inputs| > 0 { Joined(before, Objects(g, directory, e, quote)); }
  }

  lemma Joined(before: seq<string>, more: seq<string>)
    requires more != []
    ensures "[" + Join(before + more, ",")
         == if before == [] then "[" + Join(more, ",") else "[" + Join(before, ",") + "," + Join(more, ",")
  {
    hide Join;
    JoinAppend(before, more);
    if before == [] { assert before + more == more; }
  }

  /** The tool for targets: nothing if some target is not made by any edge. */
  method CompdbForTargets(g: Graph, directory: string, targets: seq<nat>, quote: string -> string)
    returns (out: Option<string>)
    requires g.Valid() && g.NodesOk(targets) && EveryEdgePrintable(g)
    ensures out.None? <==> exists i :: 0 <= i < |targets| && g.nodes[targets[i]].inEdge.None?
    ensures AllPrintable(g, Commands(g, targets))
    ensures out.Some? ==> out.value == "[" + Join(Database(g, directory, Commands(g, targets), quote), ",") + "\n]\n"
  {
    CommandsPrintable(g, targets);
    var commands := CollectTargets(g, targets);
    if commands.None? { return None; }
    var text := PrintCompdb(g, directory, commands.value, quote);
    out := Some(text);
  }

  lemma CommandsPrintable(g: Graph, targets: seq<nat>)
    requires g.Valid() && g.NodesOk(targets) && EveryEdgePrintable(g)
    ensures AllPrintable(g, Commands(g, targets))
  {
    var c := Commands(g, targets);
    CollectionIsExact(g, targets);
    forall i | 0 <= i < |c| ensures Printable(g, c[i]) {
      assert c[i] in c;
    }
  }
}
