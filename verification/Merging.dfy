/** Build lines that lose spaces: where the separator behind an escaped space is lost, two paths become one. */
module Merging {
  import opened NinjaSyntax
  import opened LogicalLines
  import opened PathCodec
  import opened Fragments
  import opened BuildStatement
  import opened PlainReading
  import opened BuildLines
  import opened Joining

  lemma {:induction false} EncodeConcat(p: string, q: string)
    requires Escapable(p)
    ensures EncodePath(p + q) == EncodePath(p) + EncodePath(q)
    decreases |p|
  {
    hide EncodePath;
    if p == "" {
      assert p + q == q;
      NothingEncoded();
    } else {
      var k := PieceLength(p);
      EscapableByPieces(p);
      EncodeConcat(p[k..], q);
      PiecesApart(p, q);
    }
  }

  lemma NothingEncoded()
    ensures EncodePath("") == ""
  {
  }

  lemma PiecesApart(p: string, q: string)
    requires p != "" && (p[0] == '$' ==> PieceLength(p) == 2)
    ensures var k := PieceLength(p);
            && EncodePath(p) + EncodePath(q) == EncodePiece(p[..k]) + (EncodePath(p[k..]) + EncodePath(q))
            && EncodePath(p + q) == EncodePiece(p[..k]) + EncodePath(p[k..] + q)
  {
    hide EncodePath, EncodePiece;
    var k := PieceLength(p);
    EncodeByPieces(p, EncodePath(q));
    EncodeByPieces(p + q, "");
    assert (p + q)[k..] == p[k..] + q && (p + q)[..k] == p[..k];
    assert EncodePath(p[k..] + q) + "" == EncodePath(p[k..] + q);
    assert EncodePath(p + q) + "" == EncodePath(p + q);
  }

  /** Two escaped paths side by side are one escaped path. */
  lemma EscapeConcat(p: string, q: string, m: string)
    requires PathOk(p) && PathOk(q)
    ensures PathOk(p + q) && EscapePath(p) + (EscapePath(q) + m) == EscapePath(p + q) + m
  {
    EscapePathIsOnePass(p);
    EscapePathIsOnePass(q);
    EscapePathIsOnePass(p + q);
    hide EscapePath;
    EncodeConcat(p, q);
    forall i | 0 <= i < |p + q| ensures FineAt(p + q, i) {
      if i < |p| { assert FineAt(p, i); } else { assert FineAt(q, i - |p|); }
    }
  }

  lemma PathSolid(p: string)
    requires PathOk(p)
    ensures var e := EscapePath(p); NoDoubleSpace(e) && e != "" && e[0] != ' ' && e[0] != '|'
  {
    EscapePathIsOnePass(p);
    EncodedEscaped(p);
    EscapedSingle(EncodePath(p));
    EscapableByPieces(p);
    EncodeByPieces(p, "");
    FirstPieceHead(p);
    assert p[..1][0] == p[0];
    assert EncodePath(p) + "" == EncodePath(p);
  }

  /** A separator in front of a word is kept, or lost at a cost. */
  lemma SeparatorKept(x: string, u: string, afterSpace: bool, k: nat)
    requires x != "" && x[0] != '|' && Reduces(" " + x, u, afterSpace, k)
    ensures || (u != "" && u[0] == ' ' && Reduces(x, u[1..], true, k))
            || (k > 0 && Reduces(x, u, true, k - 1))
  {
    assert (" " + x)[1..] == x;
  }

  lemma MarkerKept(x: string, u: string, afterSpace: bool, k: nat)
    requires x != "" && x[0] == '|' && Reduces(" " + x, u, afterSpace, k)
    ensures (u != "" && u[0] == ' ' && Reduces(x, u[1..], true, k)) || Reduces(x, u, true, k)
  {
    assert (" " + x)[1..] == x;
  }

  lemma CutOff(h: string, t: string, u: string, afterSpace: bool, k: nat) returns (v: string)
    requires Reduces(h + t, u, afterSpace, k) && NoDoubleSpace(h) && h != "" && h[0] != ' '
    ensures u == h + v && Reduces(t, v, h[|h| - 1] == ' ', k)
  {
    hide Reduces;
    SolidCopied(h, t, u, afterSpace, k);
    v := u[|h|..];
    assert u == u[..|h|] + v;
  }

  /** A path and those behind it, of which some have become one. */
  lemma {:induction false} PathMerged(p: string, ps: seq<string>, r: string, u: string, afterSpace: bool, k: nat)
    returns (q: string, qs: seq<string>, v: string, after: bool, n: nat)
    requires PathOk(p) && PathsOk(ps) && Reduces(EscapePath(p) + (SpaceEach(EscapeAll(ps)) + r), u, afterSpace, k)
    ensures PathOk(q) && PathsOk(qs) && u == EscapePath(q) + (SpaceEach(EscapeAll(qs)) + v) && Reduces(r, v, after, n)
    ensures n <= k && |qs| + k == |ps| + n && (n == k ==> q == p && qs == ps)
    decreases |ps|
  {
    hide Reduces, EscapePath, SpaceEach, EscapeAll, PathOk;
    PathSolid(p);
    var e := EscapePath(p);
    var u1 := CutOff(e, SpaceEach(EscapeAll(ps)) + r, u, afterSpace, k);
    if ps == [] {
      NoWords(r);
      NoWords(u1);
      q, qs, v, after, n := p, [], u1, e[|e| - 1] == ' ', k;
    } else {
      var x := EscapePath(ps[0]) + (SpaceEach(EscapeAll(ps[1..])) + r);
      WordsHead(ps, r);
      PathSolid(ps[0]);
      SeparatorKept(x, u1, e[|e| - 1] == ' ', k);
      var q1, qs1;
      if u1 != "" && u1[0] == ' ' && Reduces(x, u1[1..], true, k) {
        q1, qs1, v, after, n := PathMerged(ps[0], ps[1..], r, u1[1..], true, k);
        q, qs := p, [q1] + qs1;
        WordsHead(qs, v);
        assert u1 == " " + u1[1..];
      } else {
        q1, qs1, v, after, n := PathMerged(ps[0], ps[1..], r, u1, true, k - 1);
        q, qs := p + q1, qs1;
        EscapeConcat(p, q1, SpaceEach(EscapeAll(qs1)) + v);
      }
    }
  }

  lemma NoWords(r: string)
    ensures SpaceEach(EscapeAll([])) + r == r
  {
  }

  lemma ListMerged(ps: seq<string>, r: string, u: string, k: nat)
    returns (qs: seq<string>, v: string, after: bool, n: nat)
    requires PathsOk(ps) && Reduces(SpaceEach(EscapeAll(ps)) + r, u, false, k)
    ensures PathsOk(qs) && u == SpaceEach(EscapeAll(qs)) + v && Reduces(r, v, after, n)
    ensures n <= k && |qs| + k == |ps| + n && (n == k ==> qs == ps) && (qs == [] ==> ps == [])
  {
    hide SpaceEach, EscapeAll, EscapePath, PathOk;
    if ps == [] {
      NoWords(r);
      NoWords(u);
      qs, v, after, n := [], u, false, k;
    } else {
      WordsHead(ps, r);
      var x := EscapePath(ps[0]) + (SpaceEach(EscapeAll(ps[1..])) + r);
      assert (" " + x)[1..] == x;
      assert Reduces(x, u[1..], true, k) && u[0] == ' ';
      hide Reduces;
      var q, qs1;
      q, qs1, v, after, n := PathMerged(ps[0], ps[1..], r, u[1..], true, k);
      qs := [q] + qs1;
      WordsHead(qs, v);
      assert u == " " + u[1..];
    }
  }

  lemma GroupMerged(marker: string, ps: seq<string>, r: string, u: string, afterSpace: bool, k: nat)
    returns (lead: bool, qs: seq<string>, v: string, after: bool, n: nat)
    requires (marker == "|" || marker == "||") && PathsOk(ps) && Reduces(Group(true, marker, ps) + r, u, afterSpace, k)
    ensures PathsOk(qs) && u == Group(lead, marker, qs) + v && Reduces(r, v, after, n)
    ensures n <= k && |qs| + k == |ps| + n && (n == k ==> qs == ps) && (qs == [] ==> ps == [])
  {
    if ps == [] {
      assert Group(true, marker, ps) + r == r && Group(true, marker, ps) + u == u;
      lead, qs, v, after, n := true, [], u, afterSpace, k;
    } else {
      hide Reduces, SpaceEach, EscapeAll, PathOk, Group;
      GroupHead(true, marker, ps, r);
      var y := SpaceEach(EscapeAll(ps)) + r;
      MarkerKept(marker + y, u, afterSpace, k);
      lead := u != "" && u[0] == ' ' && Reduces(marker + y, u[1..], true, k);
      var x := if lead then u[1..] else u;
      var z := CutOff(marker, y, x, true, k);
      qs, v, after, n := ListMerged(ps, r, z, k);
      GroupHead(lead, marker, qs, v);
      assert u == (if lead then " " else "") + x;
    }
  }

  lemma InputsMerged(g: Paths, u: string, k: nat) returns (h: Paths, leads: Leads)
    requires g.Ok() && Reduces(g.InputText(ALL_LEADS, ""), u, false, k)
    ensures h.Ok() && h.outs == g.outs && h.implicitOuts == g.implicitOuts
    ensures leads.implicitOuts && u == h.InputText(leads, "")
    ensures h.Count() + k == g.Count() && (k == 0 ==> h == g)
  {
    hide Reduces, SpaceEach, EscapeAll, PathsOk, Group;
    var last := Group(true, "||", g.orderOnly) + "";
    var ins, u1, a1, k1 := ListMerged(g.ins, Group(true, "|", g.implicitIns) + last, u, k);
    var lead2, implicitIns, u2, a2, k2 := GroupMerged("|", g.implicitIns, last, u1, a1, k1);
    var lead3, orderOnly, u3, a3, k3 := GroupMerged("||", g.orderOnly, "", u2, a2, k2);
    NothingLeft(u3, a3, k3);
    h, leads := g.(ins := ins, implicitIns := implicitIns, orderOnly := orderOnly), Leads(true, lead2, lead3);
  }

  lemma NothingLeft(u: string, afterSpace: bool, k: nat)
    requires Reduces("", u, afterSpace, k)
    ensures u == "" && k == 0
  {
  }

  lemma OutputsMerged(g: Paths, end: string, u: string, k: nat) returns (h: Paths, lead: bool, v: string, after: bool, n: nat)
    requires g.Ok() && Reduces(g.OutputText(ALL_LEADS, end), u, false, k)
    ensures h.Ok() && h == g.(outs := h.outs, implicitOuts := h.implicitOuts)
    ensures u == h.OutputText(ALL_LEADS.(implicitOuts := lead), v) && Reduces(end, v, after, n)
    ensures n <= k && h.Count() + k == g.Count() + n && (n == k ==> h == g)
  {
    hide Reduces, SpaceEach, EscapeAll, PathsOk, Group;
    var outs, u1, a1, k1 := ListMerged(g.outs, Group(true, "|", g.implicitOuts) + end, u, k);
    var implicitOuts;
    lead, implicitOuts, v, after, n := GroupMerged("|", g.implicitOuts, end, u1, a1, k1);
    h := g.(outs := outs, implicitOuts := implicitOuts);
  }

  /** A line that lost `k` separators is the line of a statement with `k` paths less. */
  lemma LineMerged(g: Paths, rule: string, u: string, k: nat) returns (h: Paths, leads: Leads)
    requires g.Ok() && IsIdent(rule) && Reduces(g.Line(rule, ALL_LEADS, ""), u, false, k)
    ensures h.Ok() && u == h.Line(rule, leads, "") && h.Count() + k == g.Count() && (k == 0 ==> h == g)
  {
    hide Reduces, Paths.Ok, Paths.OutputText, Paths.InputText;
    var ins := g.InputText(ALL_LEADS, "");
    var u0 := CutOff("build", g.OutputText(ALL_LEADS, ":" + (" " + (rule + ins))), u, false, k);
    var o, lead, v, after, n := OutputsMerged(g, ":" + (" " + (rule + ins)), u0, k);
    var head := ":" + (" " + rule);
    assert ":" + (" " + (rule + ins)) == head + ins;
    assert NoDoubleSpace(head) && head[|head| - 1] == rule[|rule| - 1];
    var w := CutOff(head, ins, v, after, n);
    var i, leads' := InputsMerged(g, w, n);
    h, leads := i.(outs := o.outs, implicitOuts := o.implicitOuts), leads'.(implicitOuts := lead);
    JoinedHalves(h, o, i, leads, w, rule);
  }

  lemma JoinedHalves(h: Paths, o: Paths, i: Paths, leads: Leads, w: string, rule: string)
    requires h == i.(outs := o.outs, implicitOuts := o.implicitOuts) && o.Ok() && i.Ok()
    requires w == i.InputText(leads.(implicitOuts := true), "")
    ensures h.Ok()
    ensures h.Line(rule, leads, "")
         == "build" + o.OutputText(ALL_LEADS.(implicitOuts := leads.implicitOuts), (":" + (" " + rule)) + w)
  {
    assert ":" + (" " + (rule + w)) == (":" + (" " + rule)) + w;
  }
}
