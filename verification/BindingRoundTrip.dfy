/** Bindings that are written and read back, and those that are not. */
module BindingRoundTrip {
  import opened PyStrings
  import opened LineWrap
  import opened LogicalLines
  import opened EvalEnv
  import opened Lexer
  import opened ManifestParser
  import opened Continuations
  import opened BuildStatement
  import opened PlainReading
  import opened BindingReading
  import opened Joining
  import opened ValueLosses

  /** The first break takes place between the two spaces of a pool or dyndep line. */
  predicate BrokenAtOnce(text: string, width: int)
  {
    |text| > width && ChooseBreak(text, width - 2) == 0
  }

  /** The writer breaks the binding's line nowhere in front of a space, its own indentation aside. */
  predicate CleanBinding(b: Binding, width: int)
  {
    if b.spelledOut && BrokenAtOnce(b.Text(), width) then CleanBreaks(b.Text()[1..], Cont(0), Cont(0), width)
    else CleanBreaks(b.Text(), Lead(b.Indent()), Cont(b.Indent()), width)
  }

  lemma SingleSpacedClean(text: string, lead: nat, cont: nat, width: int)
    requires lead <= cont && NoDoubleSpace(text)
    ensures CleanBreaks(text, lead, cont, width)
  {
    ShieldedIsClean(text, lead, cont, width);
  }

  /** A binding of a value without adjacent spaces is broken cleanly at any width. */
  lemma SingleSpacesAreClean(b: Binding, width: int)
    requires BindingOk(b) && NoDoubleSpace(b.value)
    ensures CleanBinding(b, width)
  {
    hide CleanBreaks, BrokenAtOnce, NoDoubleSpace, ValueOk;
    var t := b.key + " = " + b.value;
    assert b.value != "" ==> b.value[0] != ' ' by { ValueHead(b.value, ""); }
    LetSingleSpaced(b.key, b.value);
    if b.spelledOut {
      IndentedClean(t, width);
      assert b.Text() == "  " + t;
    } else {
      assert b.Text() == t;
      SingleSpacedClean(t, Lead(1), Cont(1), width);
    }
  }

  lemma IndentedClean(t: string, width: int)
    requires NoDoubleSpace(t) && t != "" && t[0] != ' '
    ensures var text := "  " + t;
            CleanBreaks(text[1..], Cont(0), Cont(0), width) && (BrokenAtOnce(text, width) || CleanBreaks(text, 0, Cont(0), width))
  {
    var text := "  " + t;
    IndentedSpaces(t);
    SingleSpacedClean(text[1..], Cont(0), Cont(0), width);
    var b := ChooseBreak(text, width - 2);
    if |text| > width && b > 0 {
      hide ChooseBreak, NoDoubleSpace;
      SingleSpacedClean(text[b + 1..], Cont(0), Cont(0), width);
    }
  }

  lemma IndentedSpaces(t: string)
    requires NoDoubleSpace(t) && t != "" && t[0] != ' '
    ensures var text := "  " + t;
            && NoDoubleSpace(text[1..])
            && forall b :: 0 < b < |text| && text[b] == ' ' ==> (b + 1 == |text| || text[b + 1] != ' ') && NoDoubleSpace(text[b + 1..])
  {
    var text := "  " + t;
    assert forall p :: 2 <= p < |text| ==> text[p] == t[p - 2];
    forall b | 0 < b < |text| && text[b] == ' '
      ensures (b + 1 == |text| || text[b + 1] != ' ') && NoDoubleSpace(text[b + 1..])
    {
      var rest := text[b + 1..];
      assert forall p :: 0 <= p < |rest| ==> rest[p] == t[p + b - 1];
    }
    assert forall p :: 1 <= p <= |t| ==> text[1..][p] == t[p - 1];
  }

  lemma LetSingleSpaced(key: string, v: string)
    requires IsIdent(key) && NoDoubleSpace(v) && (v != "" ==> v[0] != ' ')
    ensures NoDoubleSpace(key + " = " + v) && (key + " = " + v)[0] != ' '
  {
    var t := key + " = " + v;
    forall p | 0 <= p && p + 1 < |t| && t[p] == ' '
      ensures t[p + 1] != ' '
    {
      if p >= |key| + 3 {
        assert t[p] == v[p - |key| - 3] && t[p + 1] == v[p - |key| - 2];
      }
    }
  }

  lemma {:induction false} ReducedWithin(t: string, u: string, afterSpace: bool, k: nat)
    requires Reduces(t, u, afterSpace, k) && OneLine(t)
    ensures OneLine(u) && |u| <= |t| && (|u| == |t| ==> u == t)
  {
    if t != "" {
      OneLineRest(t, 1);
      if u != "" && u[0] == t[0] && Reduces(t[1..], u[1..], t[0] == ' ', k) {
        ReducedWithin(t[1..], u[1..], t[0] == ' ', k);
        assert t[0] in t;
        assert u == [u[0]] + u[1..] && t == [t[0]] + t[1..];
      } else {
        ReducedWithin(t[1..], u, true, if |t| >= 2 && t[1] == '|' then k else k - 1);
      }
    }
  }

  /** Key and equals sign survive any wrapping: only the value can lose spaces. */
  lemma LetThinned(key: string, v: string, j: string, afterSpace: bool, k: nat) returns (v': string)
    requires IsIdent(key) && ValueOk(v) && Reduces(key + " = " + v, j, afterSpace, k)
    ensures j == key + " = " + v' && Reduces(v, v', true, k)
  {
    hide Reduces, ValueOk;
    var h := key + " = ";
    assert NoDoubleSpace(h) && h[0] != ' ';
    SolidCopied(h, v, j, afterSpace, k);
    v' := j[|h|..];
    assert j == j[..|h|] + v';
  }

  lemma NothingButText(t: string, j: string, k: nat)
    requires t != "" && t[0] != ' ' && Reduces(" " + t, j, true, k) && j != "" && j[0] == ' '
    ensures Reduces(t, j[1..], true, k)
  {
    assert (" " + t)[1..] == t;
    NoSpaceCopied(t, j, k);
    if k > 0 { NoSpaceCopied(t, j, k - 1); }
  }

  lemma FirstDropped(t: string, u: string, k: nat)
    requires t != "" && Reduces(t, u, false, k)
    ensures u != "" && u[0] == t[0] && Reduces(t[1..], u[1..], t[0] == ' ', k)
  {
  }

  lemma NoSpaceCopied(t: string, j: string, k: nat)
    requires t != "" && t[0] != ' ' && j != "" && j[0] == ' '
    ensures !Reduces(t, j, true, k)
  {
  }

  /** A pool or dyndep line that is broken between its two leading spaces loses one of them. */
  lemma OneSpaceLeft(t: string, width: int) returns (j: string, k: nat)
    requires t != "" && t[0] != ' ' && OneLine(t) && Aligned(t) && BrokenAtOnce("  " + t, width)
    ensures Joined("  " + t, 0, Cont(0), width) == Spaces(1) + j && Reduces(t, j, true, k)
    ensures |j| + 1 == |Joined(" " + t, Cont(0), Cont(0), width)|
  {
    var text, rest := "  " + t, " " + t;
    assert text[1..] == rest && text[..0] == "" && rest[1..] == t && Spaces(1) == " ";
    var whole := Joined(rest, Cont(0), Cont(0), width);
    assert Joined(text, 0, Cont(0), width) == " " + SkipSpaces(whole);
    hide ChooseBreak, Joined, Reduces;
    k := JoinedThinner(rest, Cont(0), Cont(0), width);
    FirstCopied(rest, whole, false, k);
    AfterASpace(rest, whole, k);
    NothingButText(t, whole, k);
    j := whole[1..];
    FirstCopied(t, j, true, k);
    assert SkipSpaces(whole) == j;
  }

  /** Any other pool or dyndep line keeps both. */
  lemma TwoSpacesLeft(t: string, width: int) returns (j: string, k: nat)
    requires t != "" && t[0] != ' ' && OneLine(t) && Aligned(t) && !BrokenAtOnce("  " + t, width)
    ensures Joined("  " + t, 0, Cont(0), width) == Spaces(2) + j && Reduces(t, j, true, k)
  {
    var text := "  " + t;
    assert text[1..] == " " + t && text[..2] == Spaces(2) == "  ";
    var whole := Joined(text, 0, Cont(0), width);
    hide ChooseBreak, Joined, Reduces, BrokenAtOnce, Aligned, Spaces, Cont;
    TwoSpacesFirst(text, width);
    k := JoinedThinner(text, 0, Cont(0), width);
    FirstDropped(text, whole, k);
    NothingButText(t, whole[1..], k);
    j := whole[2..];
    TwoDropped(whole);
  }

  lemma IndentationJoined(t: string, width: int) returns (n: nat, j: string, k: nat)
    requires t != "" && t[0] != ' ' && OneLine(t) && Aligned(t)
    ensures n > 0 && Joined("  " + t, 0, Cont(0), width) == Spaces(n) + j && Reduces(t, j, true, k)
    ensures |j| == |t| <==> if BrokenAtOnce("  " + t, width) then CleanBreaks(("  " + t)[1..], Cont(0), Cont(0), width)
                            else CleanBreaks("  " + t, 0, Cont(0), width)
  {
    hide ChooseBreak, Reduces, CleanBreaks;
    var text := "  " + t;
    assert text[1..] == " " + t && text[1..][1..] == t;
    if BrokenAtOnce(text, width) {
      n := 1;
      j, k := OneSpaceLeft(t, width);
      JoinedShorter(text[1..], Cont(0), Cont(0), width);
    } else {
      n := 2;
      j, k := TwoSpacesLeft(t, width);
      JoinedShorter(text, 0, Cont(0), width);
    }
  }

  lemma TwoDropped(s: string)
    requires |s| >= 2
    ensures s == s[..2] + s[2..] && s[1..][1..] == s[2..]
  {
  }

  lemma TwoSpacesFirst(text: string, width: int)
    requires |text| >= 2 && text[..2] == "  " && !BrokenAtOnce(text, width)
    ensures var j := Joined(text, 0, Cont(0), width); |j| >= 2 && j[..2] == "  " && j[0] == ' ' && j[1] == ' '
  {
    var j := Joined(text, 0, Cont(0), width);
    assert text[0] == text[..2][0] && text[1] == text[..2][1];
    var b := ChooseBreak(text, width - 2);
    if |text| > width && b > 0 {
      var head := text[..b] + " ";
      assert head[..2] == "  ";
      assert j[..2] == head[..2];
    }
    assert j[0] == j[..2][0] && j[1] == j[..2][1];
  }

  /** What becomes of any binding: its key, and its value less some spaces. */
  lemma BindingJoined(b: Binding, width: int, tail: string) returns (n: nat, v: string, k: nat)
    requires BindingOk(b)
    ensures var w := b.Output(width) + tail;
            Spaced(w, false) && Unwrap(w) == Spaces(n) + (b.key + " = " + v + "\n" + tail)
    ensures n > 0 && Reduces(b.value, v, true, k) && (|v| == |b.value| <==> CleanBinding(b, width))
  {
    hide Unwrap, Spaced, Reduces, CleanBreaks, LineText, Joined, BrokenAtOnce, Aligned, ValueOk, IsIdent;
    var t := b.key + " = " + b.value;
    BindingTextPlain(b);
    LetTextPlain(b.key, b.value);
    LineJoined(b.Text(), b.Indent(), width, tail);
    if b.spelledOut {
      assert b.Text() == "  " + t;
      var j;
      n, j, k := IndentationJoined(t, width);
      v := LetThinned(b.key, b.value, j, true, k);
      assert Spaces(0) == "";
      Regroup(Spaces(n), j, "\n");
      Regroup(Spaces(n), j + "\n", tail);
    } else {
      assert b.Text() == t;
      n := 2;
      k := JoinedThinner(t, 2, 6, width);
      v := LetThinned(b.key, b.value, Joined(t, 2, 6, width), false, k);
      JoinedShorter(t, 2, 6, width);
    }
  }

  lemma LetShape(key: string, v: string, tail: string)
    ensures key + " = " + v + "\n" + tail == key + (" " + ("=" + (" " + Line(v, tail))))
  {
    assert " = " == " " + ("=" + " ");
  }

  /** A value that lost spaces starts like the one it was. */
  lemma ThinnedHead(v: string, v': string, k: nat, tail: string)
    requires ValueOk(v) && Reduces(v, v', true, k) && OneLine(v')
    ensures var x := Line(v', tail);
            x != "" && x[0] != ' ' && (x[0] == '$' ==> |x| >= 2 && x[1] != '\n' && x[1] != '\r')
  {
    FirstCopied(v, v', true, k);
    if v != "" && v[0] == '$' {
      assert |v| >= 2;
      assert v[..2] == [v[0], v[1]];
      StretchCopied(v, 2, v', true, k);
      assert v'[1] in v';
    }
  }

  /** The value is read as written exactly when no space was lost. */
  lemma LossSeen(key: string, v: string, v': string, k: nat, tail: string)
    requires IsIdent(key) && ValueOk(v) && Reduces(v, v', true, k)
    ensures var x := key + " = " + v' + "\n" + tail;
            && ReadIdent(x).Ok? && ReadIdent(x).rest != "" && ReadIdent(x).rest[0] == '='
            && (ParseLet(x).Ok? && ParseLet(x).value == (key, ReadValue(v)) <==> |v'| == |v|)
            && (|v'| == |v| ==> ParseLet(x).Ok? && ParseLet(x).rest == tail)
  {
    ReducedWithin(v, v', true, k);
    ThinnedHead(v, v', k, tail);
    hide Reduces, ParseLet, ReadIdent, ScanEvalString, IsIdent, RawLength;
    LetShape(key, v', tail);
    LetReads(key, Line(v', tail));
    if |v'| == |v| {
      PlainLet(key, v, tail);
    } else {
      assert v + "\n" == Line(v, "");
      ThinnerDiffers(v, v', true, k, "", tail, EMPTY, EMPTY);
    }
  }

  /** A line with a name and an equals sign is read as the line it stands for. */
  lemma JoinedLet(e: string, x: string)
    requires Spaced(e, false) && Unwrap(e) == x
    requires ReadIdent(x).Ok? && ReadIdent(x).rest != "" && ReadIdent(x).rest[0] == '='
    ensures ParseLet(e) == ParseLet(x)
  {
    hide Unwrap, Spaced, ReadIdent, ParseLet;
    IdentUnwrap(e);
    HeadOfRest(e, '=');
    LetUnwrap(e);
  }

  /** A written binding is read back as its key and the value as written exactly when its line is clean. */
  lemma BindingParses(b: Binding, width: int, tail: string)
    requires BindingOk(b)
    ensures var w := b.Output(width) + tail;
            var r := ParseLet(PeekToken(w, INDENT).1);
            && PeekToken(w, INDENT).0
            && (r.Ok? && r.value == (b.key, ReadValue(b.value)) <==> CleanBinding(b, width))
            && (CleanBinding(b, width) ==> r.Ok? && r.rest == tail)
  {
    hide Unwrap, Spaced, Reduces, CleanBinding, ParseLet, ReadIdent, PeekToken, EatWhitespace, ValueOk;
    var w := b.Output(width) + tail;
    var n, v, k := BindingJoined(b, width, tail);
    var x := b.key + " = " + v + "\n" + tail;
    assert x[0] == b.key[0];
    IndentSeen(w, n, x);
    LossSeen(b.key, b.value, v, k, tail);
    JoinedLet(EatWhitespace(w), x);
  }

  function ReadAll(bs: seq<Binding>): seq<(string, EvalString)>
    requires forall i :: 0 <= i < |bs| ==> BindingOk(bs[i])
  {
    if bs == [] then [] else
    assert BindingOk(bs[0]);
    [(bs[0].key, ReadValue(bs[0].value))] + ReadAll(bs[1..])
  }

  lemma LinesHead(bs: seq<Binding>, width: int, tail: string)
    requires bs != []
    ensures BindingLines(bs, width) + tail == bs[0].Output(width) + (BindingLines(bs[1..], width) + tail)
  {
    BindingLinesCons(bs[0], bs[1..], width);
    assert [bs[0]] + bs[1..] == bs;
    Regroup(bs[0].Output(width), BindingLines(bs[1..], width), tail);
  }

  lemma BindingsStep(w: string)
    requires PeekToken(w, INDENT).0 && ParseLet(PeekToken(w, INDENT).1).Ok?
    ensures var first := ParseLet(PeekToken(w, INDENT).1);
            var more := ParseBindings(first.rest);
            ParseBindings(w) == if more.Err? then more else Ok([first.value] + more.value, more.rest)
  {
  }

  ghost predicate AllBindingsOk(bs: seq<Binding>)
  {
    forall i :: 0 <= i < |bs| ==> BindingOk(bs[i])
  }

  predicate AllBindingsClean(bs: seq<Binding>, width: int)
  {
    forall i :: 0 <= i < |bs| ==> CleanBinding(bs[i], width)
  }

  /** All the bindings of a statement come back, in order, exactly when all their lines are clean. */
  lemma {:induction false} BindingsParse(bs: seq<Binding>, width: int, tail: string)
    requires AllBindingsOk(bs) && !PeekToken(tail, INDENT).0
    ensures var r := ParseBindings(BindingLines(bs, width) + tail);
            && (r.Ok? && r.value == ReadAll(bs) <==> AllBindingsClean(bs, width))
            && (AllBindingsClean(bs, width) ==> r.Ok? && r.rest == PeekToken(tail, INDENT).1)
  {
    hide CleanBinding, ParseLet, PeekToken, BindingLines, BindingOk;
    if bs == [] {
      NoBindings(width, tail);
    } else {
      assert BindingOk(bs[0]);
      var more := BindingLines(bs[1..], width) + tail;
      LinesHead(bs, width, tail);
      BindingParses(bs[0], width, more);
      CleanBindings(bs, width);
      if CleanBinding(bs[0], width) {
        BindingsParse(bs[1..], width, tail);
        hide ParseBindings;
        BindingsStep(bs[0].Output(width) + more);
        var rest := ParseBindings(more);
        if rest.Ok? { SameSuffix([ReadAll(bs)[0]], rest.value, ReadAll(bs[1..])); }
      } else {
        hide ParseBindings;
        BindingsStart(bs[0].Output(width) + more);
      }
    }
  }

  lemma NoBindings(width: int, tail: string)
    requires !PeekToken(tail, INDENT).0
    ensures ParseBindings(BindingLines([], width) + tail) == Ok([], PeekToken(tail, INDENT).1)
  {
    assert BindingLines([], width) + tail == tail;
  }

  lemma CleanBindings(bs: seq<Binding>, width: int)
    requires bs != []
    ensures AllBindingsClean(bs, width) <==> CleanBinding(bs[0], width) && AllBindingsClean(bs[1..], width)
  {
    hide CleanBinding;
    assert forall i :: 1 <= i < |bs| ==> bs[i] == bs[1..][i - 1];
  }

  lemma BindingsStart(w: string)
    requires PeekToken(w, INDENT).0
    ensures var r, first := ParseBindings(w), ParseLet(PeekToken(w, INDENT).1);
            r.Ok? ==> first.Ok? && r.value != [] && r.value[0] == first.value
  {
  }
}
