/** A value that loses a space is read as another value. */
module ValueLosses {
  import opened LogicalLines
  import opened EvalEnv
  import opened Lexer
  import opened Continuations
  import opened BindingReading
  import opened Expansion
  import opened Joining

  /** The length of the text in a value, names aside. */
  function RawLength(e: EvalString): nat { |e.Evaluate(name => "")| }

  lemma RawText(e: EvalString, text: string)
    ensures RawLength(e.AddText(text)) == RawLength(e) + |text|
  {
    TextEvaluates(e, text, name => "");
  }

  lemma RawReference(e: EvalString, name: string)
    ensures RawLength(e.AddSpecial(name)) == RawLength(e)
  {
    ReferenceEvaluates(e, name, name => "");
  }

  /** A value, the end of its line and what follows. */
  function Line(v: string, tail: string): string { v + "\n" + tail }

  predicate OneLine(v: string) { '\n' !in v && '\r' !in v }

  lemma LineDropped(v: string, n: nat, tail: string)
    requires n <= |v|
    ensures Line(v, tail)[n..] == Line(v[n..], tail) && Line(v, tail)[..n] == v[..n]
  {
  }

  lemma OrdinaryScanned(v: string, tail: string, eval: EvalString)
    requires v != "" && v[0] != '$' && OneLine(v)
    ensures ScanEvalString(Line(v, tail), false, eval) ==
            if v[0] == '\0' then Err(UnexpectedEof) else ScanEvalString(Line(v[1..], tail), false, eval.AddText([v[0]]))
  {
    hide ScanEvalString;
    var s := Line(v, tail);
    assert v[0] in v;
    assert s[..1] == [v[0]] && s[1..] == Line(v[1..], tail);
    ScanOrdinary(s, false, eval);
  }

  lemma EscapeScanned(v: string, tail: string, eval: EvalString)
    requires |v| >= 2 && v[0] == '$' && (v[1] == '$' || v[1] == ' ' || v[1] == ':' || v[1] == '^')
    ensures ScanEvalString(Line(v, tail), false, eval)
         == ScanEvalString(Line(v[2..], tail), false, eval.AddText(if v[1] == '^' then "\n" else [v[1]]))
  {
    hide ScanEvalString;
    assert Line(v, tail)[2..] == Line(v[2..], tail);
    ScanSimpleEscape(Line(v, tail), false, eval);
  }

  lemma {:induction false} NameEnds(v: string, tail: string)
    ensures SimpleVarLength(Line(v, tail)) == SimpleVarLength(v) && VarLength(Line(v, tail)) == VarLength(v)
  {
    if v == "" {
      assert Line(v, tail)[0] == '\n';
    } else {
      NameEnds(v[1..], tail);
      assert Line(v, tail)[1..] == Line(v[1..], tail) && Line(v, tail)[0] == v[0];
    }
  }

  lemma ReferenceScanned(v: string, tail: string, eval: EvalString)
    requires |v| >= 2 && v[0] == '$' && IsSimpleVarChar(v[1])
    ensures var n := SimpleVarLength(v[1..]);
            n > 0 && ScanEvalString(Line(v, tail), false, eval)
                  == ScanEvalString(Line(v[n + 1..], tail), false, eval.AddSpecial(v[1..n + 1]))
  {
    assert v[1..][0] == v[1];
    hide ScanEvalString, SimpleVarLength, IsSimpleVarChar, Line;
    var s, n := Line(v, tail), SimpleVarLength(v[1..]);
    LineDropped(v, 1, tail);
    LineDropped(v, 2, tail);
    LineDropped(v, n + 1, tail);
    NameEnds(v[1..], tail);
    assert s[0] == s[..2][0] && s[1] == s[..2][1];
    assert s[1..n + 1] == s[..n + 1][1..] == v[..n + 1][1..] == v[1..n + 1];
    ScanReference(s, false, eval);
  }

  predicate Braced(v: string)
    requires |v| >= 2
  {
    var n := VarLength(v[2..]);
    n > 0 && n + 2 < |v| && v[n + 2] == '}'
  }

  lemma BracesScanned(v: string, tail: string, eval: EvalString)
    requires |v| >= 2 && v[0] == '$' && v[1] == '{'
    ensures var n := VarLength(v[2..]);
            ScanEvalString(Line(v, tail), false, eval) ==
            if Braced(v) then ScanEvalString(Line(v[n + 3..], tail), false, eval.AddSpecial(v[2..n + 2])) else Err(BadEscape)
  {
    hide ScanEvalString, VarLength;
    var s, n := Line(v, tail), VarLength(v[2..]);
    assert s[2..] == Line(v[2..], tail);
    NameEnds(v[2..], tail);
    assert s[n + 2..] == Line(v[n + 2..], tail) && s[2..n + 2] == v[2..n + 2];
    assert s[n + 2..][..1] == [s[n + 2]];
    if Braced(v) { assert s[n + 3..] == Line(v[n + 3..], tail); }
    ScanBraces(s, false, eval);
  }

  /** Two readings that differ by as much text as the two values do. */
  ghost predicate Differ(t: string, u: string, tail: string, tail': string, e: EvalString, e': EvalString)
  {
    var r, r' := ScanEvalString(Line(t, tail), false, e), ScanEvalString(Line(u, tail'), false, e');
    r.Ok? && r'.Ok? ==> RawLength(r.value) + RawLength(e') + |u| == RawLength(r'.value) + RawLength(e) + |t|
  }

  lemma OneLineRest(v: string, n: nat)
    requires OneLine(v) && n <= |v|
    ensures OneLine(v[n..])
  {
  }

  /** One space less in the value is one space less in what is read. */
  lemma {:induction false} ThinnerDiffers(t: string, u: string, afterSpace: bool, k: nat,
                                          tail: string, tail': string, e: EvalString, e': EvalString)
    requires Reduces(t, u, afterSpace, k) && Aligned(t) && OneLine(t) && OneLine(u)
    ensures Differ(t, u, tail, tail', e, e')
    decreases |t|, 2
  {
    if t == "" {
      assert Line(t, tail)[0] == '\n' && Line(u, tail')[0] == '\n';
    } else if t[0] == '$' {
      assert |t| >= 2;
      EscapeDiffers(t, u, afterSpace, k, tail, tail', e, e');
    } else if u != "" && u[0] == t[0] && Reduces(t[1..], u[1..], t[0] == ' ', k) {
      OneLineRest(t, 1);
      OneLineRest(u, 1);
      hide ScanEvalString, Reduces, RawLength;
      var c := [t[0]];
      OrdinaryScanned(t, tail, e);
      OrdinaryScanned(u, tail', e');
      ThinnerDiffers(t[1..], u[1..], t[0] == ' ', k, tail, tail', e.AddText(c), e'.AddText(c));
      RawText(e, c);
      RawText(e', c);
    } else {
      OneLineRest(t, 1);
      hide ScanEvalString, RawLength;
      OrdinaryScanned(t, tail, e);
      ThinnerDiffers(t[1..], u, true, if |t| >= 2 && t[1] == '|' then k else k - 1, tail, tail', e.AddText([t[0]]), e');
      RawText(e, [t[0]]);
    }
  }

  lemma {:induction false} SimpleEscapeDiffers(t: string, u: string, afterSpace: bool, k: nat,
                                               tail: string, tail': string, e: EvalString, e': EvalString)
    requires Reduces(t, u, afterSpace, k) && Aligned(t) && OneLine(t) && OneLine(u) && |t| >= 2 && t[0] == '$'
    requires t[1] == '$' || t[1] == ' ' || t[1] == ':' || t[1] == '^'
    ensures Differ(t, u, tail, tail', e, e')
    decreases |t|, 0
  {
    hide Reduces, ScanEvalString, RawLength, IsSimpleVarChar;
    var text := if t[1] == '^' then "\n" else [t[1]];
    StretchCopied(t, 2, u, afterSpace, k);
    OneLineRest(t, 2);
    OneLineRest(u, 2);
    EscapeScanned(t, tail, e);
    EscapeScanned(u, tail', e');
    ThinnerDiffers(t[2..], u[2..], t[1] == ' ', k, tail, tail', e.AddText(text), e'.AddText(text));
    RawText(e, text);
    RawText(e', text);
  }

  lemma {:induction false} ReferenceDiffers(t: string, u: string, afterSpace: bool, k: nat,
                                            tail: string, tail': string, e: EvalString, e': EvalString)
    requires Reduces(t, u, afterSpace, k) && Aligned(t) && OneLine(t) && OneLine(u) && |t| >= 2 && t[0] == '$'
    requires IsSimpleVarChar(t[1])
    ensures Differ(t, u, tail, tail', e, e')
    decreases |t|, 0
  {
    hide Reduces, ScanEvalString, RawLength, SimpleVarLength, Aligned, IsSimpleVarChar;
    ReferenceCopied(t, u, afterSpace, k);
    var n := SimpleVarLength(t[1..]);
    var name := t[1..n + 1];
    OneLineRest(t, n + 1);
    OneLineRest(u, n + 1);
    ReferenceScanned(t, tail, e);
    ReferenceScanned(u, tail', e');
    ThinnerDiffers(t[n + 1..], u[n + 1..], false, k, tail, tail', e.AddSpecial(name), e'.AddSpecial(name));
    RawReference(e, name);
    RawReference(e', name);
  }

  lemma {:induction false} BracesDiffer(t: string, u: string, afterSpace: bool, k: nat,
                                        tail: string, tail': string, e: EvalString, e': EvalString)
    requires Reduces(t, u, afterSpace, k) && Aligned(t) && OneLine(t) && OneLine(u) && |t| >= 2 && t[0] == '$'
    requires t[1] == '{' && Braced(t)
    ensures Differ(t, u, tail, tail', e, e')
    decreases |t|, 0
  {
    hide Reduces, ScanEvalString, RawLength, VarLength, Aligned;
    BracesCopied(t, u, afterSpace, k);
    var n := VarLength(t[2..]);
    var name := t[2..n + 2];
    OneLineRest(t, n + 3);
    OneLineRest(u, n + 3);
    BracesScanned(t, tail, e);
    BracesScanned(u, tail', e');
    ThinnerDiffers(t[n + 3..], u[n + 3..], false, k, tail, tail', e.AddSpecial(name), e'.AddSpecial(name));
    RawReference(e, name);
    RawReference(e', name);
  }

  lemma {:induction false} EscapeDiffers(t: string, u: string, afterSpace: bool, k: nat,
                                         tail: string, tail': string, e: EvalString, e': EvalString)
    requires Reduces(t, u, afterSpace, k) && Aligned(t) && OneLine(t) && OneLine(u) && |t| >= 2 && t[0] == '$'
    ensures Differ(t, u, tail, tail', e, e')
    decreases |t|, 1
  {
    hide Reduces, ScanEvalString, RawLength, VarLength, Aligned;
    assert t[1] in t;
    if t[1] == '$' || t[1] == ' ' || t[1] == ':' || t[1] == '^' {
      SimpleEscapeDiffers(t, u, afterSpace, k, tail, tail', e, e');
    } else if IsSimpleVarChar(t[1]) {
      ReferenceDiffers(t, u, afterSpace, k, tail, tail', e, e');
    } else if t[1] != '{' {
      ScanBadEscape(Line(t, tail), false, e);
    } else if Braced(t) {
      BracesDiffer(t, u, afterSpace, k, tail, tail', e, e');
    } else {
      BracesScanned(t, tail, e);
    }
  }

  /** The first `n` characters are copied if no two of them are spaces in a row. */
  lemma StretchCopied(t: string, n: nat, u: string, afterSpace: bool, k: nat)
    requires Reduces(t, u, afterSpace, k) && 0 < n <= |t| && t[0] != ' ' && NoDoubleSpace(t[..n])
    ensures |u| >= n && u[..n] == t[..n] && Reduces(t[n..], u[n..], t[n - 1] == ' ', k)
    ensures forall i :: 0 <= i < n ==> u[i] == t[i]
  {
    hide Reduces;
    assert t == t[..n] + t[n..];
    SolidCopied(t[..n], t[n..], u, afterSpace, k);
    assert forall i :: 0 <= i < n ==> u[i] == u[..n][i];
  }

  lemma {:induction false} NameLength(v: string, n: nat)
    requires n <= |v| && (n < |v| ==> !IsSimpleVarChar(v[n])) && forall i :: 0 <= i < n ==> IsSimpleVarChar(v[i])
    ensures SimpleVarLength(v) == n
  {
    if n > 0 { NameLength(v[1..], n - 1); }
  }

  lemma {:induction false} LongNameLength(v: string, n: nat)
    requires n <= |v| && (n < |v| ==> !IsVarChar(v[n])) && forall i :: 0 <= i < n ==> IsVarChar(v[i])
    ensures VarLength(v) == n
  {
    if n > 0 { LongNameLength(v[1..], n - 1); }
  }

  lemma ReferenceCopied(t: string, u: string, afterSpace: bool, k: nat)
    requires Reduces(t, u, afterSpace, k) && |t| >= 2 && t[0] == '$' && IsSimpleVarChar(t[1]) && Aligned(t)
    ensures var n := SimpleVarLength(t[1..]);
            && n > 0 && |u| >= n + 1 && u[0] == '$' && u[1] == t[1] && u[1..n + 1] == t[1..n + 1] && SimpleVarLength(u[1..]) == n
            && Reduces(t[n + 1..], u[n + 1..], false, k) && Aligned(t[n + 1..])
  {
    assert t[1..][0] == t[1];
    hide Reduces, SimpleVarLength;
    var n := SimpleVarLength(t[1..]);
    assert forall i :: 1 <= i <= n ==> t[i] == t[1..][i - 1];
    assert NoDoubleSpace(t[..n + 1]);
    StretchCopied(t, n + 1, u, afterSpace, k);
    FirstCopied(t[n + 1..], u[n + 1..], false, k);
    assert n + 1 < |u| ==> n + 1 < |t| && u[n + 1] == t[n + 1] == t[1..][n];
    assert forall i :: 0 <= i < n ==> u[1..][i] == t[1..][i];
    NameLength(u[1..], n);
    AlignedAfterReference(t, n);
  }

  lemma ReferenceAligned(v: string)
    requires |v| >= 2 && v[0] == '$' && IsSimpleVarChar(v[1]) && Aligned(v)
    ensures var n := SimpleVarLength(v[1..]); n < |v| && Aligned(v[n + 1..])
  {
    ReducesItself(v, false);
    ReferenceCopied(v, v, false, 0);
  }

  lemma BracesAligned(v: string)
    requires |v| >= 2 && v[0] == '$' && v[1] == '{' && Braced(v) && Aligned(v)
    ensures Aligned(v[VarLength(v[2..]) + 3..])
  {
    ReducesItself(v, false);
    BracesCopied(v, v, false, 0);
  }

  lemma BadEscapeScanned(v: string, tail: string, eval: EvalString)
    requires |v| >= 2 && v[0] == '$' && !IsSimpleVarChar(v[1]) && OneLine(v)
    requires v[1] != '$' && v[1] != ' ' && v[1] != ':' && v[1] != '^' && v[1] != '{'
    ensures ScanEvalString(Line(v, tail), false, eval) == Err(BadEscape)
  {
    assert v[1] in v;
    ScanBadEscape(Line(v, tail), false, eval);
  }

  lemma BracesCopied(t: string, u: string, afterSpace: bool, k: nat)
    requires Reduces(t, u, afterSpace, k) && |t| >= 2 && t[0] == '$' && t[1] == '{' && Braced(t) && Aligned(t)
    ensures var n := VarLength(t[2..]);
            && |u| >= n + 3 && u[0] == '$' && u[1] == '{' && u[2..n + 2] == t[2..n + 2] && VarLength(u[2..]) == n && Braced(u)
            && Reduces(t[n + 3..], u[n + 3..], false, k) && Aligned(t[n + 3..])
  {
    hide Reduces, VarLength;
    var n := VarLength(t[2..]);
    assert forall i :: 2 <= i < n + 2 ==> t[i] == t[2..][i - 2];
    assert NoDoubleSpace(t[..n + 3]);
    StretchCopied(t, n + 3, u, afterSpace, k);
    assert forall i :: 0 <= i < n ==> u[2..][i] == t[2..][i];
    LongNameLength(u[2..], n);
    assert Aligned(t[2..]);
    AlignedDrop(t[2..], n + 1);
    assert t[2..][n + 1..] == t[n + 3..];
  }
}
