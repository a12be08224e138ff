/**
 * The reader does not see continuations: scanning a wrapped line and scanning
 * the logical line it stands for give the same results, step by step.
 */
module Continuations {
  import opened EvalEnv
  import opened LogicalLines
  import opened Lexer
  import opened ManifestParser

  lemma {:induction false} EatSkips(s: string)
    ensures EatWhitespace(SkipSpaces(s)) == EatWhitespace(s)
  {
    if s != "" && s[0] == ' ' { EatSkips(s[1..]); }
  }

  /** Away from a continuation, both readings start with the same character. */
  lemma HeadUnwrap(w: string)
    requires Spaced(w, false)
    ensures w == "" ==> Unwrap(w) == ""
    ensures w != "" ==> Unwrap(w) != "" && Unwrap(w)[0] == w[0]
    ensures !At(Unwrap(w), "$\n") && !At(Unwrap(w), "$\r\n")
    ensures |w| >= 2 && w[0] != '\n' && (w[0] == '$' || Spaced(w[1..], false)) ==>
              |Unwrap(w)| >= 2 && Unwrap(w)[1] == w[1]
  {
  }

  lemma {:induction false} EatUnwrap(w: string, afterSpace: bool)
    requires Spaced(w, afterSpace)
    ensures EatWhitespace(Unwrap(w)) == Unwrap(EatWhitespace(w))
    ensures Spaced(EatWhitespace(w), false)
    ensures EatWhitespace(w) == "" || EatWhitespace(w)[0] != ' '
    decreases |w|
  {
    if w == "" || w[0] == '\n' {
    } else if w[0] == ' ' {
      EatUnwrap(w[1..], true);
      assert Unwrap(w)[1..] == Unwrap(w[1..]);
    } else if At(w, "$\n") {
      EatUnwrap(SkipSpaces(w[2..]), true);
      EatSkips(w[2..]);
    } else {
      assert Spaced(w, false);
      HeadUnwrap(w);
    }
  }

  /** One more character in front of two strings that start alike. */
  lemma ConsAlike(c: char, t: string, u: string, n: nat)
    requires n <= |t| && n <= |u| && u[..n] == t[..n]
    ensures ([c] + u)[..n + 1] == ([c] + t)[..n + 1] && ([c] + u)[n + 1..] == u[n..] && ([c] + t)[n + 1..] == t[n..]
  {
    assert ([c] + u)[..n + 1] == [c] + u[..n];
    assert ([c] + t)[..n + 1] == [c] + t[..n];
  }

  /** An ordinary character comes first in both readings. */
  lemma PlainUnwrap(w: string, afterSpace: bool)
    requires w != "" && w[0] != '$' && w[0] != '\n' && Spaced(w, afterSpace)
    ensures Unwrap(w) == [w[0]] + Unwrap(w[1..]) && Unwrap(w)[1..] == Unwrap(w[1..])
    ensures w[0] != '\r' && Spaced(w[1..], w[0] == ' ')
  {
  }

  lemma VarCons(c: char, t: string)
    ensures VarLength([c] + t) == if IsVarChar(c) then 1 + VarLength(t) else 0
    ensures SimpleVarLength([c] + t) == if IsSimpleVarChar(c) then 1 + SimpleVarLength(t) else 0
  {
    assert ([c] + t)[1..] == t;
  }

  lemma {:induction false} VarUnwrap(w: string)
    requires Spaced(w, false)
    ensures var n := VarLength(w);
            VarLength(Unwrap(w)) == n && Unwrap(w)[..n] == w[..n] &&
            Unwrap(w)[n..] == Unwrap(w[n..]) && Spaced(w[n..], false)
  {
    HeadUnwrap(w);
    hide Unwrap, Spaced, VarLength;
    if VarLength(w) > 0 {
      var t := w[1..];
      PlainUnwrap(w, false);
      VarUnwrap(t);
      assert w == [w[0]] + t;
      VarCons(w[0], t);
      VarCons(w[0], Unwrap(t));
      ConsAlike(w[0], t, Unwrap(t), VarLength(t));
    }
  }

  lemma {:induction false} SimpleVarUnwrap(w: string)
    requires Spaced(w, false)
    ensures var n := SimpleVarLength(w);
            SimpleVarLength(Unwrap(w)) == n && Unwrap(w)[..n] == w[..n] &&
            Unwrap(w)[n..] == Unwrap(w[n..]) && Spaced(w[n..], false)
  {
    HeadUnwrap(w);
    hide Unwrap, Spaced, SimpleVarLength;
    if SimpleVarLength(w) > 0 {
      var t := w[1..];
      PlainUnwrap(w, false);
      SimpleVarUnwrap(t);
      assert w == [w[0]] + t;
      VarCons(w[0], t);
      VarCons(w[0], Unwrap(t));
      ConsAlike(w[0], t, Unwrap(t), SimpleVarLength(t));
    }
  }

  /** Equal outcomes; a path goes on at corresponding places, a value at the same one. */
  ghost predicate SameReading<T>(wrapped: Result<T>, plain: Result<T>)
  {
    if wrapped.Err? then plain == wrapped
    else plain.Ok? && plain.value == wrapped.value &&
         plain.rest == Unwrap(wrapped.rest) && Spaced(wrapped.rest, false)
  }

  ghost predicate SameValue<T>(wrapped: Result<T>, plain: Result<T>, path: bool)
  {
    if path then SameReading(wrapped, plain) else wrapped == plain
  }

  /** A dollar and an ordinary partner are the same two characters in both readings. */
  lemma EscapeUnwrap(w: string)
    requires |w| >= 2 && w[0] == '$' && w[1] != '\n' && Spaced(w, true)
    ensures |Unwrap(w)| >= 2 && Unwrap(w)[..2] == w[..2]
    ensures Unwrap(w)[2..] == Unwrap(w[2..]) && Spaced(w[2..], w[1] == ' ')
    ensures w[1] != '$' && w[1] != ' ' ==> Unwrap(w)[1..] == Unwrap(w[1..]) && Spaced(w[1..], false)
  {
    if w[1] != '$' {
      assert w[1..][1..] == w[2..];
      assert Unwrap(w[1..]) == [w[1]] + Unwrap(w[2..]);
    }
  }

  lemma {:induction false} ScanUnwrap(w: string, afterSpace: bool, path: bool, eval: EvalString)
    requires Spaced(w, afterSpace)
    ensures Alike(w, path, eval)
    decreases |w|
  {
    if w == "" || w[0] == '\n' || w == "$" {
    } else if w[0] != '$' {
      PlainUnwrap(w, afterSpace);
      ScanUnwrap(w[1..], w[0] == ' ', path, eval.AddText(w[..1]));
      PlainAlike(w, afterSpace, path, eval);
    } else if w[1] == '\n' {
      ScanUnwrap(SkipSpaces(w[2..]), true, path, eval);
      ScanContinuation(w, path, eval);
    } else {
      ScanEscapeUnwrap(w, path, eval);
    }
  }

  lemma ScanOrdinary(s: string, path: bool, eval: EvalString)
    requires s != "" && s[0] != '$' && s[0] != '\n' && s[0] != '\r'
    ensures ScanEvalString(s, path, eval) ==
            if s[0] == '\0' then Err(UnexpectedEof)
            else if path && (s[0] == ' ' || s[0] == ':' || s[0] == '|') then Ok(eval, s)
            else ScanEvalString(s[1..], path, eval.AddText(s[..1]))
  {
  }

  lemma ScanContinuation(s: string, path: bool, eval: EvalString)
    requires |s| >= 2 && s[0] == '$' && s[1] == '\n'
    ensures ScanEvalString(s, path, eval) == ScanEvalString(SkipSpaces(s[2..]), path, eval)
  {
    assert s[..2] == "$\n";
  }

  lemma PlainAlike(w: string, afterSpace: bool, path: bool, eval: EvalString)
    requires w != "" && w[0] != '$' && w[0] != '\n' && Spaced(w, afterSpace)
    requires Alike(w[1..], path, eval.AddText(w[..1]))
    ensures Alike(w, path, eval)
  {
    PlainUnwrap(w, afterSpace);
    if path && (w[0] == ' ' || w[0] == ':' || w[0] == '|') { assert Spaced(w, false); }
    hide ScanEvalString, Unwrap, Spaced;
    var u := Unwrap(w);
    assert u[..1] == w[..1];
    ScanOrdinary(w, path, eval);
    ScanOrdinary(u, path, eval);
  }

  /** One step of the scanner behind a dollar, by the character that follows. */
  lemma ScanSimpleEscape(s: string, path: bool, eval: EvalString)
    requires |s| >= 2 && s[0] == '$' && (s[1] == '$' || s[1] == ' ' || s[1] == ':' || s[1] == '^')
    ensures ScanEvalString(s, path, eval)
         == ScanEvalString(s[2..], path, eval.AddText(if s[1] == '^' then "\n" else [s[1]]))
  {
    assert s[..2] == [s[0], s[1]];
  }

  lemma ScanReference(s: string, path: bool, eval: EvalString)
    requires |s| >= 2 && s[0] == '$' && IsSimpleVarChar(s[1])
    ensures var n := SimpleVarLength(s[1..]);
            n > 0 && ScanEvalString(s, path, eval) == ScanEvalString(s[n + 1..], path, eval.AddSpecial(s[1..n + 1]))
  {
    hide SimpleVarLength, VarLength, SkipSpaces;
    assert s[1] == s[..2][1];
    assert s[1..][0] == s[1];
    assert |s| >= 3 ==> s[1] == s[..3][1];
  }

  lemma ScanBraces(s: string, path: bool, eval: EvalString)
    requires |s| >= 2 && s[0] == '$' && s[1] == '{'
    ensures var n := VarLength(s[2..]);
            ScanEvalString(s, path, eval) ==
            if n > 0 && At(s[n + 2..], "}") then ScanEvalString(s[n + 3..], path, eval.AddSpecial(s[2..n + 2]))
            else Err(BadEscape)
  {
    assert s[..2] == "${";
    assert SimpleVarLength(s[1..]) == 0;
  }

  lemma ScanBadEscape(s: string, path: bool, eval: EvalString)
    requires |s| >= 2 && s[0] == '$' && !IsSimpleVarChar(s[1])
    requires s[1] != '$' && s[1] != ' ' && s[1] != ':' && s[1] != '^' && s[1] != '{' && s[1] != '\n' && s[1] != '\r'
    ensures ScanEvalString(s, path, eval) == Err(BadEscape)
  {
    assert s[1] == s[..2][1];
    assert |s| >= 3 ==> s[1] == s[..3][1];
    assert SimpleVarLength(s[1..]) == 0;
  }

  /** Both readings scan `w` alike. */
  ghost predicate Alike(w: string, path: bool, eval: EvalString)
  {
    SameValue(ScanEvalString(w, path, eval), ScanEvalString(Unwrap(w), path, eval), path)
  }

  lemma SimpleEscapeAlike(w: string, path: bool, eval: EvalString)
    requires |w| >= 2 && w[0] == '$' && (w[1] == '$' || w[1] == ' ' || w[1] == ':' || w[1] == '^') && Spaced(w, true)
    requires Alike(w[2..], path, eval.AddText(if w[1] == '^' then "\n" else [w[1]]))
    ensures Alike(w, path, eval)
  {
    EscapeUnwrap(w);
    hide ScanEvalString, Unwrap, Spaced, SameValue;
    var u := Unwrap(w);
    assert u[0] == u[..2][0] && u[1] == u[..2][1];
    ScanSimpleEscape(w, path, eval);
    ScanSimpleEscape(u, path, eval);
  }

  lemma ReferenceAlike(w: string, path: bool, eval: EvalString)
    requires |w| >= 2 && w[0] == '$' && IsSimpleVarChar(w[1]) && Spaced(w, true)
    requires var n := SimpleVarLength(w[1..]); Alike(w[n + 1..], path, eval.AddSpecial(w[1..n + 1]))
    ensures Alike(w, path, eval)
  {
    hide ScanEvalString, Unwrap, Spaced, SimpleVarLength, SameValue;
    hide EvalString.AddSpecial, IsSimpleVarChar;
    var u := Unwrap(w);
    ReferenceUnwrap(w);
    ScanReference(w, path, eval);
    ScanReference(u, path, eval);
  }

  lemma BracesAlike(w: string, path: bool, eval: EvalString)
    requires |w| >= 2 && w[0] == '$' && w[1] == '{' && Spaced(w, true)
    requires var n := VarLength(w[2..]);
             n > 0 && At(w[n + 2..], "}") ==> |w| >= n + 3 && Alike(w[n + 3..], path, eval.AddSpecial(w[2..n + 2]))
    ensures Alike(w, path, eval)
  {
    EscapeUnwrap(w);
    hide ScanEvalString, Unwrap, Spaced, VarLength, At;
    var u := Unwrap(w);
    assert u[0] == u[..2][0] && u[1] == u[..2][1];
    BraceUnwrap(w);
    ScanBraces(w, path, eval);
    ScanBraces(u, path, eval);
  }

  lemma BadEscapeAlike(w: string, path: bool, eval: EvalString)
    requires |w| >= 2 && w[0] == '$' && !IsSimpleVarChar(w[1]) && Spaced(w, true)
    requires w[1] != '$' && w[1] != ' ' && w[1] != ':' && w[1] != '^' && w[1] != '{' && w[1] != '\n' && w[1] != '\r'
    ensures Alike(w, path, eval)
  {
    EscapeUnwrap(w);
    hide ScanEvalString, Unwrap, Spaced;
    var u := Unwrap(w);
    assert u[0] == u[..2][0] && u[1] == u[..2][1];
    ScanBadEscape(w, path, eval);
    ScanBadEscape(u, path, eval);
  }

  lemma {:induction false} ScanEscapeUnwrap(w: string, path: bool, eval: EvalString)
    requires |w| >= 2 && w[0] == '$' && w[1] != '\n' && Spaced(w, true)
    ensures Alike(w, path, eval)
    decreases |w|, 0
  {
    EscapeUnwrap(w);
    assert w[1] != '\r';
    hide Alike, Unwrap, Spaced, VarLength, SimpleVarLength;
    if w[1] == '$' || w[1] == ' ' || w[1] == ':' || w[1] == '^' {
      ScanUnwrap(w[2..], w[1] == ' ', path, eval.AddText(if w[1] == '^' then "\n" else [w[1]]));
      SimpleEscapeAlike(w, path, eval);
    } else if IsSimpleVarChar(w[1]) {
      ReferenceUnwrap(w);
      var n := SimpleVarLength(w[1..]);
      ScanUnwrap(w[n + 1..], false, path, eval.AddSpecial(w[1..n + 1]));
      ReferenceAlike(w, path, eval);
    } else if w[1] == '{' {
      BraceUnwrap(w);
      var n := VarLength(w[2..]);
      if n > 0 && At(w[n + 2..], "}") {
        ScanUnwrap(w[n + 3..], false, path, eval.AddSpecial(w[2..n + 2]));
      }
      BracesAlike(w, path, eval);
    } else {
      BadEscapeAlike(w, path, eval);
    }
  }

  lemma SliceOfRest(s: string, n: nat)
    requires n < |s|
    ensures s[1..][n..] == s[n + 1..] && s[1..][..n] == s[1..n + 1]
  {
  }

  lemma ReferenceUnwrap(w: string)
    requires |w| >= 2 && w[0] == '$' && IsSimpleVarChar(w[1]) && Spaced(w, true)
    ensures var u := Unwrap(w);
            |u| >= 2 && u[0] == '$' && u[1] == w[1] &&
            var n := SimpleVarLength(w[1..]);
            SimpleVarLength(u[1..]) == n && u[1..n + 1] == w[1..n + 1] &&
            u[n + 1..] == Unwrap(w[n + 1..]) && Spaced(w[n + 1..], false)
  {
    EscapeUnwrap(w);
    hide Unwrap, Spaced, SimpleVarLength;
    var u := Unwrap(w);
    assert u[0] == u[..2][0] && u[1] == u[..2][1];
    SimpleVarUnwrap(w[1..]);
    SliceOfRest(w, SimpleVarLength(w[1..]));
    SliceOfRest(Unwrap(w), SimpleVarLength(w[1..]));
  }

  lemma Slices(s: string, n: nat)
    requires n + 2 <= |s|
    ensures s[2..][n..] == s[n + 2..] && s[2..][..n] == s[2..n + 2]
  {
  }

  lemma Next(s: string, n: nat)
    requires n <= |s| && At(s[n..], "}")
    ensures n < |s| && s[n..][1..] == s[n + 1..]
  {
  }

  lemma BraceUnwrap(w: string)
    requires |w| >= 2 && w[0] == '$' && w[1] == '{' && Spaced(w, true)
    ensures var u := Unwrap(w);
            |u| >= 2 &&
            var n := VarLength(w[2..]);
            VarLength(u[2..]) == n && u[2..n + 2] == w[2..n + 2] &&
            (At(u[n + 2..], "}") <==> At(w[n + 2..], "}")) &&
            (At(w[n + 2..], "}") ==> u[n + 3..] == Unwrap(w[n + 3..]) && Spaced(w[n + 3..], false))
  {
    EscapeUnwrap(w);
    hide Unwrap, Spaced, VarLength, At;
    VarUnwrap(w[2..]);
    var u, n := Unwrap(w), VarLength(w[2..]);
    Slices(w, n);
    Slices(u, n);
    ClosingBraceUnwrap(w[n + 2..]);
    if At(w[n + 2..], "}") { Next(w, n + 2); Next(u, n + 2); }
  }

  lemma ClosingBraceUnwrap(v: string)
    requires Spaced(v, false)
    ensures At(Unwrap(v), "}") <==> At(v, "}")
    ensures At(v, "}") ==> Unwrap(v)[1..] == Unwrap(v[1..]) && Spaced(v[1..], false)
  {
    HeadUnwrap(v);
    if v != "" {
      assert v[..1] == [v[0]] && Unwrap(v)[..1] == [v[0]];
    }
  }

  /** Where a list of paths can end. */
  predicate Stop(s: string)
  {
    s != "" && (s[0] == ':' || s[0] == '|' || s[0] == '\n')
  }

  lemma ReadPathUnwrap(w: string)
    requires Spaced(w, false)
    ensures SameReading(ReadPath(w), ReadPath(Unwrap(w)))
    ensures ReadPath(w).Ok? ==> ReadPath(w).rest == "" || ReadPath(w).rest[0] != ' '
  {
    ScanUnwrap(w, false, true, EMPTY);
    var r := ScanEvalString(w, true, EMPTY);
    if r.Ok? { EatUnwrap(r.rest, false); }
  }

  /** What has been read stays there, and so do references. */
  ghost predicate Grows(r: Result<EvalString>, eval: EvalString)
  {
    r.Ok? ==> (!eval.Empty() ==> !r.value.Empty()) && (|eval.parsed| > 0 ==> |r.value.parsed| > 0)
  }

  lemma GrowsByText(r: Result<EvalString>, eval: EvalString, text: string)
    requires Grows(r, eval.AddText(text))
    ensures Grows(r, eval)
  {
  }

  lemma GrowsByReference(r: Result<EvalString>, eval: EvalString, name: string)
    requires Grows(r, eval.AddSpecial(name))
    ensures Grows(r, eval)
  {
  }

  lemma {:induction false} ScanKeeps(s: string, path: bool, eval: EvalString)
    ensures Grows(ScanEvalString(s, path, eval), eval)
    decreases |s|
  {
    if s == "" || s[0] == '\0' || s[0] == '\n' || s[0] == '\r' {
    } else if s[0] != '$' {
      ScanOrdinary(s, path, eval);
      hide ScanEvalString, EvalString.AddText;
      ScanKeeps(s[1..], path, eval.AddText(s[..1]));
      GrowsByText(ScanEvalString(s[1..], path, eval.AddText(s[..1])), eval, s[..1]);
    } else if |s| >= 2 {
      EscapeKeeps(s, path, eval);
    }
  }

  lemma {:induction false} EscapeKeeps(s: string, path: bool, eval: EvalString)
    requires |s| >= 2 && s[0] == '$'
    ensures Grows(ScanEvalString(s, path, eval), eval)
    decreases |s|, 1
  {
    hide EvalString.AddText, EvalString.AddSpecial, EvalString.Empty;
    if s[1] == '$' || s[1] == ' ' || s[1] == ':' || s[1] == '^' {
      hide ScanEvalString, Grows;
      var text := if s[1] == '^' then "\n" else [s[1]];
      ScanSimpleEscape(s, path, eval);
      ScanKeeps(s[2..], path, eval.AddText(text));
      GrowsByText(ScanEvalString(s, path, eval), eval, text);
    } else if s[1] == '\n' {
      hide ScanEvalString, Grows;
      ScanContinuation(s, path, eval);
      ScanKeeps(SkipSpaces(s[2..]), path, eval);
    } else if s[1] == '\r' {
      ReturnKeeps(s, path, eval);
    } else if IsSimpleVarChar(s[1]) {
      hide ScanEvalString, Grows, SimpleVarLength;
      ScanReference(s, path, eval);
      var n := SimpleVarLength(s[1..]);
      ScanKeeps(s[n + 1..], path, eval.AddSpecial(s[1..n + 1]));
      GrowsByReference(ScanEvalString(s, path, eval), eval, s[1..n + 1]);
    } else if s[1] == '{' {
      hide ScanEvalString, VarLength, At;
      ScanBraces(s, path, eval);
      var n := VarLength(s[2..]);
      if n > 0 && At(s[n + 2..], "}") {
        ScanKeeps(s[n + 3..], path, eval.AddSpecial(s[2..n + 2]));
        GrowsByReference(ScanEvalString(s, path, eval), eval, s[2..n + 2]);
      }
    } else {
      ScanBadEscape(s, path, eval);
    }
  }

  lemma {:induction false} ReturnKeeps(s: string, path: bool, eval: EvalString)
    requires |s| >= 2 && s[0] == '$' && s[1] == '\r'
    ensures Grows(ScanEvalString(s, path, eval), eval)
    decreases |s|, 0
  {
    hide ScanEvalString;
    if |s| >= 3 && s[2] == '\n' {
      ScanReturn(s, path, eval);
      ScanKeeps(SkipSpaces(s[3..]), path, eval);
    } else {
      ScanLoneDollarReturn(s, path, eval);
    }
  }

  lemma ScanReturn(s: string, path: bool, eval: EvalString)
    requires |s| >= 3 && s[0] == '$' && s[1] == '\r' && s[2] == '\n'
    ensures ScanEvalString(s, path, eval) == ScanEvalString(SkipSpaces(s[3..]), path, eval)
  {
    assert s[..3] == "$\r\n";
    assert s[..2][1] == '\r';
  }

  lemma ScanLoneDollarReturn(s: string, path: bool, eval: EvalString)
    requires |s| >= 2 && s[0] == '$' && s[1] == '\r' && (|s| >= 3 ==> s[2] != '\n')
    ensures ScanEvalString(s, path, eval) == Err(BadEscape)
  {
    assert s[..2][1] == '\r';
    assert |s| >= 3 ==> s[..3][2] == s[2];
    assert SimpleVarLength(s[1..]) == 0;
  }

  lemma EmptyPathStops(w: string)
    requires Spaced(w, false) && w != "" && w[0] != ' '
    requires ScanEvalString(w, true, EMPTY).Ok? && ScanEvalString(w, true, EMPTY).value.Empty()
    ensures Stop(w) && ScanEvalString(w, true, EMPTY).rest == w
  {
    if Stop(w) || w == "$" {
    } else if w[0] != '$' {
      assert w[0] != '\r';
      ScanOrdinary(w, true, EMPTY);
      hide ScanEvalString;
      ScanKeeps(w[1..], true, EMPTY.AddText(w[..1]));
    } else {
      assert w[1] != '\n' && w[1] != '\r';
      EscapedPathThere(w);
    }
  }

  /** A path that starts with an escape is not empty. */
  lemma EscapedPathThere(w: string)
    requires |w| >= 2 && w[0] == '$' && w[1] != '\n' && w[1] != '\r'
    ensures var r := ScanEvalString(w, true, EMPTY); r.Ok? ==> !r.value.Empty()
  {
    hide ScanEvalString;
    if w[1] == '$' || w[1] == ' ' || w[1] == ':' || w[1] == '^' {
      ScanSimpleEscape(w, true, EMPTY);
      ScanKeeps(w[2..], true, EMPTY.AddText(if w[1] == '^' then "\n" else [w[1]]));
    } else if IsSimpleVarChar(w[1]) {
      ScanReference(w, true, EMPTY);
      var n := SimpleVarLength(w[1..]);
      ScanKeeps(w[n + 1..], true, EMPTY.AddSpecial(w[1..n + 1]));
    } else if w[1] == '{' {
      ScanBraces(w, true, EMPTY);
      var n := VarLength(w[2..]);
      if n > 0 && At(w[n + 2..], "}") { ScanKeeps(w[n + 3..], true, EMPTY.AddSpecial(w[2..n + 2])); }
    } else {
      ScanBadEscape(w, true, EMPTY);
    }
  }

  lemma {:induction false} ReadPathsUnwrap(w: string)
    requires Spaced(w, false) && (w == "" || w[0] != ' ')
    ensures SameReading(ReadPaths(w), ReadPaths(Unwrap(w)))
    ensures ReadPaths(w).Ok? ==> Stop(ReadPaths(w).rest)
    decreases |w|
  {
    ReadPathUnwrap(w);
    hide ScanEvalString, Unwrap, Spaced;
    var p := ReadPath(w);
    if p.Ok? {
      if p.value.Empty() { EmptyPathStops(w); } else { ReadPathsUnwrap(p.rest); }
    }
  }

  lemma ScanAtOnce(s: string)
    requires s != "" && s[0] != ' ' && s[0] != '#' && s[0] != '\r'
    ensures ScanToken(s) == if s[0] == '\n' then Lexeme(NEWLINE, s, s[1..]) else ScanVisible(s)
  {
    assert SkipSpaces(s) == s;
    hide ScanVisible, SkipComment, SkipSpaces;
    assert s[..1] == [s[0]];
    assert |s| >= 2 ==> s[..2][0] == s[0];
    assert !At(s, "\r\n");
    assert At(s, "\n") <==> s[0] == '\n';
    hide At;
  }

  /** Where neither an indentation nor a comment starts, both readings see the same token. */
  lemma TokenUnwrap(w: string)
    requires Spaced(w, false) && (w == "" || (w[0] != ' ' && w[0] != '#'))
    ensures ReadToken(Unwrap(w)).token == ReadToken(w).token
    ensures ReadToken(w).start == w && ReadToken(Unwrap(w)).start == Unwrap(w)
    ensures ReadToken(w).token == NEWLINE ==> ReadToken(Unwrap(w)).rest == ReadToken(w).rest
    ensures var t := ReadToken(w);
            t.token != NEWLINE && t.token != EOF && t.token != ERROR ==>
              ReadToken(Unwrap(w)).rest == Unwrap(t.rest) && Spaced(t.rest, false) && (t.rest == "" || t.rest[0] != ' ')
  {
    HeadUnwrap(w);
    if w != "" {
      ScanAtOnce(w);
      ScanAtOnce(Unwrap(w));
      if w[0] == '$' {
        NoToken(w);
        NoToken(Unwrap(w));
      } else if w[0] != '\n' {
        VisibleUnwrap(w);
      }
    }
  }

  lemma NoToken(s: string)
    requires s != "" && s[0] == '$'
    ensures ScanVisible(s).token == ERROR
  {
    if |s| >= 2 { assert s[..2][0] == '$'; }
  }

  /** A comment ends with its physical line: what looks like a continuation in it is none. */
  lemma CommentsEndWithTheirLine()
    ensures var w := "# $\n=";
            Spaced(w, false) && ReadToken(w).token == EQUALS && ReadToken(Unwrap(w)).token == ERROR
  {
    CommentUnwrapped();
    CommentSkipped();
    hide Unwrap, Spaced, SkipComment, ScanVisible, At;
    BehindComment("# $\n=");
    EqualsToken();
    NotAComment("# =");
  }

  lemma CommentUnwrapped()
    ensures Spaced("# $\n=", false) && Unwrap("# $\n=") == "# ="
  {
    var joint := "$\n=";
    assert joint[2..] == "=" && "="[1..] == "" && Spaced("=", true) && Unwrap("=") == "=";
    assert SkipSpaces("=") == "=";
    assert Spaced(joint, true) && Unwrap(joint) == "=";
    assert " $\n="[1..] == joint && Spaced(" $\n=", false) && Unwrap(" $\n=") == " =";
    assert "# $\n="[1..] == " $\n=";
  }

  lemma CommentSkipped()
    ensures SkipComment("# $\n=") == Ok((), "=") && SkipComment("# =").Err?
  {
    assert "# $\n="[1..] == " $\n=" && " $\n="[1..] == "$\n=" && "$\n="[1..] == "\n=" && "\n="[1..] == "=";
    assert "# ="[1..] == " =" && " ="[1..] == "=" && "="[1..] == "";
    assert SkipComment("\n=") == Ok((), "=");
    assert SkipComment("$\n=") == Ok((), "=");
    assert SkipComment(" $\n=") == Ok((), "=");
    assert SkipComment("=").Err?;
    assert SkipComment(" =").Err?;
  }

  lemma BehindComment(s: string)
    requires s != "" && s[0] == '#' && SkipComment(s).Ok?
    ensures ScanToken(s) == ScanToken(SkipComment(s).rest)
  {
    assert SkipSpaces(s) == s;
  }

  lemma EqualsToken()
    ensures ScanToken("=").token == EQUALS
  {
    ScanAtOnce("=");
  }

  lemma NotAComment(s: string)
    requires s != "" && s[0] == '#' && SkipComment(s).Err?
    ensures ScanToken(s).token == ERROR
  {
    HashVisible(s);
    hide SkipComment, ScanVisible;
    assert SkipSpaces(s) == s;
    hide SkipSpaces;
    assert !At(s, "\n") by { assert s[..1][0] == '#'; }
    assert !At(s, "\r\n") by { if |s| >= 2 { assert s[..2][0] == '#'; } }
    hide At;
  }

  lemma HashVisible(s: string)
    requires s != "" && s[0] == '#'
    ensures ScanVisible(s).token == ERROR
  {
    hide VarLength, Keyword;
    if |s| >= 2 { assert s[..2][0] == '#'; }
  }

  lemma VisibleUnwrap(w: string)
    requires Spaced(w, false) && w != "" && w[0] != '$' && w[0] != '\n'
    ensures var t, u := ScanVisible(w), ScanVisible(Unwrap(w));
            t.token == u.token &&
            (t.token != EOF && t.token != ERROR ==>
               EatWhitespace(u.rest) == Unwrap(EatWhitespace(t.rest)) && Spaced(EatWhitespace(t.rest), false) &&
               (EatWhitespace(t.rest) == "" || EatWhitespace(t.rest)[0] != ' '))
  {
    HeadUnwrap(w);
    PlainUnwrap(w, false);
    hide Unwrap, Spaced, EatWhitespace, Keyword;
    if IsVarChar(w[0]) {
      hide VarLength;
      VarUnwrap(w);
      EatUnwrap(w[VarLength(w)..], false);
    } else if w[0] == '=' || w[0] == ':' || w[0] == '|' {
      EatUnwrap(w[1..], false);
      hide At;
      PipeUnwrap(w);
    } else {
      assert |w| >= 2 ==> w[..2][0] == w[0];
      assert |Unwrap(w)| >= 2 ==> Unwrap(w)[..2][0] == w[0];
    }
  }

  lemma PipeUnwrap(w: string)
    requires Spaced(w, false) && w != "" && (w[0] == '=' || w[0] == ':' || w[0] == '|')
    ensures At(w, "|@") <==> At(Unwrap(w), "|@")
    ensures At(w, "||") <==> At(Unwrap(w), "||")
    ensures At(w, "|@") || At(w, "||") ==>
              Unwrap(w)[2..] == Unwrap(w[2..]) && EatWhitespace(Unwrap(w[2..])) == Unwrap(EatWhitespace(w[2..])) &&
              Spaced(EatWhitespace(w[2..]), false) && (EatWhitespace(w[2..]) == "" || EatWhitespace(w[2..])[0] != ' ')
  {
    PlainUnwrap(w, false);
    var v, u := w[1..], Unwrap(w);
    HeadUnwrap(v);
    assert |w| >= 2 ==> w[..2] == [w[0], v[0]];
    assert |u| >= 2 ==> u[..2] == [w[0], Unwrap(v)[0]];
    if v != "" && (v[0] == '@' || v[0] == '|') {
      assert v[1..] == w[2..] && u[1..][1..] == u[2..];
      PlainUnwrap(v, false);
      hide Unwrap, Spaced;
      EatUnwrap(w[2..], false);
    }
  }

  lemma MarkedPathsUnwrap(w: string, marker: Token)
    requires Spaced(w, false) && Stop(w)
    requires marker == PIPE || marker == PIPE2 || marker == PIPEAT
    ensures SameReading(ReadMarkedPaths(w, marker), ReadMarkedPaths(Unwrap(w), marker))
    ensures ReadMarkedPaths(w, marker).Ok? ==> Stop(ReadMarkedPaths(w, marker).rest)
  {
    TokenUnwrap(w);
    if ReadToken(w).token == marker { ReadPathsUnwrap(ReadToken(w).rest); }
  }

  lemma OutputsUnwrap(w: string)
    requires Spaced(w, false) && (w == "" || w[0] != ' ')
    ensures SameReading(ParseOutputs(w), ParseOutputs(Unwrap(w)))
    ensures ParseOutputs(w).Ok? ==> Stop(ParseOutputs(w).rest)
  {
    ReadPathsUnwrap(w);
    var outs := ReadPaths(w);
    if outs.Ok? { MarkedPathsUnwrap(outs.rest, PIPE); }
  }

  lemma InputsUnwrap(w: string)
    requires Spaced(w, false) && (w == "" || w[0] != ' ')
    ensures SameReading(ParseInputs(w), ParseInputs(Unwrap(w)))
    ensures ParseInputs(w).Ok? ==> Stop(ParseInputs(w).rest)
  {
    ReadPathsUnwrap(w);
    var ins := ReadPaths(w);
    if ins.Ok? {
      MarkedPathsUnwrap(ins.rest, PIPE);
      var implicitIns := ReadMarkedPaths(ins.rest, PIPE);
      if implicitIns.Ok? {
        MarkedPathsUnwrap(implicitIns.rest, PIPE2);
        var orderOnly := ReadMarkedPaths(implicitIns.rest, PIPE2);
        if orderOnly.Ok? { MarkedPathsUnwrap(orderOnly.rest, PIPEAT); }
      }
    }
  }

  lemma IdentUnwrap(w: string)
    requires Spaced(w, false)
    ensures SameReading(ReadIdent(w), ReadIdent(Unwrap(w)))
    ensures ReadIdent(w).Ok? ==> ReadIdent(w).rest == "" || ReadIdent(w).rest[0] != ' '
  {
    VarUnwrap(w);
    EatUnwrap(w[VarLength(w)..], false);
  }

  lemma RuleNameUnwrap(w: string, rules: set<string>)
    requires Spaced(w, false) && Stop(w)
    ensures SameReading(ParseRuleName(w, rules), ParseRuleName(Unwrap(w), rules))
    ensures var r := ParseRuleName(w, rules); r.Ok? ==> r.rest == "" || r.rest[0] != ' '
  {
    TokenUnwrap(w);
    var colon := ExpectToken(w, COLON);
    if colon.Ok? { IdentUnwrap(colon.rest); }
  }

  /** A wrapped build line parses exactly like the line it stands for. */
  lemma BuildLineUnwrap(w: string, rules: set<string>)
    requires Spaced(w, false) && (w == "" || w[0] != ' ')
    ensures ParseBuildLine(w, rules) == ParseBuildLine(Unwrap(w), rules)
  {
    OutputsUnwrap(w);
    var outs := ParseOutputs(w);
    if outs.Ok? {
      RuleNameUnwrap(outs.rest, rules);
      var rule := ParseRuleName(outs.rest, rules);
      if rule.Ok? {
        InputsUnwrap(rule.rest);
        var ins := ParseInputs(rule.rest);
        if ins.Ok? { TokenUnwrap(ins.rest); }
      }
    }
  }

  lemma EdgeUnwrap(w: string, rules: set<string>)
    requires Spaced(w, false) && (w == "" || w[0] != ' ')
    ensures ParseEdge(w, rules) == ParseEdge(Unwrap(w), rules)
  {
    hide ParseBuildLine, ParseBindings, Unwrap, Spaced;
    BuildLineUnwrap(w, rules);
  }

  /** So does a whole statement: its continued first line may be joined beforehand. */
  lemma BuildUnwrap(w: string, rules: set<string>)
    requires Spaced(w, false) && At(w, "build")
    ensures ParseBuild(w, rules) == ParseBuild(Unwrap(w), rules)
  {
    assert w[0] == w[..5][0] == 'b';
    hide ReadToken, ParseEdge, Unwrap, Spaced, At;
    TokenUnwrap(w);
    var start := ExpectToken(w, BUILD);
    if start.Ok? { EdgeUnwrap(start.rest, rules); }
  }

  /** A wrapped rule line, too, unless a continued comment follows the name. */
  lemma RuleLineUnwrap(w: string)
    requires Spaced(w, false)
    requires ReadIdent(w).Ok? && At(ReadIdent(w).rest, "#") ==> Unwrap(ReadIdent(w).rest) == ReadIdent(w).rest
    ensures ParseRuleLine(w) == ParseRuleLine(Unwrap(w))
  {
    IdentUnwrap(w);
    var name := ReadIdent(w);
    if name.Ok? && !At(name.rest, "#") {
      NoComment(name.rest);
      hide ReadIdent, ReadToken, Unwrap, Spaced, At;
      TokenUnwrap(name.rest);
    }
  }

  lemma NoComment(s: string)
    requires !At(s, "#")
    ensures s == "" || s[0] != '#'
  {
    if s != "" { assert s[..1] == [s[0]]; }
  }

  /** And a wrapped binding parses exactly like the line it stands for, unless a continued comment follows the name. */
  lemma LetUnwrap(w: string)
    requires Spaced(w, false)
    requires ReadIdent(w).Ok? && At(ReadIdent(w).rest, "#") ==> Unwrap(ReadIdent(w).rest) == ReadIdent(w).rest
    ensures ParseLet(w) == ParseLet(Unwrap(w))
  {
    IdentUnwrap(w);
    var key := ReadIdent(w);
    if key.Ok? && !At(key.rest, "#") {
      NoComment(key.rest);
      hide ReadIdent, ReadToken, Unwrap, Spaced, At, ScanEvalString;
      TokenUnwrap(key.rest);
      var eq := ExpectToken(key.rest, EQUALS);
      if eq.Ok? { ScanUnwrap(eq.rest, false, false, EMPTY); }
    }
  }
}
