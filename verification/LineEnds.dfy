/** Lines that end with a carriage return and a newline are read like lines that end with a newline. */
module LineEnds {
  import opened LogicalLines
  import opened EvalEnv
  import opened Lexer
  import opened ManifestParser
  import opened Continuations

  /** Carriage returns stand only in front of newlines. */
  predicate Tidy(u: string)
  {
    forall i :: 0 <= i < |u| && u[i] == '\r' ==> i + 1 < |u| && u[i + 1] == '\n'
  }

  /** The text without them. */
  function Newlines(u: string): string
  {
    if u == "" then ""
    else if At(u, "\r\n") then Newlines(u[1..])
    else [u[0]] + Newlines(u[1..])
  }

  /** Equal outcomes, at corresponding places. */
  ghost predicate Like<T>(r: Result<T>, plain: Result<T>)
  {
    if r.Err? then plain == r
    else plain.Ok? && plain.value == r.value && plain.rest == Newlines(r.rest) && Tidy(r.rest)
  }

  lemma TidyRest(u: string, n: nat)
    requires Tidy(u) && n <= |u|
    ensures Tidy(u[n..])
  {
    var v := u[n..];
    forall i | 0 <= i < |v| && v[i] == '\r' ensures i + 1 < |v| && v[i + 1] == '\n' { assert u[i + n] == '\r'; }
  }

  lemma EndOfLine(u: string)
    requires Tidy(u) && u != "" && u[0] == '\r'
    ensures At(u, "\r\n") && |u| >= 2 && u[1] == '\n'
    ensures Newlines(u) == "\n" + Newlines(u[2..]) && Newlines(u)[1..] == Newlines(u[2..])
  {
    assert u[..2] == "\r\n";
    var v := u[1..];
    assert v[0] == '\n' && v[1..] == u[2..];
    assert !At(v, "\r\n") by { if |v| >= 2 { assert v[..2][0] == '\n'; } }
  }

  lemma OtherChar(u: string)
    requires u != "" && u[0] != '\r'
    ensures Newlines(u) == [u[0]] + Newlines(u[1..]) && Newlines(u)[0] == u[0] && Newlines(u)[1..] == Newlines(u[1..])
  {
    assert !At(u, "\r\n") by { if |u| >= 2 { assert u[..2][0] == u[0]; } }
  }

  /** What comes first. */
  lemma FirstAlike(u: string)
    requires Tidy(u)
    ensures u == "" <==> Newlines(u) == ""
    ensures u != "" ==> Newlines(u)[0] == (if u[0] == '\r' then '\n' else u[0])
  {
    if u != "" { if u[0] == '\r' { EndOfLine(u); } else { OtherChar(u); } }
  }

  /** Two characters, the first of which ends no line. */
  lemma SecondAlike(u: string, a: char, b: char)
    requires Tidy(u) && u != "" && u[0] != '\r' && a != '\r' && b != '\r' && b != '\n'
    ensures At(Newlines(u), [a, b]) <==> At(u, [a, b])
    ensures At(u, [a, b]) ==> Newlines(u)[2..] == Newlines(u[2..])
  {
    hide Newlines;
    var v, w := u[1..], Newlines(u);
    TidyRest(u, 1);
    OtherChar(u);
    FirstAlike(v);
    if |u| >= 2 {
      assert u[..2] == [u[0], u[1]] && v[0] == u[1];
      assert w[1] == w[1..][0] && w[..2] == [w[0], w[1]];
      if u[1] != '\r' {
        OtherChar(v);
        assert w[2..] == w[1..][1..] && u[2..] == v[1..];
      }
    }
  }

  lemma OneAlike(u: string, a: char)
    requires Tidy(u) && a != '\r' && a != '\n'
    ensures At(Newlines(u), [a]) <==> At(u, [a])
  {
    hide Newlines;
    FirstAlike(u);
    if u != "" { assert u[..1] == [u[0]] && Newlines(u)[..1] == [Newlines(u)[0]]; }
  }

  lemma {:induction false} SpacesSkipped(u: string)
    requires Tidy(u)
    ensures SkipSpaces(Newlines(u)) == Newlines(SkipSpaces(u)) && Tidy(SkipSpaces(u))
    ensures |SkipSpaces(u)| < |u| <==> u != "" && u[0] == ' '
  {
    hide Newlines;
    FirstAlike(u);
    if u != "" && u[0] == ' ' {
      OtherChar(u);
      TidyRest(u, 1);
      SpacesSkipped(u[1..]);
    }
  }

  lemma {:induction false} NothingLeftOver(u: string)
    requires Tidy(u)
    ensures Tidy(Newlines(u)) && '\r' !in Newlines(u)
    decreases |u|
  {
    if u != "" {
      hide Newlines;
      if u[0] == '\r' {
        EndOfLine(u);
        TidyRest(u, 2);
        NothingLeftOver(u[2..]);
      } else {
        OtherChar(u);
        TidyRest(u, 1);
        NothingLeftOver(u[1..]);
      }
    }
  }

  lemma ContinuationDropped(u: string)
    requires Tidy(u) && |u| >= 2 && u[0] == '$' && (u[1] == '\n' || u[1] == '\r')
    ensures var w, k := Newlines(u), if u[1] == '\n' then 2 else 3;
            k <= |u| && (k == 3 ==> u[2] == '\n') && |w| >= 2 && w[0] == '$' && w[1] == '\n' && w[2..] == Newlines(u[k..]) && Tidy(u[k..])
  {
    hide Newlines;
    var v, w := u[1..], Newlines(u);
    OtherChar(u);
    TidyRest(u, 1);
    FirstAlike(v);
    assert v[0] == u[1] && w[1] == w[1..][0] && w[2..] == w[1..][1..];
    if u[1] == '\r' {
      EndOfLine(v);
      TidyRest(u, 3);
      assert v[2..] == u[3..] && v[1] == u[2];
    } else {
      OtherChar(v);
      TidyRest(u, 2);
      assert v[1..] == u[2..];
    }
  }

  /** A continuation, in either form. */
  lemma ContinuedAlike(u: string)
    requires Tidy(u) && u != ""
    ensures At(Newlines(u), "$\n") <==> At(u, "$\n") || At(u, "$\r\n")
    ensures !At(Newlines(u), "$\r\n")
    ensures At(u, "$\n") ==> Newlines(u)[2..] == Newlines(u[2..]) && Tidy(u[2..]) && !At(u, "$\r\n")
    ensures At(u, "$\r\n") ==> |u| >= 3 && Newlines(u)[2..] == Newlines(u[3..]) && Tidy(u[3..]) && !At(u, "$\n")
  {
    hide Newlines;
    FirstAlike(u);
    Starts(u);
    Starts(Newlines(u));
    NothingLeftOver(u);
    if u[0] == '$' && |u| >= 2 && (u[1] == '\n' || u[1] == '\r') {
      ContinuationDropped(u);
    } else if u[0] == '$' {
      OtherChar(u);
      TidyRest(u, 1);
      FirstAlike(u[1..]);
      if |u| >= 2 { assert Newlines(u)[1] == Newlines(u)[1..][0] && u[1..][0] == u[1]; }
    }
  }

  lemma Starts(u: string)
    requires u != ""
    ensures At(u, "$\n") <==> |u| >= 2 && u[0] == '$' && u[1] == '\n'
    ensures At(u, "$\r\n") <==> |u| >= 3 && u[0] == '$' && u[1] == '\r' && u[2] == '\n'
  {
    if |u| >= 2 { assert u[..2] == [u[0], u[1]]; }
    if |u| >= 3 { assert u[..3] == [u[0], u[1], u[2]]; }
  }

  lemma {:induction false} WhitespaceEaten(u: string)
    requires Tidy(u)
    ensures EatWhitespace(Newlines(u)) == Newlines(EatWhitespace(u)) && Tidy(EatWhitespace(u))
    decreases |u|
  {
    hide Newlines, At;
    FirstAlike(u);
    if u != "" {
      ContinuedAlike(u);
      if u[0] == ' ' {
        OtherChar(u);
        TidyRest(u, 1);
        WhitespaceEaten(u[1..]);
      } else if At(u, "$\n") {
        TwoThere(u, "$\n");
        WhitespaceEaten(u[2..]);
      } else if At(u, "$\r\n") {
        WhitespaceEaten(u[3..]);
      }
    }
  }

  lemma TwoThere(u: string, p: string)
    requires At(u, p)
    ensures |u| >= |p|
  {
  }

  lemma {:induction false} CommentSkippedAlike(u: string)
    requires Tidy(u)
    ensures Like(SkipComment(u), SkipComment(Newlines(u)))
    decreases |u|
  {
    hide Newlines;
    FirstAlike(u);
    if u != "" {
      if u[0] == '\r' {
        EndOfLine(u);
        TidyRest(u, 2);
        assert u[1..][0] == '\n' && u[1..][1..] == u[2..];
      } else {
        OtherChar(u);
        TidyRest(u, 1);
        if u[0] != '\n' && u[0] != '\0' { CommentSkippedAlike(u[1..]); }
      }
    }
  }

  lemma {:induction false} NamesAlike(u: string)
    requires Tidy(u)
    ensures var n := VarLength(u);
            VarLength(Newlines(u)) == n && Newlines(u)[..n] == u[..n] && Newlines(u)[n..] == Newlines(u[n..]) && Tidy(u[n..])
    decreases |u|
  {
    hide Newlines;
    FirstAlike(u);
    if u != "" && IsVarChar(u[0]) {
      var v, w, n := u[1..], Newlines(u), VarLength(u[1..]);
      OtherChar(u);
      TidyRest(u, 1);
      TidyRest(u, n + 1);
      NamesAlike(v);
      hide VarLength;
      assert w[..n + 1] == [w[0]] + w[1..][..n] && u[..n + 1] == [u[0]] + v[..n];
      assert w[n + 1..] == w[1..][n..] && u[n + 1..] == v[n..];
    } else {
      TidyRest(u, 0);
      assert u[0..] == u && Newlines(u)[0..] == Newlines(u);
    }
  }

  lemma {:induction false} ShortNamesAlike(u: string)
    requires Tidy(u)
    ensures var n := SimpleVarLength(u);
            SimpleVarLength(Newlines(u)) == n && Newlines(u)[..n] == u[..n] && Newlines(u)[n..] == Newlines(u[n..]) && Tidy(u[n..])
    decreases |u|
  {
    hide Newlines;
    FirstAlike(u);
    if u != "" && IsSimpleVarChar(u[0]) {
      var v, w, n := u[1..], Newlines(u), SimpleVarLength(u[1..]);
      OtherChar(u);
      TidyRest(u, 1);
      TidyRest(u, n + 1);
      ShortNamesAlike(v);
      hide SimpleVarLength;
      assert w[..n + 1] == [w[0]] + w[1..][..n] && u[..n + 1] == [u[0]] + v[..n];
      assert w[n + 1..] == w[1..][n..] && u[n + 1..] == v[n..];
    } else {
      TidyRest(u, 0);
      assert u[0..] == u && Newlines(u)[0..] == Newlines(u);
    }
  }

  /** The same token, at corresponding places. */
  ghost predicate LikeToken(t: Lexeme, plain: Lexeme)
  {
    && t.token == plain.token && plain.start == Newlines(t.start) && plain.rest == Newlines(t.rest)
    && Tidy(t.start) && Tidy(t.rest)
  }

  lemma VisibleAlike(u: string)
    requires Tidy(u) && (u == "" || (u[0] != ' ' && u[0] != '\r' && u[0] != '\n'))
    ensures LikeToken(ScanVisible(u), ScanVisible(Newlines(u)))
  {
    hide Newlines, At, VarLength;
    FirstAlike(u);
    if u != "" {
      OtherChar(u);
      TidyRest(u, 1);
      if IsVarChar(u[0]) {
        NamesAlike(u);
      } else if u[0] == '|' {
        SecondAlike(u, '|', '@');
        SecondAlike(u, '|', '|');
        if At(u, "|@") { TwoThere(u, "|@"); TidyRest(u, 2); }
        if At(u, "||") { TwoThere(u, "||"); TidyRest(u, 2); }
        assert ['|', '@'] == "|@" && ['|', '|'] == "||";
      } else {
        NoPipes(u);
        NoPipes(Newlines(u));
      }
    }
  }

  lemma NoPipes(u: string)
    requires u != "" && u[0] != '|'
    ensures !At(u, "|@") && !At(u, "||")
  {
    if |u| >= 2 { assert u[..2][0] == u[0]; }
  }

  /** The two ways in which a line can end. */
  lemma LineEnded(r: string)
    requires Tidy(r)
    ensures At(Newlines(r), "\n") <==> At(r, "\n") || At(r, "\r\n")
    ensures !At(Newlines(r), "\r\n")
    ensures At(r, "\n") ==> |r| >= 1 && Newlines(r)[1..] == Newlines(r[1..]) && Tidy(r[1..])
    ensures At(r, "\r\n") ==> |r| >= 2 && Newlines(r)[1..] == Newlines(r[2..]) && Tidy(r[2..]) && !At(r, "\n")
    ensures !At(r, "\n") && !At(r, "\r\n") ==> r == "" || (r[0] != '\n' && r[0] != '\r')
  {
    hide Newlines;
    FirstAlike(r);
    NothingLeftOver(r);
    if r != "" {
      Ended(r);
      Ended(Newlines(r));
      if r[0] == '\r' {
        EndOfLine(r);
        TidyRest(r, 2);
      } else {
        OtherChar(r);
        TidyRest(r, 1);
      }
    }
  }

  lemma Ended(u: string)
    requires u != ""
    ensures At(u, "\n") <==> u[0] == '\n'
    ensures At(u, "\r\n") <==> |u| >= 2 && u[0] == '\r' && u[1] == '\n'
  {
    assert u[..1] == [u[0]];
    if |u| >= 2 { assert u[..2] == [u[0], u[1]]; }
  }

  lemma {:induction false} TokensAlike(u: string)
    requires Tidy(u)
    ensures LikeToken(ScanToken(u), ScanToken(Newlines(u)))
    decreases |u|
  {
    hide Newlines, At, SkipComment, ScanVisible;
    var r := SkipSpaces(u);
    SpacesSkipped(u);
    FirstAlike(u);
    FirstAlike(r);
    CommentSkippedAlike(r);
    LineEnded(r);
    if r != "" && r[0] == '#' && SkipComment(r).Ok? {
      hide SkipSpaces;
      TokensAlike(SkipComment(r).rest);
    } else if !At(r, "\n") && !At(r, "\r\n") {
      SpacesSkipped(Newlines(u)) by { NothingLeftOver(u); }
      if |r| == |u| {
        Unspaced(u);
        VisibleAlike(u);
      }
    }
  }

  lemma Unspaced(u: string)
    requires |SkipSpaces(u)| == |u|
    ensures SkipSpaces(u) == u && (u == "" || u[0] != ' ')
  {
  }

  lemma TokenReadAlike(u: string)
    requires Tidy(u)
    ensures LikeToken(ReadToken(u), ReadToken(Newlines(u)))
  {
    hide Newlines, ScanToken, EatWhitespace, Tidy;
    TokensAlike(u);
    WhitespaceEaten(ScanToken(u).rest);
  }

  lemma PeekedAlike(u: string, token: Token)
    requires Tidy(u)
    ensures var (there, rest) := PeekToken(u, token);
            PeekToken(Newlines(u), token) == (there, Newlines(rest)) && Tidy(rest)
  {
    hide Newlines, ReadToken, Tidy;
    TokenReadAlike(u);
  }

  lemma IdentsAlike(u: string)
    requires Tidy(u)
    ensures Like(ReadIdent(u), ReadIdent(Newlines(u)))
  {
    hide Newlines, VarLength, EatWhitespace, Tidy;
    NamesAlike(u);
    WhitespaceEaten(u[VarLength(u)..]);
  }

  /** Values and paths. */
  lemma {:induction false} ScannedAlike(u: string, path: bool, eval: EvalString)
    requires Tidy(u)
    ensures Like(ScanEvalString(u, path, eval), ScanEvalString(Newlines(u), path, eval))
    decreases |u|, 2
  {
    FirstAlike(u);
    if u == "" {
      assert Newlines(u) == "";
    } else if u[0] == '$' {
      EscapesAlike(u, path, eval);
    } else if u[0] == '\r' {
      hide Newlines;
      EndOfLine(u);
      TidyRest(u, 2);
    } else {
      hide Newlines;
      OtherChar(u);
      TidyRest(u, 1);
      assert u[..1] == [u[0]] && Newlines(u)[..1] == [u[0]];
      if u[0] == '\0' || u[0] == '\n' || (path && (u[0] == ' ' || u[0] == ':' || u[0] == '|')) {
      } else {
        hide At;
        ScannedAlike(u[1..], path, eval.AddText([u[0]]));
      }
    }
  }

  lemma {:induction false} EscapesAlike(u: string, path: bool, eval: EvalString)
    requires Tidy(u) && u != "" && u[0] == '$'
    ensures Like(ScanEvalString(u, path, eval), ScanEvalString(Newlines(u), path, eval))
    decreases |u|, 1
  {
    hide Newlines, VarLength, SimpleVarLength, Like;
    var w := Newlines(u);
    OtherChar(u);
    TidyRest(u, 1);
    FirstAlike(u[1..]);
    if |u| == 1 {
      LoneDollar(u, path, eval);
      LoneDollar(w, path, eval);
      AlikeErrors(ScanEvalString(u, path, eval), ScanEvalString(w, path, eval));
    } else {
      assert u[1..][0] == u[1] && w[1..][0] == w[1];
      if u[1] == '\n' || u[1] == '\r' {
        ContinuationAlike(u, path, eval);
      } else {
        assert w[1] == u[1];
        if u[1] == '$' || u[1] == ' ' || u[1] == ':' || u[1] == '^' {
          TwoDropped(u);
          ScannedAlike(u[2..], path, eval.AddText(if u[1] == '^' then "\n" else [u[1]]));
          hide ScanEvalString;
          ScanSimpleEscape(u, path, eval);
          ScanSimpleEscape(w, path, eval);
        } else if IsSimpleVarChar(u[1]) {
          ReferencesAlike(u, path, eval);
        } else if u[1] == '{' {
          BracedAlike(u, path, eval);
        } else {
          hide ScanEvalString;
          ScanBadEscape(u, path, eval);
          ScanBadEscape(w, path, eval);
          AlikeErrors(ScanEvalString(u, path, eval), ScanEvalString(w, path, eval));
        }
      }
    }
  }

  lemma AlikeErrors<T>(r: Result<T>, plain: Result<T>)
    requires r == plain && r.Err?
    ensures Like(r, plain)
  {
  }

  lemma LoneDollar(u: string, path: bool, eval: EvalString)
    requires |u| == 1 && u[0] == '$'
    ensures ScanEvalString(u, path, eval) == Err(BadEscape)
  {
  }

  lemma TwoDropped(u: string)
    requires Tidy(u) && |u| >= 2 && u[0] != '\r' && u[1] != '\r'
    ensures |Newlines(u)| >= 2 && Newlines(u)[2..] == Newlines(u[2..]) && Tidy(u[2..])
  {
    hide Newlines;
    OtherChar(u);
    TidyRest(u, 1);
    OtherChar(u[1..]);
    TidyRest(u, 2);
    assert u[1..][1..] == u[2..] && Newlines(u)[2..] == Newlines(u)[1..][1..];
  }

  lemma Continued(u: string, path: bool, eval: EvalString)
    requires |u| >= 2 && u[0] == '$'
    ensures u[1] == '\n' ==> ScanEvalString(u, path, eval) == ScanEvalString(SkipSpaces(u[2..]), path, eval)
    ensures u[1] == '\r' && |u| >= 3 && u[2] == '\n' ==>
              ScanEvalString(u, path, eval) == ScanEvalString(SkipSpaces(u[3..]), path, eval)
  {
    hide SkipSpaces, VarLength, SimpleVarLength;
    assert u[..2] == [u[0], u[1]];
    if |u| >= 3 { assert u[..3] == [u[0], u[1], u[2]]; }
  }

  lemma {:induction false} ContinuationAlike(u: string, path: bool, eval: EvalString)
    requires Tidy(u) && |u| >= 2 && u[0] == '$' && (u[1] == '\n' || u[1] == '\r')
    ensures Like(ScanEvalString(u, path, eval), ScanEvalString(Newlines(u), path, eval))
    decreases |u|, 0
  {
    hide Newlines, ScanEvalString, Like, At;
    var w, k := Newlines(u), if u[1] == '\n' then 2 else 3;
    ContinuationDropped(u);
    SpacesSkipped(u[k..]);
    ScannedAlike(SkipSpaces(u[k..]), path, eval);
    Continued(u, path, eval);
    Continued(w, path, eval);
  }

  lemma {:induction false} ReferencesAlike(u: string, path: bool, eval: EvalString)
    requires Tidy(u) && |u| >= 2 && u[0] == '$' && IsSimpleVarChar(u[1])
    ensures Like(ScanEvalString(u, path, eval), ScanEvalString(Newlines(u), path, eval))
    decreases |u|, 0
  {
    hide Newlines, ScanEvalString, Like, SimpleVarLength, Tidy, IsSimpleVarChar, EvalString.AddSpecial;
    var v, w, n := u[1..], Newlines(u), SimpleVarLength(u[1..]);
    NotAReturn(u[1]);
    OtherChar(u);
    TidyRest(u, 1);
    ShortNamesAlike(v);
    OtherChar(v);
    assert w[1] == w[1..][0] == u[1];
    ScanReference(u, path, eval);
    ScanReference(w, path, eval);
    BehindFirst(u, n);
    BehindFirst(w, n);
    ScannedAlike(u[n + 1..], path, eval.AddSpecial(u[1..n + 1]));
  }

  lemma BehindFirst(u: string, n: nat)
    requires n < |u|
    ensures u[n + 1..] == u[1..][n..] && u[1..n + 1] == u[1..][..n]
  {
  }

  lemma NotAReturn(c: char)
    requires IsSimpleVarChar(c)
    ensures c != '\r' && c != '\n'
  {
  }

  lemma {:induction false} BracedAlike(u: string, path: bool, eval: EvalString)
    requires Tidy(u) && |u| >= 2 && u[0] == '$' && u[1] == '{'
    ensures Like(ScanEvalString(u, path, eval), ScanEvalString(Newlines(u), path, eval))
    decreases |u|, 0
  {
    hide Newlines, ScanEvalString, Like, VarLength, At, Tidy;
    var v, w, n := u[2..], Newlines(u), VarLength(u[2..]);
    TwoDropped(u);
    BraceFirst(u);
    NamesAlike(v);
    ScanBraces(u, path, eval);
    ScanBraces(w, path, eval);
    var rest := u[n + 2..];
    assert w[n + 2..] == w[2..][n..] && rest == v[n..] && w[2..n + 2] == w[2..][..n] && u[2..n + 2] == v[..n];
    OneAlike(rest, '}');
    assert ['}'] == "}";
    if n > 0 && At(rest, "}") {
      TwoThere(rest, "}");
      BraceThere(rest);
      OtherChar(rest);
      TidyRest(rest, 1);
      assert u[n + 3..] == rest[1..] && w[n + 3..] == w[n + 2..][1..];
      ScannedAlike(u[n + 3..], path, eval.AddSpecial(u[2..n + 2]));
    } else {
      AlikeErrors(ScanEvalString(u, path, eval), ScanEvalString(w, path, eval));
    }
  }

  lemma BraceFirst(u: string)
    requires Tidy(u) && |u| >= 2 && u[0] == '$' && u[1] == '{'
    ensures var w := Newlines(u); |w| >= 2 && w[0] == '$' && w[1] == '{'
  {
    hide Newlines;
    OtherChar(u);
    TidyRest(u, 1);
    OtherChar(u[1..]);
    assert Newlines(u)[1] == Newlines(u)[1..][0];
  }

  lemma BraceThere(u: string)
    requires At(u, "}")
    ensures u != "" && u[0] == '}'
  {
    assert u[0] == u[..1][0];
  }

  lemma PathsAlike(u: string)
    requires Tidy(u)
    ensures Like(ReadPath(u), ReadPath(Newlines(u)))
  {
    hide Newlines, ScanEvalString, EatWhitespace, Tidy;
    ScannedAlike(u, true, EMPTY);
    var r := ScanEvalString(u, true, EMPTY);
    if r.Ok? { WhitespaceEaten(r.rest); }
  }

  lemma {:induction false} PathListsAlike(u: string)
    requires Tidy(u)
    ensures Like(ReadPaths(u), ReadPaths(Newlines(u)))
    decreases |u|
  {
    hide Newlines, ReadPath, Tidy;
    PathsAlike(u);
    var p := ReadPath(u);
    if p.Ok? && !p.value.Empty() { PathListsAlike(p.rest); }
  }

  lemma MarkedAlike(u: string, marker: Token)
    requires Tidy(u)
    ensures Like(ReadMarkedPaths(u, marker), ReadMarkedPaths(Newlines(u), marker))
  {
    hide Newlines, ReadPaths, PeekToken, Tidy;
    PeekedAlike(u, marker);
    if PeekToken(u, marker).0 { PathListsAlike(PeekToken(u, marker).1); }
  }

  lemma ExpectedAlike(u: string, token: Token)
    requires Tidy(u)
    ensures Like(ExpectToken(u, token), ExpectToken(Newlines(u), token))
  {
    hide Newlines, ReadToken, Tidy;
    TokenReadAlike(u);
  }

  lemma LetsAlike(u: string)
    requires Tidy(u)
    ensures Like(ParseLet(u), ParseLet(Newlines(u)))
  {
    hide Newlines, ReadIdent, ExpectToken, ScanEvalString, Tidy;
    IdentsAlike(u);
    var key := ReadIdent(u);
    if key.Ok? {
      ExpectedAlike(key.rest, EQUALS);
      var eq := ExpectToken(key.rest, EQUALS);
      if eq.Ok? { ScannedAlike(eq.rest, false, EMPTY); }
    }
  }

  lemma {:induction false} BindingsAlike(u: string)
    requires Tidy(u)
    ensures Like(ParseBindings(u), ParseBindings(Newlines(u)))
    decreases |u|
  {
    hide Newlines, PeekToken, ParseLet, Tidy;
    PeekedAlike(u, INDENT);
    var (indented, rest) := PeekToken(u, INDENT);
    if indented {
      LetsAlike(rest);
      var binding := ParseLet(rest);
      if binding.Ok? { BindingsAlike(binding.rest); }
    }
  }

  lemma OutputsAlike(u: string)
    requires Tidy(u)
    ensures Like(ParseOutputs(u), ParseOutputs(Newlines(u)))
  {
    hide Newlines, ReadPaths, ReadMarkedPaths, Tidy;
    PathListsAlike(u);
    if ReadPaths(u).Ok? { MarkedAlike(ReadPaths(u).rest, PIPE); }
  }

  lemma InputsAlike(u: string)
    requires Tidy(u)
    ensures Like(ParseInputs(u), ParseInputs(Newlines(u)))
  {
    hide Newlines, ReadPaths, ReadMarkedPaths, Tidy;
    PathListsAlike(u);
    var ins := ReadPaths(u);
    if ins.Ok? {
      MarkedAlike(ins.rest, PIPE);
      var implicitIns := ReadMarkedPaths(ins.rest, PIPE);
      if implicitIns.Ok? {
        MarkedAlike(implicitIns.rest, PIPE2);
        var orderOnly := ReadMarkedPaths(implicitIns.rest, PIPE2);
        if orderOnly.Ok? { MarkedAlike(orderOnly.rest, PIPEAT); }
      }
    }
  }

  lemma RuleNamesAlike(u: string, rules: set<string>)
    requires Tidy(u)
    ensures Like(ParseRuleName(u, rules), ParseRuleName(Newlines(u), rules))
  {
    hide Newlines, ExpectToken, ReadIdent, Tidy;
    ExpectedAlike(u, COLON);
    if ExpectToken(u, COLON).Ok? { IdentsAlike(ExpectToken(u, COLON).rest); }
  }

  lemma BuildLinesAlike(u: string, rules: set<string>)
    requires Tidy(u)
    ensures Like(ParseBuildLine(u, rules), ParseBuildLine(Newlines(u), rules))
  {
    hide Newlines, ParseOutputs, ParseRuleName, ParseInputs, ExpectToken, Tidy;
    OutputsAlike(u);
    var outs := ParseOutputs(u);
    if outs.Ok? {
      RuleNamesAlike(outs.rest, rules);
      var rule := ParseRuleName(outs.rest, rules);
      if rule.Ok? {
        InputsAlike(rule.rest);
        var ins := ParseInputs(rule.rest);
        if ins.Ok? { ExpectedAlike(ins.rest, NEWLINE); }
      }
    }
  }

  lemma EdgesAlike(u: string, rules: set<string>)
    requires Tidy(u)
    ensures Like(ParseEdge(u, rules), ParseEdge(Newlines(u), rules))
  {
    hide Newlines, ParseBuildLine, ParseBindings, Tidy;
    BuildLinesAlike(u, rules);
    if ParseBuildLine(u, rules).Ok? { BindingsAlike(ParseBuildLine(u, rules).rest); }
  }

  lemma RulesAlike(u: string, rules: set<string>)
    requires Tidy(u)
    ensures Like(ParseRule(u, rules), ParseRule(Newlines(u), rules))
  {
    hide Newlines, ReadIdent, ExpectToken, ParseBindings, OnlyReserved, CompleteRule, Tidy;
    IdentsAlike(u);
    var name := ReadIdent(u);
    if name.Ok? {
      ExpectedAlike(name.rest, NEWLINE);
      var end := ExpectToken(name.rest, NEWLINE);
      if end.Ok? { BindingsAlike(end.rest); }
    }
  }

  /**
   * A file is read alike, errors included, whether its lines end with a carriage
   * return and a newline or only with a newline, also if both are mixed.
   */
  lemma {:induction false} ManifestsAlike(u: string, rules: set<string>)
    requires Tidy(u)
    ensures Like(ParseManifest(u, rules), ParseManifest(Newlines(u), rules))
    decreases |u|
  {
    hide Newlines, ReadToken, ParseEdge, ParseRule, ParseLet, Tidy;
    TokenReadAlike(u);
    var t := ReadToken(u);
    if t.token == NEWLINE {
      ManifestsAlike(t.rest, rules);
    } else if t.token == BUILD {
      EdgesAlike(t.rest, rules);
      var edge := ParseEdge(t.rest, rules);
      if edge.Ok? { ManifestsAlike(edge.rest, rules); }
    } else if t.token == RULE {
      RulesAlike(t.rest, rules);
      var rule := ParseRule(t.rest, rules);
      if rule.Ok? { ManifestsAlike(rule.rest, rules + {rule.value.0}); }
    } else if t.token == IDENT {
      LetsAlike(t.start);
      var binding := ParseLet(t.start);
      if binding.Ok? { ManifestsAlike(binding.rest, rules); }
    }
  }
}
