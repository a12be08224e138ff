/** Reading back a build line that has not been wrapped. */
module PlainReading {
  import opened PyStrings
  import opened NinjaSyntax
  import opened EvalEnv
  import opened Lexer
  import opened ManifestParser
  import opened Continuations
  import opened PathCodec
  import opened BuildStatement

  /** Every word with a space in front of it. */
  function SpaceEach(words: seq<string>): string
  {
    if words == [] then "" else " " + words[0] + SpaceEach(words[1..])
  }

  lemma {:induction false} JoinSpaced(words: seq<string>)
    requires words != []
    ensures " " + Join(words, " ") == SpaceEach(words)
  {
    if |words| > 1 {
      JoinSpaced(words[1..]);
      assert " " + Join(words, " ") == " " + words[0] + (" " + Join(words[1..], " "));
    } else {
      assert SpaceEach(words) == " " + words[0] + SpaceEach(words[1..]);
    }
  }

  lemma {:induction false} SpaceEachConcat(a: seq<string>, b: seq<string>)
    ensures SpaceEach(a + b) == SpaceEach(a) + SpaceEach(b)
  {
    if a == [] {
      assert a + b == b;
    } else {
      SpaceEachConcat(a[1..], b);
      assert (a + b)[1..] == a[1..] + b && (a + b)[0] == a[0];
      Regroup(" " + a[0], SpaceEach(a[1..]), SpaceEach(b));
    }
  }

  lemma SpaceEachHead(w: string, ws: seq<string>, stop: string)
    ensures SpaceEach([w] + ws) + stop == " " + (w + (SpaceEach(ws) + stop))
  {
    assert ([w] + ws)[1..] == ws;
  }

  predicate PathOk(p: string) { p != "" && Escapable(p) }

  predicate PathsOk(ps: seq<string>) { forall i :: 0 <= i < |ps| ==> PathOk(ps[i]) }

  function Texts(ps: seq<string>): (r: seq<EvalString>)
    ensures |r| == |ps|
    ensures forall i :: 0 <= i < |r| ==> r[i] == Text(ps[i])
  {
    seq(|ps|, i requires 0 <= i < |ps| => Text(ps[i]))
  }

  lemma EatNothing(s: string)
    requires s != "" && s[0] != ' ' && (s[0] == '$' ==> |s| >= 2 && s[1] != '\n' && s[1] != '\r')
    ensures EatWhitespace(s) == s && EatWhitespace(" " + s) == s
  {
    if |s| >= 2 { assert s[1] == s[..2][1]; }
    if |s| >= 3 { assert s[1] == s[..3][1]; }
    assert s[0] != '$' ==> (|s| >= 2 ==> s[..2][0] != '$') && (|s| >= 3 ==> s[..3][0] != '$');
    assert (" " + s)[1..] == s;
  }

  lemma EatBeforePath(p: string, m: string)
    requires PathOk(p)
    ensures EatWhitespace(EscapePath(p) + m) == EscapePath(p) + m
    ensures EatWhitespace(" " + (EscapePath(p) + m)) == EscapePath(p) + m
  {
    EscapePathIsOnePass(p);
    EncodeByPieces(p, m);
    EscapableByPieces(p);
    FirstPieceHead(p);
    EatNothing(EscapePath(p) + m);
  }

  lemma FirstPieceHead(p: string)
    requires PathOk(p)
    ensures var e := EncodePiece(p[..PieceLength(p)]);
            e != "" && e[0] != ' ' && (e[0] == '$' ==> |e| >= 2 && e[1] != '\n' && e[1] != '\r')
  {
    EscapableByPieces(p);
    assert p[0] == p[..1][0];
  }

  lemma ReadOne(p: string, m: string)
    requires PathOk(p) && Terminator(m)
    ensures ReadPath(EscapePath(p) + m) == Ok(Text(p), EatWhitespace(m))
  {
    PathRoundTrip(p, m);
  }

  lemma StopIsEmptyPath(s: string)
    requires Stop(s)
    ensures EatWhitespace(s) == s && ReadPath(s) == Ok(EMPTY, s) && ReadPaths(s) == Ok([], s)
  {
    EatNothing(s);
  }

  lemma WordsTerminate(ps: seq<string>, stop: string)
    requires Terminator(stop)
    ensures Terminator(SpaceEach(EscapeAll(ps)) + stop)
  {
    if ps == [] { assert SpaceEach(EscapeAll(ps)) + stop == stop; } else { WordsHead(ps, stop); }
  }

  lemma {:induction false} ReadWords(ps: seq<string>, stop: string)
    requires PathsOk(ps) && Terminator(stop) && Stop(EatWhitespace(stop))
    ensures ReadPaths(EatWhitespace(SpaceEach(EscapeAll(ps)) + stop)) == Ok(Texts(ps), EatWhitespace(stop))
  {
    if ps == [] {
      assert SpaceEach(EscapeAll(ps)) + stop == stop;
      hide EatWhitespace, ReadPaths, ReadPath;
      StopIsEmptyPath(EatWhitespace(stop));
      assert Texts(ps) == [];
    } else {
      hide EatWhitespace, SpaceEach, EscapePath, EscapeAll, ReadPath, ReadPaths, Terminator, Stop, Texts;
      var m := SpaceEach(EscapeAll(ps[1..])) + stop;
      WordsTerminate(ps[1..], stop);
      WordsHead(ps, stop);
      EatBeforePath(ps[0], m);
      ReadOne(ps[0], m);
      ReadWords(ps[1..], stop);
      TextsCons(ps);
      OneMorePath(EscapePath(ps[0]) + m, Text(ps[0]), EatWhitespace(m), Texts(ps[1..]), EatWhitespace(stop));
    }
  }

  lemma TextsCons(ps: seq<string>)
    requires ps != []
    ensures Texts(ps) == [Text(ps[0])] + Texts(ps[1..])
  {
  }

  lemma OneMorePath(s: string, first: EvalString, rest: string, more: seq<EvalString>, end: string)
    requires ReadPath(s) == Ok(first, rest) && !first.Empty() && ReadPaths(rest) == Ok(more, end)
    ensures ReadPaths(s) == Ok([first] + more, end)
  {
    hide ReadPath;
  }

  lemma WordsHead(ps: seq<string>, stop: string)
    requires ps != []
    ensures SpaceEach(EscapeAll(ps)) + stop == " " + (EscapePath(ps[0]) + (SpaceEach(EscapeAll(ps[1..])) + stop))
  {
    SpaceEachHead(EscapePath(ps[0]), EscapeAll(ps[1..]), stop);
  }

  /** Words behind a marker, if there are any; the space in front of the marker may be missing. */
  function Group(lead: bool, marker: string, ps: seq<string>): string
  {
    if ps == [] then "" else (if lead then " " else "") + (marker + SpaceEach(EscapeAll(ps)))
  }

  lemma GroupHead(lead: bool, marker: string, ps: seq<string>, stop: string)
    requires ps != []
    ensures Group(lead, marker, ps) + stop == (if lead then " " else "") + (marker + (SpaceEach(EscapeAll(ps)) + stop))
  {
    hide SpaceEach, EscapeAll;
  }

  predicate MarkerToken(marker: string, token: Token)
  {
    (marker == "|" && token == PIPE) || (marker == "||" && token == PIPE2) || (marker == "|@" && token == PIPEAT)
  }

  lemma MarkerScanned(marker: string, token: Token, m: string)
    requires MarkerToken(marker, token) && m != "" && m[0] == ' '
    ensures Stop(marker + m) && EatWhitespace(" " + (marker + m)) == EatWhitespace(marker + m) == marker + m
    ensures ReadToken(marker + m) == Lexeme(token, marker + m, EatWhitespace(m))
  {
    EatNothing(marker + m);
    ScanAtOnce(marker + m);
    if marker == "|" { OnePipe(m); } else if marker == "||" { TwoPipes(m); } else { PipeAt(m); }
  }

  lemma PipeAt(m: string)
    ensures ScanVisible("|@" + m) == Lexeme(PIPEAT, "|@" + m, m)
  {
    var s := "|@" + m;
    assert s[..2] == "|@" && s[2..] == m;
  }

  lemma OnePipe(m: string)
    requires m != "" && m[0] == ' '
    ensures ScanVisible("|" + m) == Lexeme(PIPE, "|" + m, m)
  {
    var s := "|" + m;
    assert s[1] == s[..2][1] == ' ';
    assert s[1..] == m;
  }

  lemma TwoPipes(m: string)
    ensures ScanVisible("||" + m) == Lexeme(PIPE2, "||" + m, m)
  {
    var s := "||" + m;
    assert s[..2] == "||" && s[2..] == m;
  }

  lemma StopToken(s: string)
    requires Stop(s)
    ensures ReadToken(s).start == s
    ensures s[0] == '\n' ==> ReadToken(s) == Lexeme(NEWLINE, s, s[1..])
    ensures s[0] == ':' ==> ReadToken(s) == Lexeme(COLON, s, EatWhitespace(s[1..]))
  {
    ScanAtOnce(s);
  }

  lemma GroupStops(lead: bool, marker: string, token: Token, ps: seq<string>, stop: string)
    requires MarkerToken(marker, token)
    requires Terminator(stop) && Stop(EatWhitespace(stop))
    ensures Terminator(Group(lead, marker, ps) + stop) && Stop(EatWhitespace(Group(lead, marker, ps) + stop))
    ensures ps == [] ==> Group(lead, marker, ps) + stop == stop
    ensures ps != [] ==> ReadToken(EatWhitespace(Group(lead, marker, ps) + stop)).token == token
  {
    if ps == [] {
      assert Group(lead, marker, ps) + stop == stop;
    } else {
      MarkerRead(lead, marker, token, ps, stop);
    }
  }

  lemma MarkerRead(lead: bool, marker: string, token: Token, ps: seq<string>, stop: string)
    requires MarkerToken(marker, token) && ps != []
    ensures var g, m := Group(lead, marker, ps) + stop, SpaceEach(EscapeAll(ps)) + stop;
            && Terminator(g) && EatWhitespace(g) == marker + m && Stop(marker + m)
            && ReadToken(marker + m) == Lexeme(token, marker + m, EatWhitespace(m))
  {
    hide EatWhitespace, ReadToken, Group, SpaceEach, EscapeAll;
    GroupHead(lead, marker, ps, stop);
    WordsHead(ps, stop);
    var m := SpaceEach(EscapeAll(ps)) + stop;
    MarkerScanned(marker, token, m);
    assert "" + (marker + m) == marker + m;
  }

  lemma ReadGroup(lead: bool, marker: string, token: Token, ps: seq<string>, stop: string)
    requires MarkerToken(marker, token) && PathsOk(ps)
    requires Terminator(stop) && Stop(EatWhitespace(stop)) && ReadToken(EatWhitespace(stop)).token != token
    ensures ReadMarkedPaths(EatWhitespace(Group(lead, marker, ps) + stop), token) == Ok(Texts(ps), EatWhitespace(stop))
  {
    hide EatWhitespace, ReadToken;
    if ps == [] {
      assert Group(lead, marker, ps) + stop == stop;
      StopToken(EatWhitespace(stop));
      assert Texts(ps) == [];
    } else {
      MarkerRead(lead, marker, token, ps, stop);
      ReadWords(ps, stop);
    }
  }

  /** The four groups of inputs, each of which may be missing. */
  lemma ReadInputs(ins: seq<string>, lead: bool, implicitIns: seq<string>, lead': bool, orderOnly: seq<string>,
                   lead'': bool, validations: seq<string>, tail: string)
    requires PathsOk(ins) && PathsOk(implicitIns) && PathsOk(orderOnly) && PathsOk(validations)
    ensures ParseInputs(EatWhitespace(
              SpaceEach(EscapeAll(ins))
              + (Group(lead, "|", implicitIns)
                 + (Group(lead', "||", orderOnly) + (Group(lead'', "|@", validations) + ("\n" + tail))))))
         == Ok(Inputs(Texts(ins), Texts(implicitIns), Texts(orderOnly), Texts(validations)), "\n" + tail)
  {
    hide EatWhitespace, SpaceEach, Group, ReadPaths, ReadPath, ReadMarkedPaths, ReadToken, Texts, EscapeAll, ParseInputs;
    var end := "\n" + tail;
    StopIsEmptyPath(end);
    StopToken(end);
    var afterOrderOnly := Group(lead'', "|@", validations) + end;
    GroupStops(lead'', "|@", PIPEAT, validations, end);
    var afterImplicit := Group(lead', "||", orderOnly) + afterOrderOnly;
    GroupStops(lead', "||", PIPE2, orderOnly, afterOrderOnly);
    var afterIns := Group(lead, "|", implicitIns) + afterImplicit;
    GroupStops(lead, "|", PIPE, implicitIns, afterImplicit);
    ReadWords(ins, afterIns);
    ReadGroup(lead, "|", PIPE, implicitIns, afterImplicit);
    ReadGroup(lead', "||", PIPE2, orderOnly, afterOrderOnly);
    ReadGroup(lead'', "|@", PIPEAT, validations, end);
    InputsFromParts(EatWhitespace(SpaceEach(EscapeAll(ins)) + afterIns), EatWhitespace(afterIns), EatWhitespace(afterImplicit),
                    EatWhitespace(afterOrderOnly), end, Texts(ins), Texts(implicitIns), Texts(orderOnly), Texts(validations));
  }

  lemma InputsFromParts(a: string, b: string, c: string, d: string, end: string, ins: seq<EvalString>,
                        implicitIns: seq<EvalString>, orderOnly: seq<EvalString>, validations: seq<EvalString>)
    requires ReadPaths(a) == Ok(ins, b) && ReadMarkedPaths(b, PIPE) == Ok(implicitIns, c)
    requires ReadMarkedPaths(c, PIPE2) == Ok(orderOnly, d) && ReadMarkedPaths(d, PIPEAT) == Ok(validations, end)
    ensures ParseInputs(a) == Ok(Inputs(ins, implicitIns, orderOnly, validations), end)
  {
    hide ReadPaths, ReadMarkedPaths;
  }

  lemma ReadOutputs(outs: seq<string>, lead: bool, implicitOuts: seq<string>, m: string)
    requires PathsOk(outs) && PathsOk(implicitOuts) && |outs| + |implicitOuts| > 0
    ensures ParseOutputs(EatWhitespace(SpaceEach(EscapeAll(outs)) + (Group(lead, "|", implicitOuts) + (":" + m))))
         == Ok((Texts(outs) + Texts(implicitOuts), |implicitOuts|), ":" + m)
  {
    hide EatWhitespace, Group, ReadToken, SpaceEach;
    var end := ":" + m;
    StopIsEmptyPath(end);
    StopToken(end);
    GroupStops(lead, "|", PIPE, implicitOuts, end);
    ReadWords(outs, Group(lead, "|", implicitOuts) + end);
    ReadGroup(lead, "|", PIPE, implicitOuts, end);
  }

  predicate IsIdent(s: string)
  {
    s != "" && forall i :: 0 <= i < |s| ==> IsVarChar(s[i])
  }

  lemma {:induction false} IdentLength(id: string, m: string)
    requires forall i :: 0 <= i < |id| ==> IsVarChar(id[i])
    requires m == "" || !IsVarChar(m[0])
    ensures VarLength(id + m) == |id| && (id + m)[..|id|] == id && (id + m)[|id|..] == m
  {
    if id == "" {
      assert id + m == m;
    } else {
      IdentLength(id[1..], m);
      assert (id + m)[1..] == id[1..] + m;
    }
  }

  lemma IdentRead(id: string, m: string)
    requires IsIdent(id) && (m == "" || !IsVarChar(m[0]))
    ensures ReadIdent(id + m) == Ok(id, EatWhitespace(m))
    ensures EatWhitespace(id + m) == id + m && EatWhitespace(" " + (id + m)) == id + m
  {
    IdentLength(id, m);
    assert (id + m)[0] == id[0];
    EatNothing(id + m);
  }

  /** A word and the space behind it, as a token. */
  lemma WordToken(id: string, m: string)
    requires IsIdent(id) && m != "" && m[0] == ' '
    ensures ReadToken(id + m) == Lexeme(Keyword(id), id + m, EatWhitespace(m))
    ensures Keyword(id) != NEWLINE && Keyword(id) != EOF
  {
    hide EatWhitespace, VarLength, SkipComment;
    IdentLength(id, m);
    assert (id + m)[0] == id[0];
    ScanAtOnce(id + m);
  }

  lemma BuildWord(m: string)
    requires m != "" && (m[0] == ' ' || m[0] == '|')
    ensures ExpectToken("build" + m, BUILD) == Ok((), EatWhitespace(m))
  {
    IdentLength("build", m);
    ScanAtOnce("build" + m);
  }
}
