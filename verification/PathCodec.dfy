/** Path escaping by the writer against path reading by the lexer. */
module PathCodec {
  import opened NinjaSyntax
  import opened EvalEnv
  import opened LogicalLines
  import opened Lexer
  import opened Continuations

  predicate Forbidden(c: char) { c == '|' || c == '\n' || c == '\r' || c == '\0' }

  predicate FineAt(word: string, i: nat)
    requires i < |word|
  {
    !Forbidden(word[i]) && (word[i] == '$' ==> i + 1 < |word| && word[i + 1] == ' ')
  }

  /** No separator characters, and a dollar only in front of a space. */
  predicate Escapable(word: string)
  {
    forall i :: 0 <= i < |word| ==> FineAt(word, i)
  }

  /** The longest first piece that the writer encodes as a unit. */
  function PieceLength(word: string): (k: nat)
    requires word != ""
    ensures 1 <= k <= |word|
  {
    if |word| >= 2 && word[0] == '$' && word[1] == ' ' then 2 else 1
  }

  lemma EscapableByPieces(word: string)
    requires word != ""
    ensures var k := PieceLength(word);
            Escapable(word) <==> (k == 2 || (word[0] != '$' && !Forbidden(word[0]))) && Escapable(word[k..])
  {
    var k := PieceLength(word);
    var rest := word[k..];
    assert forall i :: 0 <= i < |rest| ==> rest[i] == word[i + k];
    if Escapable(word) {
      assert FineAt(word, 0);
      forall i | 0 <= i < |rest| ensures FineAt(rest, i) { assert FineAt(word, i + k); }
    } else if (k == 2 || (word[0] != '$' && !Forbidden(word[0]))) && Escapable(rest) {
      forall i | 0 <= i < |word| ensures FineAt(word, i) {
        if i >= k { assert FineAt(rest, i - k); }
      }
    }
  }

  /** What may follow a path. */
  predicate Terminator(rest: string)
  {
    rest != "" && (rest[0] == ' ' || rest[0] == ':' || rest[0] == '|' || rest[0] == '\n')
  }

  /** One character of plain text. */
  lemma ScanPlain(s: string, eval: EvalString)
    requires s != "" && s[0] != '$' && !Forbidden(s[0]) && s[0] != ' ' && s[0] != ':'
    ensures ScanEvalString(s, true, eval) == ScanEvalString(s[1..], true, eval.AddText([s[0]]))
  {
    assert s[..1] == [s[0]];
  }

  function EncodePiece(piece: string): string
    requires piece != ""
  {
    if |piece| == 2 then "$$$ "
    else if piece[0] == ' ' then "$ "
    else if piece[0] == ':' then "$:"
    else [piece[0]]
  }

  lemma EncodeByPieces(word: string, rest: string)
    requires word != ""
    ensures var k := PieceLength(word);
            EncodePath(word) + rest == EncodePiece(word[..k]) + (EncodePath(word[k..]) + rest)
  {
    if |word| >= 2 { assert word[..2] == [word[0], word[1]]; }
    assert word[..1] == [word[0]];
  }

  lemma TakenApart(done: string, word: string, k: nat)
    requires k <= |word|
    ensures done + word[..k] + word[k..] == done + word
  {
  }

  /** How the scanner takes one encoded piece off the front. */
  lemma ScanEncodedPiece(piece: string, more: string, done: string)
    requires piece == "$ " || (|piece| == 1 && piece[0] != '$' && !Forbidden(piece[0]))
    ensures ScanEvalString(EncodePiece(piece) + more, true, Text(done)) == ScanEvalString(more, true, Text(done + piece))
  {
    var s := EncodePiece(piece) + more;
    if piece == "$ " {
      ScanSimpleEscape(s, true, Text(done));
      assert s[2..] == "$ " + more;
      ScanSimpleEscape("$ " + more, true, Text(done + "$"));
      assert ("$ " + more)[2..] == more;
      assert done + "$" + " " == done + piece;
    } else if piece[0] == ' ' || piece[0] == ':' {
      ScanSimpleEscape(s, true, Text(done));
      assert s[2..] == more;
      assert [s[1]] == piece;
    } else {
      ScanPlain(s, Text(done));
      assert s[1..] == more;
      assert [s[0]] == piece;
    }
  }

  lemma {:induction false} ReadEncoded(word: string, rest: string, done: string)
    requires Escapable(word) && Terminator(rest)
    ensures ScanEvalString(EncodePath(word) + rest, true, Text(done)) == Ok(Text(done + word), rest)
    decreases |word|
  {
    if word == "" {
      assert EncodePath(word) + rest == rest;
      assert done + word == done;
    } else {
      var k := PieceLength(word);
      EncodeByPieces(word, rest);
      EscapableByPieces(word);
      ScanEncodedPiece(word[..k], EncodePath(word[k..]) + rest, done);
      ReadEncoded(word[k..], rest, done + word[..k]);
      TakenApart(done, word, k);
    }
  }

  /** The reading ended as plain text with exactly `rest` left. */
  predicate EndsAt(r: Result<EvalString>, rest: string)
  {
    r.Ok? && r.rest == rest && |r.value.parsed| == 0
  }

  /** How much text a reading of `s` that ends at `rest` yields. */
  ghost predicate YieldsAtMost(s: string, rest: string, done: string, n: int)
  {
    var r := ScanEvalString(s, true, Text(done));
    EndsAt(r, rest) ==> |r.value.singleToken| <= |done| + n
  }

  lemma StopsTooEarly(s: string, rest: string, done: string, n: int)
    requires s != "" && (s[0] == ' ' || s[0] == ':' || Forbidden(s[0])) && |s| > |rest|
    ensures YieldsAtMost(s, rest, done, n)
  {
  }

  lemma ReadsTooFar(s: string, rest: string, eval: EvalString)
    requires |s| < |rest|
    ensures !EndsAt(ScanEvalString(s, true, eval), rest)
  {
  }

  /** A dollar at the end of a word swallows what should end the path. */
  lemma DanglingDollar(rest: string, done: string, n: int)
    requires Terminator(rest)
    ensures YieldsAtMost("$" + rest, rest, done, n)
  {
    var s := "$" + rest;
    if rest[0] == ' ' || rest[0] == ':' {
      ScanSimpleEscape(s, true, Text(done));
      ReadsTooFar(s[2..], rest, Text(done + [rest[0]]));
    } else if rest[0] == '|' {
      ScanBadEscape(s, true, Text(done));
    } else {
      assert s[..2] == "$\n";
      ReadsTooFar(SkipSpaces(s[2..]), rest, Text(done));
    }
  }

  lemma EncodedHead(word: string, rest: string)
    requires word != ""
    ensures EncodePath(word) != "" && EncodePath(word)[0] != ' '
    ensures SkipSpaces(EncodePath(word) + rest) == EncodePath(word) + rest
  {
  }

  /** Joining lines in the middle of a word. */
  lemma AfterJoint(word: string, rest: string, done: string, n: nat)
    requires Terminator(rest)
    requires YieldsAtMost(EncodePath(word) + rest, rest, done, n)
    ensures YieldsAtMost(SkipSpaces(EncodePath(word) + rest), rest, done, n)
  {
    if word == "" {
      assert EncodePath(word) + rest == rest;
      if rest[0] == ' ' { ReadsTooFar(SkipSpaces(rest), rest, Text(done)); }
    } else {
      EncodedHead(word, rest);
    }
  }

  lemma TwoDollarsThenSpace(tail: string, rest: string, done: string, n: int)
    requires |tail| >= |rest|
    ensures YieldsAtMost("$" + ("$$$ " + tail), rest, done, n)
  {
    hide ScanEvalString;
    var s, t := "$" + ("$$$ " + tail), "$$ " + tail;
    assert s[2..] == t && t[2..] == " " + tail;
    ScanSimpleEscape(s, true, Text(done));
    ScanSimpleEscape(t, true, Text(done + "$"));
    StopsTooEarly(" " + tail, rest, done + "$" + "$", n - 2);
  }

  lemma TwoDollarsThenColon(tail: string, rest: string, done: string, n: int)
    requires |tail| >= |rest|
    ensures YieldsAtMost("$" + ("$:" + tail), rest, done, n)
  {
    assert "$" + ("$:" + tail) == "$$:" + tail;
    ScanSimpleEscape("$$:" + tail, true, Text(done));
    assert ("$$:" + tail)[2..] == ":" + tail;
    StopsTooEarly(":" + tail, rest, done + "$", 0);
  }

  lemma OneForTwo(c: char, tail: string, rest: string, done: string, n: int)
    requires c == '$' || c == '^'
    requires YieldsAtMost(tail, rest, done + (if c == '^' then "\n" else [c]), n)
    ensures YieldsAtMost("$" + [c] + tail, rest, done, n + 1)
  {
    ScanSimpleEscape("$" + [c] + tail, true, Text(done));
    assert ("$" + [c] + tail)[2..] == tail;
  }

  lemma NoneForJoint(joint: string, tail: string, rest: string, done: string, n: int)
    requires joint == "$\n" || joint == "$\r\n"
    requires YieldsAtMost(SkipSpaces(tail), rest, done, n)
    ensures YieldsAtMost(joint + tail, rest, done, n)
  {
    var s := joint + tail;
    assert s[|joint|..] == tail && s[..|joint|] == joint;
    assert s[1] == s[..2][1];
  }

  lemma NoTextForReference(c: char, tail: string, rest: string, done: string, n: int)
    requires c != '$' && c != ' ' && c != ':' && c != '^' && c != '\n' && c != '\r'
    ensures YieldsAtMost("$" + [c] + tail, rest, done, n)
  {
    hide ScanEvalString;
    var s := "$" + [c] + tail;
    if IsSimpleVarChar(c) {
      ScanReference(s, true, Text(done));
      var n := SimpleVarLength(s[1..]);
      ScanKeeps(s[n + 1..], true, Text(done).AddSpecial(s[1..n + 1]));
    } else if c == '{' {
      ScanBraces(s, true, Text(done));
      var n := VarLength(s[2..]);
      if n > 0 && At(s[n + 2..], "}") { ScanKeeps(s[n + 3..], true, Text(done).AddSpecial(s[2..n + 2])); }
    } else {
      ScanBadEscape(s, true, Text(done));
    }
  }

  /** A dollar in front of anything but a space costs at least one character. */
  lemma {:induction false} MisplacedDollar(word: string, rest: string, done: string)
    requires |word| >= 2 && word[0] == '$' && word[1] != ' ' && Terminator(rest)
    ensures YieldsAtMost(EncodePath(word) + rest, rest, done, |word| - 1)
    decreases |word|, 0
  {
    var k := PieceLength(word[1..]);
    var tail := EncodePath(word[1 + k..]) + rest;
    EncodeAfterDollar(word, rest);
    EncodeByPieces(word[1..], rest);
    FirstPiece(word[1..]);
    assert word[1..][k..] == word[1 + k..];
    if k == 2 {
      TwoDollarsThenSpace(tail, rest, done, |word| - 1);
    } else if word[1] == ':' {
      TwoDollarsThenColon(tail, rest, done, |word| - 1);
    } else {
      MisplacedPlain(word[1], word[2..], rest, done);
    }
  }

  lemma EncodeAfterDollar(word: string, rest: string)
    requires |word| >= 2 && word[0] == '$' && word[1] != ' '
    ensures EncodePath(word) + rest == "$" + (EncodePath(word[1..]) + rest)
  {
    assert word[1] == word[..2][1];
  }

  lemma FirstPiece(word: string)
    requires word != "" && word[0] != ' '
    ensures EncodePiece(word[..PieceLength(word)])
         == if PieceLength(word) == 2 then "$$$ " else if word[0] == ':' then "$:" else [word[0]]
  {
    assert word[0] == word[..1][0];
  }

  lemma {:induction false} MisplacedPlain(c: char, word: string, rest: string, done: string)
    requires c != ' ' && c != ':' && Terminator(rest)
    ensures YieldsAtMost("$" + ([c] + (EncodePath(word) + rest)), rest, done, |word| + 1)
    decreases |word| + 1
  {
    var tail := EncodePath(word) + rest;
    assert "$" + ([c] + tail) == "$" + [c] + tail;
    if c == '$' || c == '^' {
      TextBound(word, rest, done + if c == '^' then "\n" else [c]);
      OneForTwo(c, tail, rest, done, |word|);
    } else if c == '\n' {
      TextBound(word, rest, done);
      AfterJoint(word, rest, done, |word|);
      assert "$" + [c] == "$\n";
      NoneForJoint("$\n", tail, rest, done, |word|);
    } else if c == '\r' {
      assert "$" + [c] == "$\r";
      MisplacedReturn(word, rest, done);
    } else {
      NoTextForReference(c, tail, rest, done, |word| + 1);
    }
  }

  lemma {:induction false} MisplacedReturn(word: string, rest: string, done: string)
    requires Terminator(rest)
    ensures YieldsAtMost("$\r" + (EncodePath(word) + rest), rest, done, |word| + 1)
    decreases |word|, 3
  {
    hide ScanEvalString;
    var tail := EncodePath(word) + rest;
    if tail[0] != '\n' {
      ScanLoneReturn("$\r" + tail, Text(done));
    } else if word == "" {
      assert tail == rest && "$\r" + rest == "$\r\n" + rest[1..];
      ReadsTooFar(SkipSpaces(rest[1..]), rest, Text(done));
      NoneForJoint("$\r\n", rest[1..], rest, done, 1);
    } else {
      EncodeByPieces(word, rest);
      assert word[..1] == [word[0]] && word[0] == '\n';
      var more := EncodePath(word[1..]) + rest;
      assert "$\r" + tail == "$\r\n" + more;
      TextBound(word[1..], rest, done);
      AfterJoint(word[1..], rest, done, |word| - 1);
      NoneForJoint("$\r\n", more, rest, done, |word| - 1);
    }
  }

  lemma ScanLoneReturn(s: string, eval: EvalString)
    requires |s| >= 3 && s[0] == '$' && s[1] == '\r' && s[2] != '\n'
    ensures ScanEvalString(s, true, eval) == Err(BadEscape)
  {
    assert s[1] == s[..2][1] && s[2] == s[..3][2];
    assert SimpleVarLength(s[1..]) == 0;
  }

  /** No more text comes out than went in, and less if the word is not escapable. */
  lemma {:induction false} TextBound(word: string, rest: string, done: string)
    requires Terminator(rest)
    ensures YieldsAtMost(EncodePath(word) + rest, rest, done, |word|)
    ensures !Escapable(word) ==> YieldsAtMost(EncodePath(word) + rest, rest, done, |word| - 1)
    decreases |word|, 2
  {
    if word == "" {
      assert EncodePath(word) + rest == rest;
    } else {
      var k := PieceLength(word);
      EncodeByPieces(word, rest);
      EscapableByPieces(word);
      if k == 2 || (word[0] != '$' && !Forbidden(word[0])) {
        ScanEncodedPiece(word[..k], EncodePath(word[k..]) + rest, done);
        TextBound(word[k..], rest, done + word[..k]);
      } else if word[0] != '$' {
        StopsTooEarly(EncodePath(word) + rest, rest, done, |word| - 1);
      } else if |word| == 1 {
        assert EncodePath(word) + rest == "$" + rest;
        DanglingDollar(rest, done, 0);
      } else {
        MisplacedDollar(word, rest, done);
      }
    }
  }

  /**
   * Path escaping is invertible exactly on the escapable words: there, and only
   * there, the lexer reads the escaped word back as plain text and stops at
   * what follows it.
   */
  lemma PathRoundTrip(word: string, rest: string)
    requires Terminator(rest)
    ensures ScanEvalString(EscapePath(word) + rest, true, EMPTY) == Ok(Text(word), rest) <==> Escapable(word)
  {
    EscapePathIsOnePass(word);
    if Escapable(word) {
      ReadEncoded(word, rest, "");
      assert "" + word == word;
    } else {
      TextBound(word, rest, "");
    }
  }

  /** So no two escapable words are escaped alike. */
  lemma EscapingIsInjective(v: string, w: string)
    requires Escapable(v) && Escapable(w) && EscapePath(v) == EscapePath(w)
    ensures v == w
  {
    PathRoundTrip(v, "\n");
    PathRoundTrip(w, "\n");
  }
}
