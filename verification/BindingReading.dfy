/** Reading back binding lines, wrapped or not. */
module BindingReading {
  import opened PyStrings
  import opened NinjaSyntax
  import opened LogicalLines
  import opened EvalEnv
  import opened Lexer
  import opened ManifestParser
  import opened Continuations
  import opened BuildStatement
  import opened PlainReading

  lemma {:induction false} SimpleVarLocal(v: string, tail: string)
    ensures SimpleVarLength(v + "\n" + tail) == SimpleVarLength(v + "\n") <= |v|
  {
    if v != "" && IsSimpleVarChar(v[0]) {
      SimpleVarLocal(v[1..], tail);
      assert (v + "\n" + tail)[1..] == v[1..] + "\n" + tail;
      assert (v + "\n")[1..] == v[1..] + "\n";
    }
  }

  lemma {:induction false} VarLocal(v: string, tail: string)
    ensures VarLength(v + "\n" + tail) == VarLength(v + "\n") <= |v|
  {
    if v != "" && IsVarChar(v[0]) {
      VarLocal(v[1..], tail);
      assert (v + "\n" + tail)[1..] == v[1..] + "\n" + tail;
      assert (v + "\n")[1..] == v[1..] + "\n";
    }
  }

  lemma {:induction false} AlignedDrop(v: string, n: nat)
    requires n <= |v| && Aligned(v) && '$' !in v[..n]
    ensures Aligned(v[n..])
  {
    if n > 0 {
      assert v[0] == v[..n][0] && v[0] in v[..n];
      assert v[1..][..n - 1] == v[..n][1..];
      AlignedDrop(v[1..], n - 1);
      assert v[1..][n - 1..] == v[n..];
    }
  }

  /** A value that ends with its line: nothing behind the newline matters. */
  ghost predicate Local(v: string, tail: string, eval: EvalString)
  {
    var r := ScanEvalString(v + "\n", false, eval);
    r.Ok? ==> r.rest == "" && ScanEvalString(v + "\n" + tail, false, eval) == Ok(r.value, tail)
  }

  lemma {:induction false} ValueLocal(v: string, tail: string, eval: EvalString)
    requires '\n' !in v && '\r' !in v && Aligned(v)
    ensures Local(v, tail, eval)
    decreases |v|, 2
  {
    var s, l := v + "\n", v + "\n" + tail;
    if v == "" {
      assert s[1..] == "" && l[1..] == tail;
    } else if v[0] != '$' {
      ValueLocal(v[1..], tail, eval.AddText([v[0]]));
      assert s[1..] == v[1..] + "\n" && l[1..] == v[1..] + "\n" + tail;
      assert s[..1] == [v[0]] && l[..1] == [v[0]];
      assert v[0] in v;
    } else {
      assert v[1] in v;
      EscapeLocal(v, tail, eval);
    }
  }

  lemma {:induction false} EscapeLocal(v: string, tail: string, eval: EvalString)
    requires '\n' !in v && '\r' !in v && Aligned(v)
    requires |v| >= 2 && v[0] == '$' && v[1] != '\n' && v[1] != '\r'
    ensures Local(v, tail, eval)
    decreases |v|, 1
  {
    var s, l := v + "\n", v + "\n" + tail;
    if v[1] == '$' || v[1] == ' ' || v[1] == ':' || v[1] == '^' {
      ScanSimpleEscape(s, false, eval);
      ScanSimpleEscape(l, false, eval);
      Dropped(v, 2, tail);
      ValueLocal(v[2..], tail, eval.AddText(if v[1] == '^' then "\n" else [v[1]]));
    } else if IsSimpleVarChar(v[1]) {
      ReferenceLocal(v, tail, eval);
    } else if v[1] == '{' {
      BraceLocal(v, tail, eval);
    } else {
      ScanBadEscape(s, false, eval);
    }
  }

  lemma Dropped(v: string, n: nat, tail: string)
    requires n <= |v|
    ensures (v + "\n")[n..] == v[n..] + "\n" && (v + "\n" + tail)[n..] == v[n..] + "\n" + tail
  {
  }

  lemma TakenAlike(v: string, n: nat, tail: string)
    requires n < |v|
    ensures (v + "\n")[1..n + 1] == v[1..n + 1] && (v + "\n" + tail)[1..n + 1] == v[1..n + 1]
  {
  }

  lemma ReferenceLength(v: string, tail: string)
    requires |v| >= 2 && v[0] == '$' && IsSimpleVarChar(v[1])
    ensures var n := SimpleVarLength((v + "\n")[1..]);
            0 < n < |v| && SimpleVarLength((v + "\n" + tail)[1..]) == n &&
            forall i :: 1 <= i <= n ==> IsSimpleVarChar(v[i])
  {
    Dropped(v, 1, tail);
    SimpleVarLocal(v[1..], tail);
    var s := v[1..] + "\n";
    assert forall i :: 1 <= i <= SimpleVarLength(s) ==> v[i] == s[i - 1];
  }

  lemma AlignedAfterReference(v: string, n: nat)
    requires 0 < n < |v| && v[0] == '$' && Aligned(v)
    requires forall i :: 1 <= i <= n ==> IsSimpleVarChar(v[i])
    ensures Aligned(v[n + 1..])
  {
    AlignedDrop(v[2..], n - 1);
    assert v[2..][n - 1..] == v[n + 1..];
  }

  lemma {:induction false} ReferenceLocal(v: string, tail: string, eval: EvalString)
    requires '\n' !in v && '\r' !in v && Aligned(v)
    requires |v| >= 2 && v[0] == '$' && IsSimpleVarChar(v[1])
    ensures Local(v, tail, eval)
    decreases |v|, 0
  {
    ScanReference(v + "\n", false, eval);
    ScanReference(v + "\n" + tail, false, eval);
    ReferenceLength(v, tail);
    var n := SimpleVarLength((v + "\n")[1..]);
    Dropped(v, n + 1, tail);
    TakenAlike(v, n, tail);
    AlignedAfterReference(v, n);
    ValueLocal(v[n + 1..], tail, eval.AddSpecial(v[1..n + 1]));
  }

  lemma {:induction false} BraceLocal(v: string, tail: string, eval: EvalString)
    requires '\n' !in v && '\r' !in v && Aligned(v)
    requires |v| >= 2 && v[0] == '$' && v[1] == '{'
    ensures Local(v, tail, eval)
    decreases |v|, 0
  {
    var s, l := v + "\n", v + "\n" + tail;
    ScanBraces(s, false, eval);
    ScanBraces(l, false, eval);
    Dropped(v, 2, tail);
    VarLocal(v[2..], tail);
    var n := VarLength(v[2..] + "\n");
    Dropped(v, n + 2, tail);
    if n > 0 && At(s[n + 2..], "}") {
      assert n + 2 < |v| && v[n + 2] == '}' by { assert s[n + 2] == s[n + 2..][..1][0]; }
      assert l[n + 2..][..1] == "}";
      assert s[2..n + 2] == l[2..n + 2];
      Dropped(v, n + 3, tail);
      assert forall i :: 0 <= i < n ==> v[2..][i] == (v[2..] + "\n")[i];
      AlignedDrop(v[2..], n + 1);
      assert v[2..][n + 1..] == v[n + 3..];
      ValueLocal(v[n + 3..], tail, eval.AddSpecial(s[2..n + 2]));
    }
  }

  /** A value that survives as it is: on one line, no leading spaces, readable. */
  ghost predicate ValueOk(v: string)
  {
    && '\n' !in v && '\r' !in v && Aligned(v)
    && (v != "" ==> v[0] != ' ')
    && ReadVarValue(v + "\n").Ok?
  }

  function ReadValue(v: string): EvalString
    requires ReadVarValue(v + "\n").Ok?
  {
    ReadVarValue(v + "\n").value
  }

  ghost predicate BindingOk(b: Binding) { IsIdent(b.key) && ValueOk(b.value) }

  lemma EqualsRead(x: string)
    requires EatWhitespace(" " + x) == x
    ensures ExpectToken("=" + (" " + x), EQUALS) == Ok((), x)
    ensures EatWhitespace(" " + ("=" + (" " + x))) == "=" + (" " + x)
  {
    var s := "=" + (" " + x);
    ScanAtOnce(s);
    assert s[1..] == " " + x;
    EatNothing(s);
  }

  /** A key, an equals sign and whatever the rest is read as. */
  lemma LetReads(key: string, x: string)
    requires IsIdent(key) && x != "" && x[0] != ' ' && (x[0] == '$' ==> |x| >= 2 && x[1] != '\n' && x[1] != '\r')
    ensures ReadIdent(key + (" " + ("=" + (" " + x)))) == Ok(key, "=" + (" " + x))
    ensures var r := ReadVarValue(x);
            ParseLet(key + (" " + ("=" + (" " + x)))) == if r.Err? then Err(r.failure) else Ok((key, r.value), r.rest)
  {
    EatNothing(x);
    EqualsRead(x);
    IdentRead(key, " " + ("=" + (" " + x)));
  }

  lemma PlainLet(key: string, v: string, tail: string)
    requires IsIdent(key) && ValueOk(v)
    ensures ParseLet(key + (" " + ("=" + (" " + (v + "\n" + tail))))) == Ok((key, ReadValue(v)), tail)
    ensures ReadIdent(key + (" " + ("=" + (" " + (v + "\n" + tail))))) == Ok(key, "=" + (" " + (v + "\n" + tail)))
  {
    hide ParseLet, ReadIdent;
    ValueHead(v, tail);
    LetReads(key, v + "\n" + tail);
    ValueLocal(v, tail, EMPTY);
  }

  lemma ValueHead(v: string, tail: string)
    requires ValueOk(v)
    ensures var x := v + "\n" + tail;
            x != "" && x[0] != ' ' && (x[0] == '$' ==> |x| >= 2 && x[1] != '\n' && x[1] != '\r')
  {
    if |v| >= 2 { assert v[1] in v; }
  }

  lemma {:induction false} EatSpaces(n: nat, x: string)
    ensures EatWhitespace(Spaces(n) + x) == EatWhitespace(x)
  {
    if n == 0 {
      assert Spaces(n) + x == x;
    } else {
      EatSpaces(n - 1, x);
      assert (Spaces(n) + x)[1..] == Spaces(n - 1) + x;
    }
  }

  /** The first visible character of a line, unless a continuation comes first. */
  lemma {:induction false} VisibleHead(w: string, afterSpace: bool)
    requires Spaced(w, afterSpace) && SkipSpaces(Unwrap(w)) != ""
    ensures var r := SkipSpaces(w); r != "" && (r[0] == '$' || r[0] == SkipSpaces(Unwrap(w))[0])
    decreases |w|
  {
    if w != "" && w[0] == ' ' {
      assert Unwrap(w)[1..] == Unwrap(w[1..]);
      VisibleHead(w[1..], true);
    } else if !At(w, "$\n") {
      if |w| >= 2 { assert w[..2] == [w[0], w[1]]; }
      assert Spaced(w, false);
      HeadUnwrap(w);
    } else {
      assert w[0] == w[..2][0];
    }
  }

  /** An indented line, continued or not, is an indent followed by its first word. */
  lemma IndentSeen(w: string, n: nat, x: string)
    requires Spaced(w, false) && Unwrap(w) == Spaces(n) + x && n > 0
    requires x != "" && IsVarChar(x[0])
    ensures PeekToken(w, INDENT) == (true, EatWhitespace(w))
    ensures Unwrap(EatWhitespace(w)) == x && Spaced(EatWhitespace(w), false)
  {
    HeadUnwrap(w);
    assert w[0] == ' ';
    SkipSpacesAway(n, x);
    VisibleHead(w, false);
    var r := SkipSpaces(w);
    assert r[0] != '#' && r[0] != '\n' && r[0] != '\r';
    NotALineEnd(r);
    assert |r| < |w| by { assert SkipSpaces(w) == SkipSpaces(w[1..]); }
    EatSkips(w);
    EatUnwrap(w, false);
    EatSpaces(n, x);
    EatNothing(x);
  }

  lemma NotALineEnd(r: string)
    requires r != "" && r[0] != '\n' && r[0] != '\r'
    ensures !At(r, "\n") && !At(r, "\r\n")
  {
    assert r[..1][0] == r[0];
    if |r| >= 2 { assert r[..2][0] == r[0]; }
  }

  lemma {:induction false} IdentAligned(key: string, v: string)
    requires forall i :: 0 <= i < |key| ==> IsVarChar(key[i])
    ensures Aligned(key + v) <==> Aligned(v)
  {
    if key == "" {
      assert key + v == v;
    } else {
      IdentAligned(key[1..], v);
      assert (key + v)[1..] == key[1..] + v;
    }
  }

  lemma LetTextPlain(key: string, v: string)
    requires IsIdent(key) && ValueOk(v)
    ensures var t := key + " = " + v;
            '\n' !in t && '\r' !in t && Aligned(t) && t[0] != ' '
  {
    var t := key + " = " + v;
    assert t == key + (" = " + v);
    IdentAligned(key, " = " + v);
    assert " = "[1..] == "= " && "= "[1..] == " " && " "[1..] == "";
    assert Aligned(" = ");
    AlignedSplit(" = ", v);
  }

  lemma BindingTextPlain(b: Binding)
    requires BindingOk(b)
    ensures '\n' !in b.Text() && '\r' !in b.Text() && Aligned(b.Text())
  {
    LetTextPlain(b.key, b.value);
    var t := b.key + " = " + b.value;
    if b.spelledOut {
      assert b.Text() == "  " + t;
      assert ("  " + t)[1..][1..] == t;
    } else {
      assert b.Text() == t;
    }
  }

  /** What follows a name starts alike in both readings. */
  lemma HeadOfRest(e: string, c: char)
    requires SameReading(ReadIdent(e), ReadIdent(Unwrap(e))) && c != '#'
    requires ReadIdent(Unwrap(e)).Ok? && ReadIdent(Unwrap(e)).rest != "" && ReadIdent(Unwrap(e)).rest[0] == c
    ensures ReadIdent(e).Ok? && !At(ReadIdent(e).rest, "#")
  {
    hide ReadIdent;
    var r := ReadIdent(e).rest;
    HeadUnwrap(r);
    assert r[..1] == [r[0]];
  }

  /** The escape of a text, character by character. */
  function Doubled(s: string): string { Replace(s, "$", "$$") }

  lemma DoubledHead(s: string)
    requires s != ""
    ensures Doubled(s) == (if s[0] == '$' then "$$" else [s[0]]) + Doubled(s[1..])
  {
    ReplaceDollar(s);
  }

  lemma {:induction false} DoubledShape(s: string)
    requires '\n' !in s && '\r' !in s
    ensures var v := Doubled(s);
            '\n' !in v && '\r' !in v && Aligned(v) && (NoDoubleSpace(s) ==> NoDoubleSpace(v)) &&
            (v == "" <==> s == "") && (s != "" ==> v[0] == s[0])
  {
    if s != "" {
      var rest := s[1..];
      assert forall p :: 0 <= p < |rest| ==> rest[p] == s[p + 1];
      DoubledShape(rest);
      DoubledHead(s);
      assert s[0] in s;
      var head, v := if s[0] == '$' then "$$" else [s[0]], Doubled(rest);
      assert (head + v)[|head|..] == v;
      forall p | NoDoubleSpace(s) && 0 <= p && p + 1 < |head + v| && (head + v)[p] == ' '
        ensures (head + v)[p + 1] != ' '
      {
        if p >= |head| { assert v[p - |head|] == ' '; }
      }
    }
  }

  lemma {:induction false} DoubledReads(s: string, done: string)
    requires '\n' !in s && '\r' !in s && '\0' !in s
    ensures ScanEvalString(Doubled(s) + "\n", false, Text(done)) == Ok(Text(done + s), "")
  {
    if s == "" {
      assert Doubled(s) + "\n" == "\n" && "\n"[1..] == "" && done + s == done;
    } else {
      assert s[0] in s;
      DoubledHead(s);
      DoubledReads(s[1..], done + [s[0]]);
      ScanDoubled(s[0], Doubled(s[1..]) + "\n", done);
      Regroup(if s[0] == '$' then "$$" else [s[0]], Doubled(s[1..]), "\n");
      assert done + [s[0]] + s[1..] == done + s;
    }
  }

  lemma ScanDoubled(c: char, more: string, done: string)
    requires c != '\n' && c != '\r' && c != '\0'
    ensures ScanEvalString((if c == '$' then "$$" else [c]) + more, false, Text(done))
         == ScanEvalString(more, false, Text(done + [c]))
  {
    var s := (if c == '$' then "$$" else [c]) + more;
    if c == '$' {
      ScanSimpleEscape(s, false, Text(done));
      assert s[2..] == more;
    } else {
      assert s[1..] == more && s[..1] == [c];
    }
  }

  /**
   * Escaped text as a value: the parser reads exactly the text that was escaped,
   * and single spaces stay single, so that every width will do for them.
   */
  lemma EscapedValueReads(s: string)
    requires '\n' !in s && '\r' !in s && '\0' !in s && (s != "" ==> s[0] != ' ')
    ensures Escape(s).Some? && ValueOk(Escape(s).value) && ReadValue(Escape(s).value) == Text(s)
    ensures NoDoubleSpace(s) ==> NoDoubleSpace(Escape(s).value)
  {
    DoubledShape(s);
    DoubledReads(s, "");
    assert "" + s == s;
  }
}
