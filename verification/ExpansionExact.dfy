/**
 * Exactly when `expand` agrees with the lexer. With no variables set, both drop
 * names and keep the rest, so a text on which they differ is recognized by
 * counting the characters that only one of them takes for part of a name.
 */
module ExpansionExact {
  import opened PyStrings
  import opened NinjaSyntax
  import opened EvalEnv
  import opened LogicalLines
  import opened Lexer
  import opened Continuations
  import opened Expansion

  /** What `\w` does not match, among the characters that mean something to the lexer. */
  predicate Ordinary(isWord: char -> bool)
  {
    && !isWord('$') && !isWord('{') && !isWord('}') && !isWord('^') && !isWord('.')
    && !isWord(' ') && !isWord(':') && !isWord('\n') && !isWord('\r') && !isWord('\0')
  }

  /** Characters that `expand` may keep where the lexer does not, weighed. */
  function Kept(s: string, isWord: char -> bool): nat
  {
    if s == "" then 0 else KeptOne(s[0], isWord) + Kept(s[1..], isWord)
  }

  function KeptOne(c: char, isWord: char -> bool): nat
  {
    if c == '^' then 2
    else if c == '\n' || c == '\r' || c == '{' || (IsSimpleVarChar(c) && !isWord(c)) then 1
    else 0
  }

  /** Characters that the lexer may keep where `expand` does not. */
  function Foreign(s: string, isWord: char -> bool): nat
  {
    if s == "" then 0 else ForeignOne(s[0], isWord) + Foreign(s[1..], isWord)
  }

  function ForeignOne(c: char, isWord: char -> bool): nat { if isWord(c) && !IsSimpleVarChar(c) then 1 else 0 }

  lemma {:induction false} CountsConcat(a: string, b: string, isWord: char -> bool)
    ensures Kept(a + b, isWord) == Kept(a, isWord) + Kept(b, isWord)
    ensures Foreign(a + b, isWord) == Foreign(a, isWord) + Foreign(b, isWord)
  {
    if a == "" {
      assert a + b == b;
    } else {
      CountsConcat(a[1..], b, isWord);
      assert (a + b)[1..] == a[1..] + b && (a + b)[0] == a[0];
    }
  }

  lemma CountsOne(c: char, isWord: char -> bool)
    ensures Kept([c], isWord) == KeptOne(c, isWord) && Foreign([c], isWord) == ForeignOne(c, isWord)
  {
    assert [c][1..] == "";
  }

  lemma {:induction false} NoForeign(s: string, isWord: char -> bool)
    requires forall i :: 0 <= i < |s| ==> ForeignOne(s[i], isWord) == 0
    ensures Foreign(s, isWord) == 0
  {
    if s != "" { NoForeign(s[1..], isWord); }
  }

  lemma {:induction false} NoneKept(s: string, isWord: char -> bool)
    requires forall i :: 0 <= i < |s| ==> KeptOne(s[i], isWord) == 0
    ensures Kept(s, isWord) == 0
  {
    if s != "" { NoneKept(s[1..], isWord); }
  }

  /** What becomes of names when no variable is set. */
  const NOTHING: string -> string := name => Lookup(name, map[], map[])

  function Expanded(s: string, isWord: char -> bool): string { Expand(s, map[], map[], isWord) }

  /** The lexer got from `base` to `v` while `expand` produced `x`; equal counts mean `fine`. */
  ghost predicate Related(v: string, base: string, x: string, isWord: char -> bool, fine: bool)
  {
    var kept, foreign := Kept(base, isWord) + Kept(x, isWord), Foreign(base, isWord) + Foreign(x, isWord);
    && Kept(v, isWord) <= kept && Foreign(v, isWord) >= foreign
    && (Kept(v, isWord) == kept && Foreign(v, isWord) == foreign ==> fine)
  }

  /** A step in which the lexer produces `t` and `expand` produces `y`. */
  lemma Combine(v: string, base: string, t: string, y: string, x: string, isWord: char -> bool, rest: bool, fine: bool)
    requires Related(v, base + t, x, isWord, rest)
    requires Kept(t, isWord) <= Kept(y, isWord) && Foreign(t, isWord) >= Foreign(y, isWord)
    requires Kept(t, isWord) == Kept(y, isWord) && Foreign(t, isWord) == Foreign(y, isWord) && rest ==> fine
    ensures Related(v, base, y + x, isWord, fine)
  {
    hide Kept, Foreign;
    CountsConcat(base, t, isWord);
    CountsConcat(y, x, isWord);
  }

  ghost predicate Compared(s: string, eval: EvalString, isWord: char -> bool)
  {
    var r := ScanEvalString(s + "\n", false, eval);
    r.Ok? && r.rest == "" ==>
      Related(r.value.Evaluate(NOTHING), eval.Evaluate(NOTHING), Expanded(s, isWord), isWord, Expandable(s, isWord, false))
  }

  /** A step of both, told by where they meet again. */
  lemma Step(s: string, eval: EvalString, rest: string, eval': EvalString, t: string, y: string, isWord: char -> bool)
    requires ScanEvalString(s + "\n", false, eval) == ScanEvalString(rest + "\n", false, eval')
    requires eval'.Evaluate(NOTHING) == eval.Evaluate(NOTHING) + t && Expanded(s, isWord) == y + Expanded(rest, isWord)
    requires Kept(t, isWord) <= Kept(y, isWord) && Foreign(t, isWord) >= Foreign(y, isWord)
    requires Kept(t, isWord) == Kept(y, isWord) && Foreign(t, isWord) == Foreign(y, isWord) && Expandable(rest, isWord, false)
             ==> Expandable(s, isWord, false)
    requires Compared(rest, eval', isWord)
    ensures Compared(s, eval, isWord)
  {
    hide ScanEvalString, Expanded, Expandable, Kept, Foreign, EvalString.Evaluate, Related;
    var r := ScanEvalString(s + "\n", false, eval);
    if r.Ok? && r.rest == "" {
      Combine(r.value.Evaluate(NOTHING), eval.Evaluate(NOTHING), t, y, Expanded(rest, isWord), isWord,
              Expandable(rest, isWord, false), Expandable(s, isWord, false));
    }
  }

  lemma {:induction false} LiteralExpands(a: string, b: string, isWord: char -> bool)
    requires '$' !in a
    ensures Expanded(a + b, isWord) == a + Expanded(b, isWord)
  {
    if a == "" {
      assert a + b == b;
    } else {
      LiteralExpands(a[1..], b, isWord);
      assert (a + b)[1..] == a[1..] + b && (a + b)[0] == a[0] && a[0] in a;
      Regroup([a[0]], a[1..], Expanded(b, isWord));
      assert [a[0]] + a[1..] == a;
    }
  }

  /** A dollar in front of something that is not part of a word vanishes alone. */
  lemma DollarVanishes(s: string, isWord: char -> bool)
    requires |s| >= 2 && s[0] == '$' && s[1] != '$' && !isWord(s[1])
    ensures Expanded(s, isWord) == Expanded(s[1..], isWord)
  {
    assert s[1..][0] == s[1];
    assert WordLength(s[1..], isWord) == 0 && s[1..1] == "";
    var x := Expanded(s[1..], isWord);
    assert "" + x == x;
  }

  lemma OrdinaryCompared(s: string, eval: EvalString, isWord: char -> bool)
    requires s != "" && s[0] != '$' && s[0] != '\n' && s[0] != '\r' && s[0] != '\0'
    requires Compared(s[1..], eval.AddText([s[0]]), isWord)
    ensures Compared(s, eval, isWord)
  {
    var w := s + "\n";
    assert w[..1] == [s[0]] && w[1..] == s[1..] + "\n";
    ScanOrdinary(w, false, eval);
    hide ScanEvalString, EvalString.AddText, EvalString.Evaluate;
    TextEvaluates(eval, [s[0]], NOTHING);
    Step(s, eval, s[1..], eval.AddText([s[0]]), [s[0]], [s[0]], isWord);
  }

  lemma EscapeCompared(s: string, eval: EvalString, isWord: char -> bool)
    requires Ordinary(isWord) && |s| >= 2 && s[0] == '$' && (s[1] == '$' || s[1] == ' ' || s[1] == ':')
    requires Compared(s[2..], eval.AddText([s[1]]), isWord)
    ensures Compared(s, eval, isWord)
  {
    hide ScanEvalString, EvalString.AddText, EvalString.Evaluate;
    var w := s + "\n";
    assert w[2..] == s[2..] + "\n";
    ScanSimpleEscape(w, false, eval);
    TextEvaluates(eval, [s[1]], NOTHING);
    ExpandEscape(s, map[], map[], isWord);
    Step(s, eval, s[2..], eval.AddText([s[1]]), [s[1]], [s[1]], isWord);
  }

  /** `$^` is a line end to the lexer only. */
  lemma CaretCompared(s: string, eval: EvalString, isWord: char -> bool)
    requires Ordinary(isWord) && |s| >= 2 && s[0] == '$' && s[1] == '^'
    requires Compared(s[2..], eval.AddText("\n"), isWord)
    ensures Compared(s, eval, isWord)
  {
    hide ScanEvalString, EvalString.AddText, EvalString.Evaluate;
    var w := s + "\n";
    assert w[2..] == s[2..] + "\n";
    ScanSimpleEscape(w, false, eval);
    TextEvaluates(eval, "\n", NOTHING);
    DollarVanishes(s, isWord);
    assert s[1..] == "^" + s[2..];
    LiteralExpands("^", s[2..], isWord);
    CountsOne('^', isWord);
    CountsOne('\n', isWord);
    hide Expanded, Expandable, Kept, Foreign, Compared;
    Step(s, eval, s[2..], eval.AddText("\n"), "\n", "^", isWord);
  }

  function LeadingSpaces(s: string): (n: nat)
    ensures n <= |s| && forall i :: 0 <= i < n ==> s[i] == ' '
  {
    if s != "" && s[0] == ' ' then 1 + LeadingSpaces(s[1..]) else 0
  }

  lemma {:induction false} SpacesSkipped(s: string)
    ensures SkipSpaces(s + "\n") == SkipSpaces(s) + "\n" && SkipSpaces(s) == s[LeadingSpaces(s)..]
  {
    if s != "" && s[0] == ' ' {
      SpacesSkipped(s[1..]);
      assert (s + "\n")[1..] == s[1..] + "\n";
      var n := LeadingSpaces(s[1..]);
      assert s[1..][n..] == s[n + 1..];
    }
  }

  /** A continuation, with `end` its line end, is dropped by the lexer and kept by `expand`. */
  lemma ContinuationCompared(s: string, end: string, more: string, eval: EvalString, isWord: char -> bool)
    requires Ordinary(isWord) && (end == "\n" || end == "\r\n") && s == "$" + end + more
    requires Compared(SkipSpaces(more), eval, isWord)
    ensures Compared(s, eval, isWord)
  {
    hide ScanEvalString, Compared, SkipSpaces, Kept, Foreign;
    SpacesSkipped(more);
    ContinuationScanned(end, more, eval);
    var n := LeadingSpaces(more);
    assert s == "$" + (end + more[..n] + more[n..]);
    LineEndKept(end, more[..n], isWord);
    assert end[0] == '\n' || end[0] == '\r';
    DroppedCompared(s, end + more[..n], more[n..], eval, isWord);
  }

  /** Whatever the lexer drops behind a dollar and `expand` keeps. */
  lemma DroppedCompared(s: string, y: string, rest: string, eval: EvalString, isWord: char -> bool)
    requires Ordinary(isWord) && y != "" && (y[0] == '\n' || y[0] == '\r') && '$' !in y && s == "$" + (y + rest)
    requires ScanEvalString(s + "\n", false, eval) == ScanEvalString(rest + "\n", false, eval)
    requires Kept(y, isWord) > 0 && Foreign(y, isWord) == 0
    requires Compared(rest, eval, isWord)
    ensures Compared(s, eval, isWord)
  {
    hide ScanEvalString, EvalString.Evaluate, Expanded, Expandable, Compared;
    assert s[1..] == y + rest && s[1] == y[0];
    DollarVanishes(s, isWord);
    LiteralExpands(y, rest, isWord);
    Nothing(isWord, eval);
    hide Kept, Foreign;
    Step(s, eval, rest, eval, "", y, isWord);
  }

  lemma LineEndKept(end: string, spaces: string, isWord: char -> bool)
    requires Ordinary(isWord) && (end == "\n" || end == "\r\n") && forall i :: 0 <= i < |spaces| ==> spaces[i] == ' '
    ensures Kept(end + spaces, isWord) > 0 && Foreign(end + spaces, isWord) == 0
  {
    var y := end + spaces;
    NoForeign(y, isWord);
    CountsConcat([y[0]], y[1..], isWord);
    assert y == [y[0]] + y[1..];
    CountsOne(y[0], isWord);
  }

  lemma Nothing(isWord: char -> bool, eval: EvalString)
    ensures Kept("", isWord) == 0 && Foreign("", isWord) == 0
    ensures eval.Evaluate(NOTHING) + "" == eval.Evaluate(NOTHING)
  {
  }

  lemma ContinuationScanned(end: string, more: string, eval: EvalString)
    requires end == "\n" || end == "\r\n"
    requires SkipSpaces(more + "\n") == SkipSpaces(more) + "\n"
    ensures ScanEvalString("$" + end + more + "\n", false, eval) == ScanEvalString(SkipSpaces(more) + "\n", false, eval)
  {
    if end == "\n" {
      var w := "$" + "\n" + more + "\n";
      hide ScanEvalString;
      assert w[2..] == more + "\n";
      ScanContinuation(w, false, eval);
    } else {
      var w := "$" + "\r\n" + more + "\n";
      assert w[3..] == more + "\n";
      ScanReturn(w, false, eval);
    }
  }

  /** A name, longer for the one or for the other. */
  lemma ReferenceCompared(s: string, m: nat, n: nat, eval: EvalString, isWord: char -> bool)
    requires Ordinary(isWord) && |s| >= 2 && s[0] == '$' && IsSimpleVarChar(s[1])
    requires m == SimpleVarLength(s[1..]) && n == WordLength(s[1..], isWord)
    requires n <= m ==> Compared(s[m + 1..], eval.AddSpecial(s[1..m + 1]), isWord)
    requires m < n ==> Compared(s[n + 1..], eval.AddSpecial(s[1..m + 1]).AddText(s[m + 1..n + 1]), isWord)
    ensures Compared(s, eval, isWord)
  {
    assert s[1..][0] == s[1];
    hide ScanEvalString, EvalString.AddText, EvalString.AddSpecial, EvalString.Evaluate, Compared, SimpleVarLength, WordLength, Ordinary;
    ReferenceRead(s, eval);
    NameVanishes(eval, s[1..m + 1]);
    if n <= m {
      LongName(s, m, n, eval, isWord);
    } else {
      LongWord(s, m, n, eval, isWord);
    }
  }

  lemma NameVanishes(eval: EvalString, name: string)
    ensures eval.AddSpecial(name).Evaluate(NOTHING) == eval.Evaluate(NOTHING)
  {
    ReferenceEvaluates(eval, name, NOTHING);
    var base := eval.Evaluate(NOTHING);
    assert NOTHING(name) == "" && base + "" == base;
  }

  /** The characters of the rest of a name, and the one right behind a word. */
  lemma {:induction false} WordChars(s: string, isWord: char -> bool)
    ensures var n := WordLength(s, isWord);
            (forall i :: 0 <= i < n ==> isWord(s[i])) && (n < |s| ==> !isWord(s[n]))
  {
    if s != "" && isWord(s[0]) {
      WordChars(s[1..], isWord);
      var n := WordLength(s[1..], isWord);
      assert forall i :: 0 < i < n + 1 ==> s[i] == s[1..][i - 1];
    }
  }

  lemma ExpandedReference(s: string, n: nat, isWord: char -> bool)
    requires |s| >= 2 && s[0] == '$' && s[1] != '$' && n == WordLength(s[1..], isWord)
    ensures Expanded(s, isWord) == Expanded(s[n + 1..], isWord)
  {
    var x := Expanded(s[n + 1..], isWord);
    assert Lookup(s[1..n + 1], map[], map[]) == "" && "" + x == x;
  }

  /** A piece of a name that starts with something that is not part of a word. */
  lemma DashKept(y: string, isWord: char -> bool)
    requires forall i :: 0 <= i < |y| ==> IsSimpleVarChar(y[i])
    ensures Foreign(y, isWord) == 0 && (y != "" && !isWord(y[0]) ==> Kept(y, isWord) > 0)
  {
    NoForeign(y, isWord);
    if y != "" {
      CountsConcat([y[0]], y[1..], isWord);
      assert y == [y[0]] + y[1..];
      CountsOne(y[0], isWord);
    }
  }

  lemma LongName(s: string, m: nat, n: nat, eval: EvalString, isWord: char -> bool)
    requires Ordinary(isWord) && |s| >= 2 && s[0] == '$' && IsSimpleVarChar(s[1])
    requires m == SimpleVarLength(s[1..]) && n == WordLength(s[1..], isWord) && n <= m
    requires ScanEvalString(s + "\n", false, eval) == ScanEvalString(s[m + 1..] + "\n", false, eval.AddSpecial(s[1..m + 1]))
    requires eval.AddSpecial(s[1..m + 1]).Evaluate(NOTHING) == eval.Evaluate(NOTHING)
    requires Compared(s[m + 1..], eval.AddSpecial(s[1..m + 1]), isWord)
    ensures Compared(s, eval, isWord)
  {
    hide ScanEvalString, EvalString.AddText, EvalString.AddSpecial, EvalString.Evaluate, Expanded, Compared;
    WordChars(s[1..], isWord);
    var y := s[n + 1..m + 1];
    assert forall i :: 0 <= i < |y| ==> y[i] == s[1..][n + i];
    assert s[n + 1..] == y + s[m + 1..];
    assert n == m ==> y == "";
    assert n < m ==> y[0] == s[1..][n];
    hide WordLength, SimpleVarLength;
    ExpandedReference(s, n, isWord);
    LiteralExpands(y, s[m + 1..], isWord);
    DashKept(y, isWord);
    Nothing(isWord, eval);
    hide Kept, Foreign;
    Step(s, eval, s[m + 1..], eval.AddSpecial(s[1..m + 1]), "", y, isWord);
  }

  lemma LongWord(s: string, m: nat, n: nat, eval: EvalString, isWord: char -> bool)
    requires Ordinary(isWord) && |s| >= 2 && s[0] == '$' && IsSimpleVarChar(s[1])
    requires m == SimpleVarLength(s[1..]) && n == WordLength(s[1..], isWord) && m < n
    requires ScanEvalString(s + "\n", false, eval) == ScanEvalString(s[m + 1..] + "\n", false, eval.AddSpecial(s[1..m + 1]))
    requires eval.AddSpecial(s[1..m + 1]).Evaluate(NOTHING) == eval.Evaluate(NOTHING)
    requires Compared(s[n + 1..], eval.AddSpecial(s[1..m + 1]).AddText(s[m + 1..n + 1]), isWord)
    ensures Compared(s, eval, isWord)
  {
    hide ScanEvalString, EvalString.AddText, EvalString.AddSpecial, EvalString.Evaluate;
    WordChars(s[1..], isWord);
    var t, named := s[m + 1..n + 1], eval.AddSpecial(s[1..m + 1]);
    assert forall i :: 0 <= i < |t| ==> t[i] == s[1..][m + i];
    assert s[m + 1..] == t + s[n + 1..];
    TextScanned(t, s[n + 1..], named, isWord);
    TextEvaluates(named, t, NOTHING);
    ExpandedReference(s, n, isWord);
    NoneKept(t, isWord);
    assert t[0] == s[1..][m];
    CountsConcat([t[0]], t[1..], isWord);
    assert t == [t[0]] + t[1..];
    CountsOne(t[0], isWord);
    Nothing(isWord, eval);
    var x := Expanded(s[n + 1..], isWord);
    assert "" + x == x;
    hide Expanded, Expandable, Kept, Foreign, Compared;
    Step(s, eval, s[n + 1..], named.AddText(t), t, "", isWord);
  }

  lemma TextsJoin(e: EvalString, a: string, b: string)
    ensures e.AddText(a).AddText(b) == e.AddText(a + b)
  {
    if e.parsed != [] {
      var last, front := e.parsed[|e.parsed| - 1], e.parsed[..|e.parsed| - 1];
      var one := e.AddText(a).parsed;
      if last.Raw? {
        assert one == front + [Raw(last.value + a)];
        assert one[..|one| - 1] == front;
        Regroup(last.value, a, b);
      } else {
        assert one == e.parsed + [Raw(a)];
        assert one[..|one| - 1] == e.parsed;
      }
    } else {
      Regroup(e.singleToken, a, b);
    }
  }

  /** The lexer takes word characters outside of a name as they are. */
  lemma {:induction false} TextScanned(t: string, rest: string, eval: EvalString, isWord: char -> bool)
    requires Ordinary(isWord) && t != "" && forall i :: 0 <= i < |t| ==> isWord(t[i])
    ensures ScanEvalString(t + rest + "\n", false, eval) == ScanEvalString(rest + "\n", false, eval.AddText(t))
  {
    hide ScanEvalString, EvalString.AddText;
    var w := t + rest + "\n";
    assert isWord(t[0]);
    assert w[..1] == [t[0]] && w[1..] == t[1..] + rest + "\n";
    ScanOrdinary(w, false, eval);
    if |t| > 1 {
      TextScanned(t[1..], rest, eval.AddText([t[0]]), isWord);
      TextsJoin(eval, [t[0]], t[1..]);
      assert [t[0]] + t[1..] == t;
    } else {
      assert t == [t[0]] && t[1..] + rest == rest;
    }
  }

  lemma {:induction false} BracedNameEnds(s: string)
    ensures VarLength(s + "\n") == VarLength(s)
  {
    if s == "" {
      assert s + "\n" == "\n";
    } else {
      BracedNameEnds(s[1..]);
      assert (s + "\n")[1..] == s[1..] + "\n";
    }
  }

  /** Braces are kept by `expand` only. */
  lemma BracesCompared(s: string, n: nat, eval: EvalString, isWord: char -> bool)
    requires Ordinary(isWord) && |s| >= n + 3 && s[0] == '$' && s[1] == '{' && n == VarLength(s[2..]) > 0 && s[n + 2] == '}'
    requires Compared(s[n + 3..], eval.AddSpecial(s[2..n + 2]), isWord)
    ensures Compared(s, eval, isWord)
  {
    hide ScanEvalString, EvalString.AddSpecial, EvalString.Evaluate;
    BracesRead(s, n, eval);
    NameVanishes(eval, s[2..n + 2]);
    var y := s[1..n + 3];
    assert forall i :: 0 < i < n + 1 ==> y[i] == s[2..][i - 1];
    assert s[1..] == y + s[n + 3..];
    DollarVanishes(s, isWord);
    LiteralExpands(y, s[n + 3..], isWord);
    NoForeign(y, isWord);
    CountsConcat([y[0]], y[1..], isWord);
    assert y == [y[0]] + y[1..];
    CountsOne(y[0], isWord);
    Nothing(isWord, eval);
    hide Expanded, Expandable, Kept, Foreign, Compared;
    Step(s, eval, s[n + 3..], eval.AddSpecial(s[2..n + 2]), "", y, isWord);
  }

  lemma BracesRead(s: string, n: nat, eval: EvalString)
    requires |s| >= n + 3 && s[0] == '$' && s[1] == '{' && n == VarLength(s[2..]) > 0 && s[n + 2] == '}'
    ensures ScanEvalString(s + "\n", false, eval) == ScanEvalString(s[n + 3..] + "\n", false, eval.AddSpecial(s[2..n + 2]))
  {
    hide ScanEvalString, EvalString.AddSpecial;
    var w := s + "\n";
    assert w[2..] == s[2..] + "\n";
    BracedNameEnds(s[2..]);
    assert w[n + 2..][..1] == "}" && w[n + 3..] == s[n + 3..] + "\n" && w[2..n + 2] == s[2..n + 2];
    ScanBraces(w, false, eval);
  }

  /** What is left cannot be read to its end as one value. */
  lemma NotRead(s: string, eval: EvalString)
    requires s != "" && s[0] == '$'
    requires |s| >= 2 ==> s[1] != '$' && s[1] != ' ' && s[1] != ':' && s[1] != '^' && s[1] != '\n' && !IsSimpleVarChar(s[1])
    requires |s| >= 3 ==> !(s[1] == '\r' && s[2] == '\n')
    requires |s| >= 2 && s[1] == '{' ==> var n := VarLength(s[2..]); n == 0 || n + 2 == |s| || s[n + 2] != '}'
    ensures ScanEvalString(s + "\n", false, eval).Err?
  {
    var w := s + "\n";
    if |s| == 1 {
      assert w[2..] == "" && w[..2] == "$\n";
      ScanContinuation(w, false, eval);
    } else if s[1] == '{' {
      var n := VarLength(s[2..]);
      assert w[2..] == s[2..] + "\n";
      BracedNameEnds(s[2..]);
      assert n > 0 ==> w[n + 2] != '}';
      assert w[n + 2..][..1] == [w[n + 2]];
      ScanBraces(w, false, eval);
    } else if s[1] != '\r' {
      ScanBadEscape(w, false, eval);
    } else {
      LoneReturn(w, eval);
    }
  }

  lemma LoneReturn(w: string, eval: EvalString)
    requires |w| >= 3 && w[0] == '$' && w[1] == '\r'
    requires w[2] != '\n' || |w| == 3
    ensures ScanEvalString(w, false, eval).Err?
  {
    if w[2] == '\n' {
      assert w[3..] == "";
      ScanReturn(w, false, eval);
    } else {
      ScanLoneDollarReturn(w, false, eval);
    }
  }

  lemma {:induction false} Compare(s: string, eval: EvalString, isWord: char -> bool)
    requires Ordinary(isWord)
    ensures Compared(s, eval, isWord)
    decreases |s|
  {
    if s == "" {
      assert s + "\n" == "\n" && "\n"[1..] == "";
    } else if s[0] == '\n' || s[0] == '\r' || s[0] == '\0' {
      LineEndCompared(s, eval, isWord);
    } else {
      hide Compared, ScanEvalString, Expandable;
      if s[0] != '$' {
        Compare(s[1..], eval.AddText([s[0]]), isWord);
        OrdinaryCompared(s, eval, isWord);
      } else {
        DollarCompared(s, eval, isWord);
      }
    }
  }

  /** A return at the end is part of the line end to the lexer. */
  lemma ReturnCompared(eval: EvalString, isWord: char -> bool)
    requires Ordinary(isWord)
    ensures Compared("\r", eval, isWord)
  {
    assert "\r" + "\n" == "\r\n" && "\r\n"[2..] == "" && "\r"[1..] == "";
    assert ScanEvalString("\r\n", false, eval) == Ok(eval, "");
    assert Expanded("\r", isWord) == "\r";
    CountsOne('\r', isWord);
  }

  lemma LineEndCompared(s: string, eval: EvalString, isWord: char -> bool)
    requires Ordinary(isWord) && s != "" && (s[0] == '\n' || s[0] == '\r' || s[0] == '\0')
    ensures Compared(s, eval, isWord)
  {
    var w := s + "\n";
    if s[0] == '\n' {
      assert |w[1..]| == |s|;
    } else if s[0] == '\r' {
      if |s| > 1 {
        assert w[..2][1] == s[1];
        assert |w[2..]| == |s| - 1;
      } else {
        assert s == "\r";
        ReturnCompared(eval, isWord);
      }
    }
  }

  /** A reference in braces, from the dollar on. */
  predicate Braced(s: string)
  {
    |s| >= 2 && s[1] == '{' &&
    var n := VarLength(s[2..]);
    n > 0 && n + 2 < |s| && s[n + 2] == '}'
  }

  lemma NotReadCompared(s: string, eval: EvalString, isWord: char -> bool)
    requires s != "" && s[0] == '$'
    requires |s| >= 2 ==> s[1] != '$' && s[1] != ' ' && s[1] != ':' && s[1] != '^' && s[1] != '\n' && !IsSimpleVarChar(s[1])
    requires |s| >= 3 ==> !(s[1] == '\r' && s[2] == '\n')
    requires !Braced(s)
    ensures Compared(s, eval, isWord)
  {
    hide ScanEvalString;
    NotRead(s, eval);
  }

  lemma {:induction false} DollarCompared(s: string, eval: EvalString, isWord: char -> bool)
    requires Ordinary(isWord) && s != "" && s[0] == '$'
    ensures Compared(s, eval, isWord)
    decreases |s|, 0
  {
    hide Compared, Ordinary, EvalString.AddText, EvalString.AddSpecial, SkipSpaces, WordLength, SimpleVarLength, VarLength;
    if |s| >= 2 && (s[1] == '$' || s[1] == ' ' || s[1] == ':') {
      Compare(s[2..], eval.AddText([s[1]]), isWord);
      EscapeCompared(s, eval, isWord);
    } else if |s| >= 2 && s[1] == '^' {
      Compare(s[2..], eval.AddText("\n"), isWord);
      CaretCompared(s, eval, isWord);
    } else if |s| >= 2 && s[1] == '\n' {
      assert s == "$" + "\n" + s[2..];
      Compare(SkipSpaces(s[2..]), eval, isWord);
      ContinuationCompared(s, "\n", s[2..], eval, isWord);
    } else if |s| >= 3 && s[1] == '\r' && s[2] == '\n' {
      assert s == "$" + "\r\n" + s[3..];
      Compare(SkipSpaces(s[3..]), eval, isWord);
      ContinuationCompared(s, "\r\n", s[3..], eval, isWord);
    } else if |s| >= 2 && IsSimpleVarChar(s[1]) {
      var m, n := SimpleVarLength(s[1..]), WordLength(s[1..], isWord);
      var named := eval.AddSpecial(s[1..m + 1]);
      if n <= m {
        Compare(s[m + 1..], named, isWord);
      } else {
        Compare(s[n + 1..], named.AddText(s[m + 1..n + 1]), isWord);
      }
      ReferenceCompared(s, m, n, eval, isWord);
    } else if Braced(s) {
      var n := VarLength(s[2..]);
      Compare(s[n + 3..], eval.AddSpecial(s[2..n + 2]), isWord);
      BracesCompared(s, n, eval, isWord);
    } else {
      NotReadCompared(s, eval, isWord);
    }
  }

  /** The lexer reads the text to its end, and gets what `expand` gets. */
  ghost predicate Agree(s: string, vars: map<string, string>, locals: map<string, string>, isWord: char -> bool)
  {
    var r := ReadVarValue(s + "\n");
    r.Ok? && r.rest == "" &&
    r.value.Evaluate(name => Lookup(name, vars, locals)) == Expand(s, vars, locals, isWord)
  }

  lemma AgreeingIsExpandable(s: string, isWord: char -> bool)
    requires Ordinary(isWord) && Agree(s, map[], map[], isWord)
    ensures Expandable(s, isWord, false)
  {
    Compare(s, EMPTY, isWord);
    var env := (name: string) => Lookup(name, map[], map[]);
    var v := ReadVarValue(s + "\n").value;
    SameEvaluation(v, env, NOTHING);
    assert EMPTY.Evaluate(NOTHING) == "";
  }

  lemma SameEvaluation(v: EvalString, env: string -> string, env': string -> string)
    requires forall name :: env(name) == env'(name)
    ensures v.Evaluate(env) == v.Evaluate(env')
  {
    if v.parsed != [] { SamePieces(v.parsed, env, env'); }
  }

  lemma {:induction false} SamePieces(pieces: seq<Piece>, env: string -> string, env': string -> string)
    requires forall name :: env(name) == env'(name)
    ensures EvaluatePieces(pieces, env) == EvaluatePieces(pieces, env')
  {
    if pieces != [] { SamePieces(pieces[1..], env, env'); }
  }

  lemma EmptyNameKept(s: string, vars: map<string, string>, isWord: char -> bool)
    requires |s| >= 2 && s[0] == '$' && (s[1] == ' ' || s[1] == ':') && !isWord(s[1]) && "" in vars
    ensures Expand(s, vars, map[], isWord) == vars[""] + ([s[1]] + Expand(s[2..], vars, map[], isWord))
  {
    assert s[1..][0] == s[1] && s[1..][1..] == s[2..];
    assert WordLength(s[1..], isWord) == 0 && s[1..1] == "";
  }

  /** A reference to the empty name, if it has a value, shows in the result. */
  lemma {:induction false} EmptyNameShows(s: string, isWord: char -> bool)
    requires Ordinary(isWord) && Expandable(s, isWord, false)
    ensures |Expand(s, map["" := "x"], map[], isWord)| >= |Expanded(s, isWord)|
    ensures !Expandable(s, isWord, true) ==> |Expand(s, map["" := "x"], map[], isWord)| > |Expanded(s, isWord)|
    decreases |s|
  {
    if s == "" {
    } else if s[0] != '$' {
      EmptyNameShows(s[1..], isWord);
    } else if s[1] == '$' {
      EmptyNameShows(s[2..], isWord);
    } else if s[1] == ' ' || s[1] == ':' {
      EmptyNameShows(s[2..], isWord);
      ExpandEscape(s, map[], map[], isWord);
      EmptyNameKept(s, map["" := "x"], isWord);
    } else {
      var n := WordLength(s[1..], isWord);
      EmptyNameShows(s[n + 1..], isWord);
      assert |s[1..n + 1]| == n > 0;
    }
  }

  lemma {:induction false} MoreExpandable(s: string, isWord: char -> bool)
    requires Expandable(s, isWord, true)
    ensures Expandable(s, isWord, false)
    decreases |s|
  {
    if s != "" {
      if s[0] != '$' {
        MoreExpandable(s[1..], isWord);
      } else if s[1] == '$' {
        MoreExpandable(s[2..], isWord);
      } else {
        MoreExpandable(s[WordLength(s[1..], isWord) + 1..], isWord);
      }
    }
  }

  /** No reference to the empty name. */
  ghost predicate Named(e: EvalString)
  {
    forall i :: 0 <= i < |e.parsed| && e.parsed[i].Special? ==> e.parsed[i].value != ""
  }

  ghost predicate NamedReading(s: string, eval: EvalString)
  {
    var r := ScanEvalString(s + "\n", false, eval);
    r.Ok? ==> Named(r.value)
  }

  lemma TextKeepsNames(e: EvalString, text: string)
    requires Named(e)
    ensures Named(e.AddText(text))
  {
  }

  lemma ReferenceKeepsNames(e: EvalString, name: string)
    requires Named(e) && name != ""
    ensures Named(e.AddSpecial(name))
  {
  }

  /** The lexer never reads a reference to the empty name. */
  lemma {:induction false} ReadsNames(s: string, eval: EvalString, isWord: char -> bool)
    requires Expandable(s, isWord, false) && Named(eval)
    ensures NamedReading(s, eval)
    decreases |s|
  {
    var w := s + "\n";
    if s == "" {
      assert w == "\n";
    } else {
      hide ScanEvalString, EvalString.AddText, EvalString.AddSpecial, Named;
      if s[0] != '$' {
        assert w[..1] == [s[0]] && w[1..] == s[1..] + "\n";
        ScanOrdinary(w, false, eval);
        TextKeepsNames(eval, [s[0]]);
        ReadsNames(s[1..], eval.AddText([s[0]]), isWord);
      } else if s[1] == '$' || s[1] == ' ' || s[1] == ':' {
        assert w[2..] == s[2..] + "\n";
        ScanSimpleEscape(w, false, eval);
        TextKeepsNames(eval, [s[1]]);
        ReadsNames(s[2..], eval.AddText([s[1]]), isWord);
      } else {
        ReferenceRead(s, eval);
        var n := SimpleVarLength(s[1..]);
        ReferenceKeepsNames(eval, s[1..n + 1]);
        ReadsNames(s[n + 1..], eval.AddSpecial(s[1..n + 1]), isWord);
      }
    }
  }

  lemma ReferenceRead(s: string, eval: EvalString)
    requires |s| >= 2 && s[0] == '$' && SimpleVarLength(s[1..]) > 0
    ensures var n := SimpleVarLength(s[1..]);
            ScanEvalString(s + "\n", false, eval) == ScanEvalString(s[n + 1..] + "\n", false, eval.AddSpecial(s[1..n + 1]))
  {
    hide ScanEvalString, EvalString.AddSpecial;
    var w, n := s + "\n", SimpleVarLength(s[1..]);
    NameEndsAtNewline(s[1..]);
    assert w[1..] == s[1..] + "\n" && w[n + 1..] == s[n + 1..] + "\n" && w[1..n + 1] == s[1..n + 1];
    assert IsSimpleVarChar(s[1..][0]);
    ScanReference(w, false, eval);
  }

  lemma {:induction false} NamedPieces(pieces: seq<Piece>, env: string -> string, env': string -> string)
    requires forall i :: 0 <= i < |pieces| && pieces[i].Special? ==> pieces[i].value != ""
    requires forall name :: name != "" ==> env(name) == env'(name)
    ensures EvaluatePieces(pieces, env) == EvaluatePieces(pieces, env')
  {
    if pieces != [] {
      assert forall i :: 0 <= i < |pieces[1..]| ==> pieces[1..][i] == pieces[i + 1];
      NamedPieces(pieces[1..], env, env');
    }
  }

  /** So a value for the empty name may not matter to `expand` either. */
  lemma AgreeWithEmptyName(s: string, isWord: char -> bool)
    requires Ordinary(isWord) && Expandable(s, isWord, false) && Agree(s, map["" := "x"], map[], isWord)
    ensures Expandable(s, isWord, true)
  {
    ExpandsAsNinja(s, map[], map[], isWord);
    EmptyNameShows(s, isWord);
    ReadsNames(s, EMPTY, isWord);
    hide ScanEvalString, Expand, Expandable;
    var some, none := (name: string) => Lookup(name, map["" := "x"], map[]), (name: string) => Lookup(name, map[], map[]);
    var v := ReadVarValue(s + "\n").value;
    NamedPieces(v.parsed, some, none);
  }

  /**
   * `expand` expands as Ninja would, for all variables, on exactly the
   * expandable texts. That no variables are set at all decides it already. If
   * variables may have the empty name, dollars in front of spaces and colons
   * are not expandable.
   */
  lemma ExpandsExactlyWhen(s: string, isWord: char -> bool)
    requires Ordinary(isWord)
    ensures Expandable(s, isWord, false) <==> Agree(s, map[], map[], isWord)
    ensures Expandable(s, isWord, false) <==>
            forall vars: map<string, string>, locals: map<string, string> :: "" !in vars && "" !in locals ==>
              Agree(s, vars, locals, isWord)
    ensures Expandable(s, isWord, true) <==>
            forall vars: map<string, string>, locals: map<string, string> :: Agree(s, vars, locals, isWord)
  {
    hide Agree;
    forall vars: map<string, string>, locals: map<string, string>
      | Expandable(s, isWord, false) && "" !in vars && "" !in locals
      ensures Agree(s, vars, locals, isWord)
    {
      Agreeing(s, vars, locals, isWord);
    }
    if Agree(s, map[], map[], isWord) {
      AgreeingIsExpandable(s, isWord);
      if Agree(s, map["" := "x"], map[], isWord) { AgreeWithEmptyName(s, isWord); }
    }
    if Expandable(s, isWord, true) {
      MoreExpandable(s, isWord);
      forall vars: map<string, string>, locals: map<string, string> ensures Agree(s, vars, locals, isWord) {
        Agreeing(s, vars, locals, isWord);
      }
    }
  }

  lemma Agreeing(s: string, vars: map<string, string>, locals: map<string, string>, isWord: char -> bool)
    requires Expandable(s, isWord, "" in vars || "" in locals) || Expandable(s, isWord, true)
    ensures Agree(s, vars, locals, isWord)
  {
    if Expandable(s, isWord, true) { MoreExpandable(s, isWord); }
    ExpandsAsNinja(s, vars, locals, isWord);
  }
}
