/** `expand` of misc/ninja_syntax.py against what the lexer and `Evaluate` make of the same text. */
module Expansion {
  import opened PyStrings
  import opened NinjaSyntax
  import opened EvalEnv
  import opened Lexer
  import opened Continuations

  lemma {:induction false} EvaluateSnoc(pieces: seq<Piece>, last: Piece, env: string -> string)
    ensures EvaluatePieces(pieces + [last], env)
         == EvaluatePieces(pieces, env) + if last.Raw? then last.value else env(last.value)
  {
    if pieces == [] {
      assert (pieces + [last])[1..] == [];
    } else {
      EvaluateSnoc(pieces[1..], last, env);
      assert (pieces + [last])[1..] == pieces[1..] + [last];
    }
  }

  /** Adding text or a reference adds its value, whichever way it is stored. */
  lemma TextEvaluates(e: EvalString, text: string, env: string -> string)
    ensures e.AddText(text).Evaluate(env) == e.Evaluate(env) + text
  {
    if e.parsed != [] {
      var last, front := e.parsed[|e.parsed| - 1], e.parsed[..|e.parsed| - 1];
      assert e.parsed == front + [last];
      if last.Raw? {
        EvaluateSnoc(front, last, env);
        EvaluateSnoc(front, Raw(last.value + text), env);
      } else {
        EvaluateSnoc(e.parsed, Raw(text), env);
      }
    }
  }

  lemma ReferenceEvaluates(e: EvalString, name: string, env: string -> string)
    ensures e.AddSpecial(name).Evaluate(env) == e.Evaluate(env) + env(name)
  {
    if e.parsed == [] {
      var before := if e.singleToken == "" then [] else [Raw(e.singleToken)];
      EvaluateSnoc(before, Special(name), env);
      assert before != [] ==> before[1..] == [];
      assert e.AddSpecial(name).parsed == before + [Special(name)];
    } else {
      EvaluateSnoc(e.parsed, Special(name), env);
    }
  }

  /**
   * The texts that `expand` treats as the lexer does: no line ends, and each
   * dollar is followed by another one or by a name that both read alike. A
   * dollar in front of a space or colon is fine as long as no variable has the
   * empty name.
   */
  predicate Expandable(s: string, isWord: char -> bool, emptyName: bool)
    decreases |s|
  {
    if s == "" then true
    else if s[0] != '$' then s[0] != '\n' && s[0] != '\r' && s[0] != '\0' && Expandable(s[1..], isWord, emptyName)
    else if |s| == 1 then false
    else if s[1] == '$' then Expandable(s[2..], isWord, emptyName)
    else if s[1] == ' ' || s[1] == ':' then !emptyName && !isWord(s[1]) && Expandable(s[2..], isWord, emptyName)
    else
      var n := WordLength(s[1..], isWord);
      n > 0 && n == SimpleVarLength(s[1..]) && Expandable(s[n + 1..], isWord, emptyName)
  }

  /** The reading of a whole value. */
  ghost predicate Evaluates(s: string, eval: EvalString, env: string -> string, result: string)
  {
    var r := ScanEvalString(s + "\n", false, eval);
    r.Ok? && r.rest == "" && r.value.Evaluate(env) == result
  }

  lemma {:induction false} NameEndsAtNewline(s: string)
    ensures SimpleVarLength(s + "\n") == SimpleVarLength(s)
  {
    if s == "" {
      assert s + "\n" == "\n";
    } else {
      NameEndsAtNewline(s[1..]);
      assert (s + "\n")[1..] == s[1..] + "\n";
    }
  }

  /** One step of the scanner on a value, for each kind of step that `expand` knows. */
  lemma OrdinaryStep(s: string, eval: EvalString, env: string -> string, result: string)
    requires s != "" && s[0] != '$' && s[0] != '\n' && s[0] != '\r' && s[0] != '\0'
    requires Evaluates(s[1..], eval.AddText([s[0]]), env, result)
    ensures Evaluates(s, eval, env, result)
  {
    hide ScanEvalString;
    var t := s + "\n";
    assert t[..1] == [s[0]] && t[1..] == s[1..] + "\n";
    ScanOrdinary(t, false, eval);
  }

  lemma EscapeStep(s: string, eval: EvalString, env: string -> string, result: string)
    requires |s| >= 2 && s[0] == '$' && (s[1] == '$' || s[1] == ' ' || s[1] == ':')
    requires Evaluates(s[2..], eval.AddText([s[1]]), env, result)
    ensures Evaluates(s, eval, env, result)
  {
    hide ScanEvalString;
    var t := s + "\n";
    assert t[2..] == s[2..] + "\n";
    ScanSimpleEscape(t, false, eval);
  }

  lemma ReferenceStep(s: string, n: nat, eval: EvalString, env: string -> string, result: string)
    requires |s| >= 2 && s[0] == '$' && 0 < n == SimpleVarLength(s[1..])
    requires Evaluates(s[n + 1..], eval.AddSpecial(s[1..n + 1]), env, result)
    ensures Evaluates(s, eval, env, result)
  {
    hide ScanEvalString;
    var t := s + "\n";
    assert t[1..] == s[1..] + "\n";
    NameEndsAtNewline(s[1..]);
    assert t[n + 1..] == s[n + 1..] + "\n" && t[1..n + 1] == s[1..n + 1];
    assert IsSimpleVarChar(s[1..][0]);
    ScanReference(t, false, eval);
  }

  lemma {:induction false} ScanExpands(s: string, eval: EvalString, vars: map<string, string>,
                                       locals: map<string, string>, isWord: char -> bool)
    requires Expandable(s, isWord, "" in vars || "" in locals)
    ensures var env := (name: string) => Lookup(name, vars, locals);
            Evaluates(s, eval, env, eval.Evaluate(env) + Expand(s, vars, locals, isWord))
    decreases |s|
  {
    var env := (name: string) => Lookup(name, vars, locals);
    var value := eval.Evaluate(env);
    if s == "" {
      assert s + "\n" == "\n" && value + "" == value;
    } else {
      hide Evaluates, EvalString.Evaluate, EvalString.AddText, EvalString.AddSpecial;
      if s[0] != '$' {
        TextEvaluates(eval, [s[0]], env);
        ScanExpands(s[1..], eval.AddText([s[0]]), vars, locals, isWord);
        Regroup(value, [s[0]], Expand(s[1..], vars, locals, isWord));
        OrdinaryStep(s, eval, env, value + Expand(s, vars, locals, isWord));
      } else if s[1] == '$' || s[1] == ' ' || s[1] == ':' {
        TextEvaluates(eval, [s[1]], env);
        ScanExpands(s[2..], eval.AddText([s[1]]), vars, locals, isWord);
        Regroup(value, [s[1]], Expand(s[2..], vars, locals, isWord));
        ExpandEscape(s, vars, locals, isWord);
        EscapeStep(s, eval, env, value + Expand(s, vars, locals, isWord));
      } else {
        var n := WordLength(s[1..], isWord);
        var name := s[1..n + 1];
        ReferenceEvaluates(eval, name, env);
        ScanExpands(s[n + 1..], eval.AddSpecial(name), vars, locals, isWord);
        Regroup(value, env(name), Expand(s[n + 1..], vars, locals, isWord));
        ReferenceStep(s, n, eval, env, value + Expand(s, vars, locals, isWord));
      }
    }
  }

  /** A dollar in front of a space or colon vanishes because it references the empty name. */
  lemma ExpandEscape(s: string, vars: map<string, string>, locals: map<string, string>, isWord: char -> bool)
    requires |s| >= 2 && s[0] == '$'
    requires s[1] == '$' || ((s[1] == ' ' || s[1] == ':') && !isWord(s[1]) && "" !in vars && "" !in locals)
    ensures Expand(s, vars, locals, isWord) == [s[1]] + Expand(s[2..], vars, locals, isWord)
  {
    if s[1] != '$' {
      assert s[1..][1..] == s[2..] && s[1..][0] == s[1];
      assert WordLength(s[1..], isWord) == 0 && s[1..1] == "";
      assert Expand(s[1..], vars, locals, isWord) == [s[1]] + Expand(s[2..], vars, locals, isWord);
    }
  }

  /**
   * `expand` expands as Ninja would: on every expandable text, and for all
   * variables, it gives what the lexer reads and evaluates.
   */
  lemma ExpandsAsNinja(s: string, vars: map<string, string>, locals: map<string, string>, isWord: char -> bool)
    requires Expandable(s, isWord, "" in vars || "" in locals)
    ensures var r := ReadVarValue(s + "\n");
            r.Ok? && r.rest == "" &&
            r.value.Evaluate(name => Lookup(name, vars, locals)) == Expand(s, vars, locals, isWord)
  {
    var env := (name: string) => Lookup(name, vars, locals);
    ScanExpands(s, EMPTY, vars, locals, isWord);
    var value := Expand(s, vars, locals, isWord);
    assert EMPTY.Evaluate(env) == "" && "" + value == value;
  }

  /** Outside of these texts they differ. `expand` knows no braces, */
  lemma BracesDiffer(isWord: char -> bool)
    requires !isWord('{')
    ensures var vars := map["a" := "x"];
            Expand("${a}", vars, map[], isWord) == "{a}" && ReadVarValue("${a}\n") == Ok(EvalString([Special("a")], ""), "")
    ensures EvalString([Special("a")], "").Evaluate(name => Lookup(name, map["a" := "x"], map[])) == "x"
  {
    BracesExpanded(map["a" := "x"], isWord);
    BracesScanned();
    ReferenceEvaluates(EMPTY, "a", name => Lookup(name, map["a" := "x"], map[]));
  }

  lemma BracesExpanded(vars: map<string, string>, isWord: char -> bool)
    requires !isWord('{') && "" !in vars
    ensures Expand("${a}", vars, map[], isWord) == "{a}"
  {
    assert "${a}"[1..] == "{a}" && "{a}"[1..] == "a}" && "a}"[1..] == "}" && "}"[1..] == "";
    assert WordLength("{a}", isWord) == 0;
    assert Expand("a}", vars, map[], isWord) == "a" + Expand("}", vars, map[], isWord);
    assert "${a}"[1..1] == "";
  }

  lemma BracesScanned()
    ensures ReadVarValue("${a}\n") == Ok(EvalString([Special("a")], ""), "")
  {
    var s := "${a}\n";
    VarCons('a', "}\n");
    assert s[2..] == ['a'] + "}\n" && VarLength("}\n") == 0;
    assert s[3..][..1] == "}" && s[4..] == "\n" && s[2..3] == "a";
    hide ScanEvalString, VarLength;
    ScanBraces(s, false, EMPTY);
    ScanEnd("a");
  }

  lemma ScanEnd(name: string)
    ensures ScanEvalString("\n", false, EMPTY.AddSpecial(name)) == Ok(EvalString([Special(name)], ""), "")
  {
    assert EMPTY.AddSpecial(name) == EvalString([Special(name)], "");
    assert "\n"[1..] == "";
  }

  /** and no dashes in names. */
  lemma DashesDiffer(isWord: char -> bool)
    requires isWord('a') && !isWord('-')
    ensures var vars := map["a" := "x"];
            Expand("$a-", vars, map[], isWord) == "x-" && ReadVarValue("$a-\n") == Ok(EvalString([Special("a-")], ""), "")
    ensures EvalString([Special("a-")], "").Evaluate(name => Lookup(name, map["a" := "x"], map[])) == ""
  {
    DashExpanded(map["a" := "x"], isWord);
    DashScanned();
    ReferenceEvaluates(EMPTY, "a-", name => Lookup(name, map["a" := "x"], map[]));
  }

  lemma DashExpanded(vars: map<string, string>, isWord: char -> bool)
    requires isWord('a') && !isWord('-') && "a" in vars
    ensures Expand("$a-", vars, map[], isWord) == vars["a"] + "-"
  {
    assert "$a-"[1..] == "a-" && "a-"[1..] == "-" && "$a-"[1..2] == "a" && "$a-"[2..] == "-" && "-"[1..] == "";
    assert WordLength("a-", isWord) == 1 + WordLength("-", isWord);
    assert Expand("-", vars, map[], isWord) == "-";
  }

  lemma DashScanned()
    ensures ReadVarValue("$a-\n") == Ok(EvalString([Special("a-")], ""), "")
  {
    var s := "$a-\n";
    VarCons('a', ['-'] + "\n");
    VarCons('-', "\n");
    assert s[1..] == ['a'] + (['-'] + "\n") && SimpleVarLength("\n") == 0;
    assert s[3..] == "\n" && s[1..3] == "a-";
    hide ScanEvalString, SimpleVarLength;
    ScanReference(s, false, EMPTY);
    ScanEnd("a-");
  }
}
