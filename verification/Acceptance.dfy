/** What the parser refuses, and why; and what it passes over. */
module Acceptance {
  import opened LineWrap
  import opened LogicalLines
  import opened EvalEnv
  import opened Lexer
  import opened ManifestParser
  import opened BuildStatement
  import opened PlainReading
  import opened BuildLines
  import opened BindingReading
  import opened BindingRoundTrip
  import opened Describing
  import opened ManifestRoundTrip

  /** The words that cannot name a top-level variable. */
  lemma KeywordsExactly(word: string)
    ensures Keyword(word) == IDENT <==> word !in {"build", "rule", "pool", "default", "include", "subninja"}
    ensures Keyword("build") == BUILD && Keyword("rule") == RULE && Keyword("pool") == POOL
    ensures Keyword("default") == DEFAULT && Keyword("include") == INCLUDE && Keyword("subninja") == SUBNINJA
  {
    assert "rule"[0] == 'r' && "pool"[0] == 'p' && "default"[0] == 'd' && "include"[0] == 'i' && "subninja"[0] == 's';
  }

  /** The bindings that a rule may have. */
  const RULE_KEYS := ["command", "depfile", "dyndep", "description", "deps", "generator", "pool", "restat",
                      "rspfile", "rspfile_content", "msvc_deps_prefix"]

  lemma {:induction false} ReservedExactly(bs: seq<Binding>)
    requires AllBindingsOk(bs)
    ensures OnlyReserved(ReadAll(bs)) <==> forall i :: 0 <= i < |bs| ==> bs[i].key in RULE_KEYS
    decreases |bs|
  {
    hide BindingOk, OnlyReserved, IsReservedBinding;
    if bs == [] {
      NothingReserved();
    } else {
      RestOk(bs);
      ReservedExactly(bs[1..]);
      var rs := ReadAll(bs);
      assert rs == [rs[0]] + ReadAll(bs[1..]) && rs[0].0 == bs[0].key;
      hide ReadAll;
      ReservedHead(rs[0], ReadAll(bs[1..]));
      KeysExactly(bs[0].key);
      assert forall i :: 1 <= i < |bs| ==> bs[i] == bs[1..][i - 1];
    }
  }

  lemma NothingReserved()
    ensures OnlyReserved([])
  {
  }

  lemma ReservedHead(r: (string, EvalString), rest: seq<(string, EvalString)>)
    ensures OnlyReserved([r] + rest) <==> IsReservedBinding(r.0) && OnlyReserved(rest)
  {
    hide IsReservedBinding;
    var rs := [r] + rest;
    assert rs[0] == r && forall i :: 0 <= i < |rest| ==> rs[i + 1] == rest[i];
  }

  lemma KeysExactly(key: string)
    ensures IsReservedBinding(key) <==> key in RULE_KEYS
  {
    if key in RULE_KEYS {
      var i :| 0 <= i < |RULE_KEYS| && RULE_KEYS[i] == key;
    }
    assert RULE_KEYS[0] == "command" && RULE_KEYS[1] == "depfile" && RULE_KEYS[2] == "dyndep" && RULE_KEYS[3] == "description";
    assert RULE_KEYS[4] == "deps" && RULE_KEYS[5] == "generator" && RULE_KEYS[6] == "pool" && RULE_KEYS[7] == "restat";
    assert RULE_KEYS[8] == "rspfile" && RULE_KEYS[9] == "rspfile_content" && RULE_KEYS[10] == "msvc_deps_prefix";
  }

  /** The value of a key is the text of its last binding, or empty. */
  function LastText(bs: seq<Binding>, key: string): string
  {
    if bs == [] then ""
    else if bs[|bs| - 1].key == key then bs[|bs| - 1].value
    else LastText(bs[..|bs| - 1], key)
  }

  predicate Has(bs: seq<Binding>, key: string) { exists i :: 0 <= i < |bs| && bs[i].key == key }

  lemma {:induction false} LookupExactly(bs: seq<Binding>, key: string)
    requires AllBindingsOk(bs)
    ensures var rs := ReadAll(bs); (HasKey(rs, key) <==> Has(bs, key)) && (LastValue(rs, key).Empty() <==> LastText(bs, key) == "")
    decreases |bs|
  {
    hide BindingOk, ReadAll, HasKey, LastValue, Has, LastText;
    if bs == [] {
      NothingFound(key);
    } else {
      var front, last := bs[..|bs| - 1], bs[|bs| - 1];
      assert bs == front + [last];
      ReadAllConcat(front, [last]);
      LookupExactly(front, key);
      LastRead(last);
      assert ReadAll([last]) == [ReadAll([last])[0]];
      OneMoreKey(ReadAll(front), ReadAll([last])[0], key);
      OneMoreBinding(front, last, key);
    }
  }

  lemma NothingFound(key: string)
    ensures !HasKey(ReadAll([]), key) && !Has([], key) && LastValue(ReadAll([]), key) == EMPTY && LastText([], key) == ""
  {
  }

  lemma LastRead(b: Binding)
    requires AllBindingsOk([b])
    ensures |ReadAll([b])| == 1 && ReadAll([b])[0].0 == b.key && (ReadAll([b])[0].1.Empty() <==> b.value == "")
  {
    assert BindingOk([b][0]);
    assert [b][1..] == [];
    EmptyExactly(b.value);
  }

  lemma OneMoreBinding(bs: seq<Binding>, b: Binding, key: string)
    ensures var all := bs + [b];
            && (Has(all, key) <==> Has(bs, key) || b.key == key)
            && LastText(all, key) == if b.key == key then b.value else LastText(bs, key)
  {
    var all := bs + [b];
    assert all[..|all| - 1] == bs && all[|bs|] == b;
    assert forall i :: 0 <= i < |bs| ==> all[i] == bs[i];
  }

  lemma OneMoreKey(rs: seq<(string, EvalString)>, one: (string, EvalString), key: string)
    ensures var all := rs + [one];
            && (HasKey(all, key) <==> HasKey(rs, key) || one.0 == key)
            && LastValue(all, key) == if one.0 == key then one.1 else LastValue(rs, key)
  {
    var all := rs + [one];
    assert all[..|all| - 1] == rs && all[|rs|] == one;
    assert forall i :: 0 <= i < |rs| ==> all[i] == rs[i];
  }

  /** A rule needs a command, and a response file and its content come together. */
  predicate Whole(bs: seq<Binding>)
  {
    && LastText(bs, "command") != ""
    && (Has(bs, "rspfile") <==> Has(bs, "rspfile_content"))
    && (LastText(bs, "rspfile") == "" <==> LastText(bs, "rspfile_content") == "")
  }

  lemma WholeExactly(bs: seq<Binding>)
    requires AllBindingsOk(bs)
    ensures CompleteRule(ReadAll(bs)) <==> Whole(bs)
  {
    hide BindingOk, LastValue, LastText, HasKey, Has, ReadAll;
    LookupExactly(bs, "command");
    LookupExactly(bs, "rspfile");
    LookupExactly(bs, "rspfile_content");
  }

  /**
   * A rule with any clean bindings, whoever wrote it: refused if its name is
   * taken, if it has a binding that rules do not have, or if it is not whole, in
   * this order; else read.
   */
  lemma RulesExactlyWhen(name: string, bs: seq<Binding>, width: int, rules: set<string>, tail: string)
    requires IsIdent(name) && AllBindingsOk(bs) && AllBindingsClean(bs, width) && Unindented(tail)
    ensures var w := LineText("rule " + name, 0, width) + (BindingLines(bs, width) + tail);
            if name in rules then ParseManifest(w, rules) == Err(DuplicateRule(name))
            else if exists i :: 0 <= i < |bs| && bs[i].key !in RULE_KEYS then ParseManifest(w, rules) == Err(UnexpectedVariable)
            else if !Whole(bs) then ParseManifest(w, rules) == Err(IncompleteRule)
            else Reads(w, rules, [ParsedRule(name, ReadAll(bs))], tail, rules + {name})
  {
    hide LineText, BindingLines, ReadToken, ParseRuleLine, ParseBindings, Unwrap, Spaced, Reads, CleanBinding, BindingOk,
      OnlyReserved, CompleteRule, Whole, PeekToken;
    var more := BindingLines(bs, width) + tail;
    var w := LineText("rule " + name, 0, width) + more;
    RuleLineText(name, width, more);
    RuleWordRead(w, name, more);
    BindingsParse(bs, width, tail);
    ReservedExactly(bs);
    WholeExactly(bs);
    hide AllBindingsClean;
    RuleRefused(w, rules, name, more, ReadAll(bs), tail);
    if name !in rules && OnlyReserved(ReadAll(bs)) && CompleteRule(ReadAll(bs)) {
      RuleStep(w, rules, name, more, ReadAll(bs), tail);
    }
  }

  lemma RuleRefused(w: string, rules: set<string>, name: string, more: string, bs: seq<(string, EvalString)>, tail: string)
    requires ReadToken(w).token == RULE && ParseRuleLine(ReadToken(w).rest) == Ok(name, more)
    requires ParseBindings(more) == Ok(bs, tail)
    ensures name in rules ==> ParseManifest(w, rules) == Err(DuplicateRule(name))
    ensures name !in rules && !OnlyReserved(bs) ==> ParseManifest(w, rules) == Err(UnexpectedVariable)
    ensures name !in rules && OnlyReserved(bs) && !CompleteRule(bs) ==> ParseManifest(w, rules) == Err(IncompleteRule)
  {
    hide ReadToken, ParseRuleLine, ParseBindings, OnlyReserved, CompleteRule;
  }

  /** A build line without outputs is refused. */
  lemma OutputsNeeded(x: string, rules: set<string>)
    ensures ParseBuild("build :" + x, rules) == Err(ExpectedPath)
  {
    var m := ":" + x;
    assert "build :" + x == "build" + (" " + m);
    BuildWord(" " + m);
    EatNothing(m);
    hide ReadToken, EatWhitespace, ReadPaths;
    StopIsEmptyPath(m);
    StopToken(m);
    assert ReadPaths(m) == Ok([], m);
    assert PeekToken(m, PIPE) == (false, m);
  }

  /** A comment and the end of its line are passed over. */
  lemma CommentsPassedOver(text: string, rest: string, rules: set<string>)
    requires '\n' !in text && '\0' !in text
    ensures ReadToken("#" + text + "\n" + rest) == ReadToken(rest)
    ensures forall token :: PeekToken("#" + text + "\n" + rest, token) == PeekToken(rest, token)
    ensures ParseManifest("#" + text + "\n" + rest, rules) == ParseManifest(rest, rules)
  {
    hide ReadToken;
    CommentPassedOver(text, rest);
  }

  lemma CommentPassedOver(text: string, rest: string)
    requires '\n' !in text && '\0' !in text
    ensures ReadToken("#" + text + "\n" + rest) == ReadToken(rest)
  {
    var s := "#" + text + "\n" + rest;
    hide SkipComment, At, ScanVisible, EatWhitespace;
    CommentEnds("#" + text, rest);
    assert s[0] == '#';
    assert SkipSpaces(s) == s;
    assert ScanToken(s) == ScanToken(rest);
  }

  /** A null character ends the file; a comment that it cuts off is an error. */
  lemma NullEndsTheFile(text: string, rest: string, rules: set<string>)
    requires '\n' !in text && '\0' !in text
    ensures ParseManifest("\0" + rest, rules) == Ok([], rest)
    ensures ParseManifest("#" + text + "\0" + rest, rules) == Err(UnexpectedToken(ERROR))
  {
    var s, c := "\0" + rest, "#" + text + "\0" + rest;
    hide SkipComment, EatWhitespace, ScanToken;
    NotComment(s);
    assert s[1..] == rest;
    CommentCutOff("#" + text, rest);
    assert c[0] == '#';
    CutOffToken(c);
    assert ReadToken(s).token == EOF && ReadToken(c).token == ERROR;
  }

  lemma NotComment(s: string)
    requires s != "" && s[0] == '\0'
    ensures ScanToken(s) == Lexeme(EOF, s, s[1..])
  {
    hide At, SkipComment;
    NotALineEnd(s);
  }

  lemma CutOffToken(c: string)
    requires c != "" && c[0] == '#' && SkipComment(c).Err?
    ensures ScanToken(c).token == ERROR
  {
    hide SkipComment, At;
    NotALineEnd(c);
    HashIsNoToken(c);
  }

  lemma HashIsNoToken(c: string)
    requires c != "" && c[0] == '#'
    ensures ScanVisible(c).token == ERROR
  {
    if |c| >= 2 { assert c[..2][0] == c[0]; }
  }

  lemma {:induction false} CommentCutOff(text: string, rest: string)
    requires '\n' !in text && '\0' !in text
    ensures SkipComment(text + "\0" + rest).Err?
  {
    var s := text + "\0" + rest;
    if text == "" {
      assert s[0] == '\0';
    } else {
      assert s[1..] == text[1..] + "\0" + rest && s[0] == text[0] && text[0] in text;
      CommentCutOff(text[1..], rest);
    }
  }

  lemma {:induction false} CommentEnds(text: string, rest: string)
    requires '\n' !in text && '\0' !in text
    ensures SkipComment(text + "\n" + rest) == Ok((), rest)
  {
    var s := text + "\n" + rest;
    if text == "" {
      assert s[1..] == rest;
    } else {
      assert s[1..] == text[1..] + "\n" + rest && s[0] == text[0] && text[0] in text;
      CommentEnds(text[1..], rest);
    }
  }
}
