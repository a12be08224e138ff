/** Whole manifests: any sequence of writer calls is read back statement by statement. */
module ManifestRoundTrip {
  import opened PyStrings
  import opened LineWrap
  import opened LogicalLines
  import opened EvalEnv
  import opened Lexer
  import opened ManifestParser
  import opened Continuations
  import opened BuildStatement
  import opened PlainReading
  import opened BuildLines
  import opened BindingReading
  import opened BindingRoundTrip
  import opened Joining
  import opened Describing
  import opened RoundTrip

  /** A call whose result the parser should accept where these rules are known. */
  ghost predicate ItemOk(item: Item, rules: set<string>)
  {
    match item
    case BuildItem(s) => Sound(s) && s.rule in rules && AllBindingsOk(Bindings(s))
    case RuleItem(r) =>
      IsIdent(r.name) && r.name !in rules && AllBindingsOk(RuleBindings(r)) && Complete(r)
    case VariableItem(key, value) =>
      value == NoArg || (IsIdent(key) && Keyword(key) == IDENT && ValueOk(Spelling(value)))
    case NewlineItem => true
  }

  function RulesAfter(item: Item, rules: set<string>): set<string>
  {
    if item.RuleItem? then rules + {item.rule.name} else rules
  }

  ghost predicate AllOk(items: seq<Item>, rules: set<string>)
    decreases |items|
  {
    items == [] || (ItemOk(items[0], rules) && AllOk(items[1..], RulesAfter(items[0], rules)))
  }

  /** The writer breaks none of the call's lines where it matters. */
  predicate CleanItem(item: Item, width: int)
  {
    match item
    case BuildItem(s) => CleanStatement(s, width)
    case RuleItem(r) => AllBindingsClean(RuleBindings(r), width)
    case VariableItem(key, value) =>
      value == NoArg || CleanBreaks(key + " = " + Spelling(value), Lead(0), Cont(0), width)
    case NewlineItem => true
  }

  /** Widths and values for which that is so in any case. */
  ghost predicate PlainItem(item: Item, width: int)
  {
    && (item.BuildItem? ==> width >= if DollarFree(item.statement) then 9 else 11)
    && match item
       case BuildItem(s) => forall i :: 0 <= i < |Bindings(s)| ==> NoDoubleSpace(Bindings(s)[i].value)
       case RuleItem(r) => forall i :: 0 <= i < |RuleBindings(r)| ==> NoDoubleSpace(RuleBindings(r)[i].value)
       case VariableItem(key, value) => value == NoArg || NoDoubleSpace(Spelling(value))
       case NewlineItem => true
  }

  /** What the parser should make of a call. */
  ghost function Reading(item: Item, rules: set<string>): seq<Parsed>
    requires ItemOk(item, rules)
  {
    match item
    case BuildItem(s) => [ParsedBuild(Declared(s).(bindings := ReadAll(Bindings(s))))]
    case RuleItem(r) => [ParsedRule(r.name, ReadAll(RuleBindings(r)))]
    case VariableItem(key, value) => if value == NoArg then [] else [ParsedLet(key, ReadValue(Spelling(value)))]
    case NewlineItem => []
  }

  ghost function Readings(items: seq<Item>, rules: set<string>): seq<Parsed>
    requires AllOk(items, rules)
    decreases |items|
  {
    if items == [] then [] else Reading(items[0], rules) + Readings(items[1..], RulesAfter(items[0], rules))
  }

  /** A parsed statement that says what the call says. */
  ghost predicate Describes(item: Item, p: Parsed)
  {
    match item
    case BuildItem(s) => p.ParsedBuild? && Declares(s, p.decl)
    case RuleItem(r) => p.ParsedRule? && p.name == r.name && Binds(GivenOfRule(r), p.bindings)
    case VariableItem(key, value) => p.ParsedLet? && p.key == key && ReadAs(Spelling(value), p.value)
    case NewlineItem => false
  }

  /** Calls that write no statement. */
  predicate SaysNothing(item: Item) { item.NewlineItem? || (item.VariableItem? && item.value == NoArg) }

  /** The statements are those of the calls, in order. */
  ghost predicate DescribesAll(items: seq<Item>, ps: seq<Parsed>)
    decreases |items|
  {
    if items == [] then ps == []
    else if SaysNothing(items[0]) then DescribesAll(items[1..], ps)
    else ps != [] && Describes(items[0], ps[0]) && DescribesAll(items[1..], ps[1..])
  }

  lemma DescribesExactly(item: Item, p: Parsed, rules: set<string>)
    requires ItemOk(item, rules) && !SaysNothing(item)
    ensures Describes(item, p) <==> [p] == Reading(item, rules)
  {
    hide Declares, Binds, BindingOk, Bindings, RuleBindings, GivenOfRule, Declared, ReadVarValue;
    match item
    case BuildItem(s) => if p.ParsedBuild? { DeclaresExactly(s, p.decl); }
    case RuleItem(r) =>
      RuleBindingsExactly(r);
      if p.ParsedRule? { BindsExactly(GivenOfRule(r), p.bindings); }
    case VariableItem(key, value) =>
  }

  lemma {:induction false} DescribesAllExactly(items: seq<Item>, ps: seq<Parsed>, rules: set<string>)
    requires AllOk(items, rules)
    ensures DescribesAll(items, ps) <==> ps == Readings(items, rules)
    decreases |items|
  {
    if items != [] {
      var item, rest, rules' := items[0], items[1..], RulesAfter(items[0], rules);
      NothingRead(item, rules);
      hide ItemOk, Reading, Describes;
      if SaysNothing(item) {
        DescribesAllExactly(rest, ps, rules');
        assert [] + Readings(rest, rules') == Readings(rest, rules');
      } else if ps != [] {
        DescribesExactly(item, ps[0], rules);
        DescribesAllExactly(rest, ps[1..], rules');
        OneAndRest(ps, Reading(item, rules), Readings(rest, rules'));
      }
    }
  }

  lemma NothingRead(item: Item, rules: set<string>)
    requires ItemOk(item, rules)
    ensures |Reading(item, rules)| == if SaysNothing(item) then 0 else 1
  {
  }

  lemma OneAndRest<T>(all: seq<T>, first: seq<T>, rest: seq<T>)
    requires all != [] && |first| == 1
    ensures all == first + rest <==> [all[0]] == first && all[1..] == rest
  {
    assert all == [all[0]] + all[1..];
    if all == first + rest { assert all[1..] == rest && first == [all[0]]; }
  }

  /** Text that does not continue a statement above it. */
  predicate Unindented(s: string)
  {
    PeekToken(s, INDENT) == (false, s)
  }

  lemma HeadUnindented(w: string)
    requires w == "" || w[0] == '\n' || IsVarChar(w[0])
    ensures Unindented(w)
  {
    if w != "" { ScanAtOnce(w); }
  }

  /** The parser's step over one statement. */
  ghost predicate Reads(w: string, rules: set<string>, first: seq<Parsed>, rest: string, rules': set<string>)
  {
    var more := ParseManifest(rest, rules');
    ParseManifest(w, rules) == if more.Err? then more else Ok(first + more.value, more.rest)
  }

  /** The first statement of a file, if the file can be read. */
  ghost predicate Begins(w: string, rules: set<string>, first: Parsed)
  {
    var r := ParseManifest(w, rules);
    r.Ok? && r.value != [] && r.value[0] == first
  }

  lemma NewlineReads(tail: string, rules: set<string>)
    ensures Reads("\n" + tail, rules, [], tail, rules)
  {
    NewlineStep(tail, rules);
    hide ParseManifest;
    var more := ParseManifest(tail, rules);
    assert more.Ok? ==> [] + more.value == more.value;
  }

  lemma NewlineStep(tail: string, rules: set<string>)
    ensures ParseManifest("\n" + tail, rules) == ParseManifest(tail, rules)
  {
    hide ReadToken;
    StopToken("\n" + tail);
    assert ("\n" + tail)[1..] == tail;
  }

  lemma NothingReads(tail: string, rules: set<string>)
    ensures Reads("" + tail, rules, [], tail, rules)
  {
    assert "" + tail == tail;
    var more := ParseManifest(tail, rules);
    assert more.Ok? ==> [] + more.value == more.value;
  }

  lemma BuildReads(s: Statement, width: int, rules: set<string>, tail: string)
    requires ItemOk(BuildItem(s), rules) && CleanItem(BuildItem(s), width) && Unindented(tail)
    ensures Reads(BuildOutput(s, width) + tail, rules, Reading(BuildItem(s), rules), tail, rules)
  {
    hide BuildOutput, ParseBuild, CleanStatement, Reads, Sound, PeekToken;
    BuildReadsBack(s, width, rules, tail);
    BuildStep(BuildOutput(s, width) + tail, rules);
  }

  lemma BuildStep(w: string, rules: set<string>)
    requires ParseBuild(w, rules).Ok?
    ensures var r := ParseBuild(w, rules); Reads(w, rules, [ParsedBuild(r.value)], r.rest, rules)
  {
  }

  lemma BuildLost(s: Statement, width: int, rules: set<string>, tail: string)
    requires ItemOk(BuildItem(s), rules) && !CleanItem(BuildItem(s), width) && Unindented(tail)
    ensures !Begins(BuildOutput(s, width) + tail, rules, Reading(BuildItem(s), rules)[0])
  {
    hide BuildOutput, ParseBuild, CleanStatement, Sound, PeekToken, ReadToken;
    BuildReadsBack(s, width, rules, tail);
    BuildSeen(s, width, rules, tail);
    BuildBegins(BuildOutput(s, width) + tail, rules);
  }

  lemma BuildBegins(w: string, rules: set<string>)
    requires ReadToken(w).token == BUILD
    ensures var r, m := ParseBuild(w, rules), ParseManifest(w, rules);
            m.Ok? ==> r.Ok? && m.value != [] && m.value[0] == ParsedBuild(r.value)
  {
    hide ReadToken, ParseEdge;
  }

  lemma BuildSeen(s: Statement, width: int, rules: set<string>, tail: string)
    requires ItemOk(BuildItem(s), rules)
    ensures ReadToken(BuildOutput(s, width) + tail).token == BUILD
  {
    hide LineText, BuildText, BindingLines, Sound, Unwrap, Spaced, At, Paths.OutputText, ReadToken;
    var more := BindingLines(Bindings(s), width) + tail;
    var w := LineText(BuildText(s), 0, width) + more;
    Regroup(LineText(BuildText(s), 0, width), BindingLines(Bindings(s), width), tail);
    var h, leads := BuildLineJoined(s, width, more);
    BuildWordFirst(s, width, more);
    FirstAt(w, "build");
    TokenUnwrap(w);
    var outs := h.OutputText(leads, ":" + (" " + (s.rule + h.InputText(leads, "\n" + more))));
    OutputsHead(h, leads, ":" + (" " + (s.rule + h.InputText(leads, "\n" + more))));
    BuildWord(outs);
  }

  lemma FirstAt(w: string, prefix: string)
    requires At(w, prefix) && prefix != ""
    ensures w != "" && w[0] == prefix[0]
  {
    assert w[0] == w[..|prefix|][0];
  }

  lemma RuleLineText(name: string, width: int, more: string)
    requires IsIdent(name)
    ensures var w := LineText("rule " + name, 0, width) + more;
            Unwrap(w) == "rule" + (" " + (name + ("\n" + more))) && Spaced(w, false)
  {
    RuleTextPlain(name);
    WrappingIsTransparent("rule " + name, 0, width, more);
    RuleTextShape(name, more);
  }

  lemma RuleTextPlain(name: string)
    requires IsIdent(name)
    ensures var t := "rule " + name; '\n' !in t && '\r' !in t && Aligned(t) && NoDoubleSpace(t)
  {
    var text := "rule " + name;
    assert text == "rule" + (" " + name);
    IdentAligned("rule", " " + name);
    assert (" " + name)[1..] == name;
    IdentAligned(name, "");
    assert name + "" == name;
  }

  lemma RuleTextShape(name: string, more: string)
    ensures Spaces(Lead(0)) + ("rule " + name) + "\n" + more == "rule" + (" " + (name + ("\n" + more)))
  {
    assert Spaces(0) == "" && "rule " == "rule" + " ";
  }

  lemma RuleWordRead(w: string, name: string, more: string)
    requires IsIdent(name) && Spaced(w, false)
    requires Unwrap(w) == "rule" + (" " + (name + ("\n" + more)))
    ensures ReadToken(w).token == RULE && ParseRuleLine(ReadToken(w).rest) == Ok(name, more)
  {
    assert (name + ("\n" + more))[0] == name[0];
    EatNothing(name + ("\n" + more));
    assert (" " + (name + ("\n" + more)))[1..] == name + ("\n" + more);
    RuleWordSeen(w, name + ("\n" + more));
    hide ReadToken, Unwrap, Spaced;
    NameLineRead(ReadToken(w).rest, name, more);
  }

  lemma RuleWordSeen(w: string, x: string)
    requires Spaced(w, false) && Unwrap(w) == "rule" + (" " + x) && EatWhitespace(" " + x) == x
    ensures ReadToken(w).token == RULE && Unwrap(ReadToken(w).rest) == x && Spaced(ReadToken(w).rest, false)
  {
    HeadUnwrap(w);
    hide Unwrap, Spaced, ReadToken, EatWhitespace;
    TokenUnwrap(w);
    WordToken("rule", " " + x);
  }

  lemma NameLineRead(x: string, name: string, more: string)
    requires IsIdent(name) && Spaced(x, false) && Unwrap(x) == name + ("\n" + more)
    ensures ParseRuleLine(x) == Ok(name, more)
  {
    hide Unwrap, Spaced, ReadIdent, ExpectToken;
    NewlineEaten(more);
    IdentRead(name, "\n" + more);
    IdentUnwrap(x);
    HeadOfRest(x, '\n');
    RuleLineUnwrap(x);
    NewlineRead(more);
  }

  lemma NewlineEaten(more: string)
    ensures EatWhitespace("\n" + more) == "\n" + more && At("\n" + more, "\n")
  {
    EatNothing("\n" + more);
    assert ("\n" + more)[..1] == "\n";
  }

  lemma RuleReads(r: Rule, width: int, rules: set<string>, tail: string)
    requires ItemOk(RuleItem(r), rules) && CleanItem(RuleItem(r), width) && Unindented(tail)
    ensures Reads(RuleOutput(r, width) + tail, rules, Reading(RuleItem(r), rules), tail, rules + {r.name})
  {
    hide LineText, BindingLines, ReadToken, ParseRuleLine, ParseBindings, Unwrap, Spaced, Reads, CleanBinding;
    var more := BindingLines(RuleBindings(r), width) + tail;
    var w := LineText("rule " + r.name, 0, width) + more;
    Regroup(LineText("rule " + r.name, 0, width), BindingLines(RuleBindings(r), width), tail);
    RuleLineText(r.name, width, more);
    RuleWordRead(w, r.name, more);
    BindingsParse(RuleBindings(r), width, tail);
    RuleAcceptedExactlyWhen(r);
    RuleStep(w, rules, r.name, more, ReadAll(RuleBindings(r)), tail);
  }

  lemma RuleStep(w: string, rules: set<string>, name: string, more: string, bs: seq<(string, EvalString)>, tail: string)
    requires ReadToken(w).token == RULE && ParseRuleLine(ReadToken(w).rest) == Ok(name, more)
    requires name !in rules && ParseBindings(more) == Ok(bs, tail) && OnlyReserved(bs) && CompleteRule(bs)
    ensures Reads(w, rules, [ParsedRule(name, bs)], tail, rules + {name})
  {
    hide ReadToken, ParseRuleLine, ParseBindings, OnlyReserved, CompleteRule;
    assert ParseRule(ReadToken(w).rest, rules) == Ok((name, bs), tail);
    hide ParseRule;
  }

  lemma RuleLost(r: Rule, width: int, rules: set<string>, tail: string)
    requires ItemOk(RuleItem(r), rules) && !CleanItem(RuleItem(r), width) && Unindented(tail)
    ensures !Begins(RuleOutput(r, width) + tail, rules, Reading(RuleItem(r), rules)[0])
  {
    hide LineText, BindingLines, ReadToken, ParseRuleLine, ParseBindings, Unwrap, Spaced, CleanBinding, ParseManifest,
      CompleteRule, OnlyReserved, PeekToken;
    var more := BindingLines(RuleBindings(r), width) + tail;
    var w := LineText("rule " + r.name, 0, width) + more;
    Regroup(LineText("rule " + r.name, 0, width), BindingLines(RuleBindings(r), width), tail);
    RuleLineText(r.name, width, more);
    RuleWordRead(w, r.name, more);
    BindingsParse(RuleBindings(r), width, tail);
    RuleBegins(w, rules, r.name, more);
  }

  lemma RuleBegins(w: string, rules: set<string>, name: string, more: string)
    requires ReadToken(w).token == RULE && ParseRuleLine(ReadToken(w).rest) == Ok(name, more)
    ensures var r, m := ParseBindings(more), ParseManifest(w, rules);
            m.Ok? ==> r.Ok? && m.value != [] && m.value[0] == ParsedRule(name, r.value)
  {
    hide ReadToken, ParseRuleLine, ParseBindings, OnlyReserved, CompleteRule;
  }

  /** A top-level variable, too, is read back exactly when its line is broken cleanly. */
  lemma VariableParses(key: string, v: string, width: int, tail: string)
    requires IsIdent(key) && Keyword(key) == IDENT && ValueOk(v)
    ensures var w := LineText(key + " = " + v, 0, width) + tail;
            var clean := CleanBreaks(key + " = " + v, Lead(0), Cont(0), width);
            && ReadToken(w).token == IDENT && ReadToken(w).start == w
            && (ParseLet(w).Ok? && ParseLet(w).value == (key, ReadValue(v)) <==> clean)
            && (clean ==> ParseLet(w).Ok? && ParseLet(w).rest == tail)
  {
    hide LineText, Unwrap, Spaced, Joined, Reduces, CleanBreaks, ParseLet, ReadIdent, ReadToken, ValueOk, Keyword, Aligned;
    var text := key + " = " + v;
    var w, j := LineText(text, 0, width) + tail, Joined(text, Lead(0), Cont(0), width);
    LetTextPlain(key, v);
    LineJoined(text, 0, width, tail);
    JoinedShorter(text, Lead(0), Cont(0), width);
    var k := JoinedThinner(text, Lead(0), Cont(0), width);
    var v' := LetThinned(key, v, j, false, k);
    var x := j + "\n" + tail;
    assert Spaces(Lead(0)) + x == x;
    LetLine(key, v', tail);
    LetWordRead(w, key, " " + ("=" + (" " + (v' + "\n" + tail))));
    LossSeen(key, v, v', k, tail);
    JoinedLet(w, x);
  }

  lemma VariableReads(key: string, v: string, width: int, rules: set<string>, tail: string)
    requires IsIdent(key) && Keyword(key) == IDENT && ValueOk(v)
    ensures var w, first := LineText(key + " = " + v, 0, width) + tail, ParsedLet(key, ReadValue(v));
            if CleanBreaks(key + " = " + v, Lead(0), Cont(0), width) then Reads(w, rules, [first], tail, rules)
            else !Begins(w, rules, first)
  {
    hide LineText, CleanBreaks, ParseLet, ReadToken, Keyword, ValueOk, Reads;
    VariableParses(key, v, width, tail);
    var w := LineText(key + " = " + v, 0, width) + tail;
    if ParseLet(w).Ok? { LetStep(w, rules); }
    LetBegins(w, rules);
  }

  lemma LetBegins(w: string, rules: set<string>)
    requires ReadToken(w).token == IDENT && ReadToken(w).start == w
    ensures var r, m := ParseLet(w), ParseManifest(w, rules);
            m.Ok? ==> r.Ok? && m.value != [] && m.value[0] == ParsedLet(r.value.0, r.value.1)
  {
    hide ReadToken, ParseLet;
  }

  lemma LetLine(key: string, v: string, tail: string)
    ensures key + " = " + v + "\n" + tail == key + (" " + ("=" + (" " + (v + "\n" + tail))))
  {
    assert " = " == " " + ("=" + " ");
  }

  lemma LetWordRead(w: string, key: string, x: string)
    requires IsIdent(key) && Keyword(key) == IDENT && x != "" && x[0] == ' '
    requires Spaced(w, false) && Unwrap(w) == key + x
    ensures ReadToken(w).token == IDENT && ReadToken(w).start == w
  {
    HeadUnwrap(w);
    assert (key + x)[0] == key[0];
    hide Unwrap, Spaced, Keyword, ReadToken;
    TokenUnwrap(w);
    WordToken(key, x);
  }

  lemma LetStep(w: string, rules: set<string>)
    requires ReadToken(w).token == IDENT && ReadToken(w).start == w && ParseLet(w).Ok?
    ensures var r := ParseLet(w); Reads(w, rules, [ParsedLet(r.value.0, r.value.1)], r.rest, rules)
  {
  }

  lemma VariableOutput(key: string, value: Arg, width: int)
    requires value != NoArg
    ensures ItemOutput(VariableItem(key, value), width) == LineText(key + " = " + Spelling(value), 0, width)
  {
    hide LineText, ValueText, Spelling;
    SpellingExactly(value);
  }

  /** A call with an unclean line is read as something else, or not at all. */
  lemma ItemLost(item: Item, width: int, rules: set<string>, tail: string)
    requires ItemOk(item, rules) && !CleanItem(item, width) && Unindented(tail)
    ensures Reading(item, rules) != [] && !Begins(ItemOutput(item, width) + tail, rules, Reading(item, rules)[0])
  {
    hide LineText, BuildOutput, RuleOutput, Spelling, ValueText, Begins, CleanStatement, CleanBreaks, ValueOk, BindingOk;
    match item
    case BuildItem(s) => BuildLost(s, width, rules, tail);
    case RuleItem(r) => RuleLost(r, width, rules, tail);
    case VariableItem(key, value) =>
      VariableOutput(key, value, width);
      VariableReads(key, Spelling(value), width, rules, tail);
    case NewlineItem =>
  }

  lemma ItemReads(item: Item, width: int, rules: set<string>, tail: string)
    requires ItemOk(item, rules) && CleanItem(item, width) && Unindented(tail)
    ensures Reads(ItemOutput(item, width) + tail, rules, Reading(item, rules), tail, RulesAfter(item, rules))
  {
    hide LineText, BuildOutput, RuleOutput, Spelling, ValueText, Reads, CleanStatement, CleanBreaks, ValueOk, BindingOk;
    match item
    case BuildItem(s) => BuildReads(s, width, rules, tail);
    case RuleItem(r) => RuleReads(r, width, rules, tail);
    case VariableItem(key, value) =>
      if value == NoArg {
        NothingReads(tail, rules);
      } else {
        VariableOutput(key, value, width);
        VariableReads(key, Spelling(value), width, rules, tail);
      }
    case NewlineItem => NewlineReads(tail, rules);
  }

  /** Every call's output starts a line of its own. */
  lemma LetHead(key: string, value: string, width: int, tail: string)
    requires IsIdent(key)
    ensures Unindented(LineText(key + " = " + value, 0, width) + tail)
  {
    hide LineText, Unindented, At;
    var text := key + " = " + value;
    assert text[..|key|] == key;
    WordFirst(text, |key|, width, tail);
    FirstAt(LineText(text, 0, width) + tail, key);
    HeadUnindented(LineText(text, 0, width) + tail);
  }

  lemma BuildHead(s: Statement, width: int, tail: string)
    ensures Unindented(BuildOutput(s, width) + tail)
  {
    hide LineText, BindingLines, BuildText, Bindings, Unindented;
    var w := BuildOutput(s, width) + tail;
    BuildWordFirst(s, width, BindingLines(Bindings(s), width) + tail);
    Regroup(LineText(BuildText(s), 0, width), BindingLines(Bindings(s), width), tail);
    assert w[0] == w[..5][0];
    HeadUnindented(w);
  }

  lemma RuleHead(r: Rule, width: int, tail: string)
    requires IsIdent(r.name)
    ensures Unindented(RuleOutput(r, width) + tail)
  {
    hide LineText, BindingLines, RuleBindings, Unindented, Spaced, Unwrap;
    var w := RuleOutput(r, width) + tail;
    RuleLineText(r.name, width, BindingLines(RuleBindings(r), width) + tail);
    Regroup(LineText("rule " + r.name, 0, width), BindingLines(RuleBindings(r), width), tail);
    HeadUnwrap(w);
    HeadUnindented(w);
  }

  lemma ItemHead(item: Item, width: int, rules: set<string>, tail: string)
    requires ItemOk(item, rules) && Unindented(tail)
    ensures Unindented(ItemOutput(item, width) + tail)
  {
    hide LineText, BuildOutput, RuleOutput, ValueText, Spelling, Unindented;
    match item
    case BuildItem(s) => BuildHead(s, width, tail);
    case RuleItem(r) => RuleHead(r, width, tail);
    case VariableItem(key, value) =>
      if value == NoArg {
        assert "" + tail == tail;
      } else {
        VariableOutput(key, value, width);
        LetHead(key, Spelling(value), width, tail);
      }
    case NewlineItem => HeadUnindented("\n" + tail);
  }

  lemma {:induction false} ManifestUnindented(items: seq<Item>, width: int, rules: set<string>)
    requires AllOk(items, rules)
    ensures Unindented(ManifestOutput(items, width))
    decreases |items|
  {
    if items == [] {
      HeadUnindented("");
    } else {
      ManifestUnindented(items[1..], width, RulesAfter(items[0], rules));
      ItemHead(items[0], width, rules, ManifestOutput(items[1..], width));
    }
  }

  predicate AllClean(items: seq<Item>, width: int)
  {
    forall i :: 0 <= i < |items| ==> CleanItem(items[i], width)
  }

  lemma {:induction false} ManifestReads(items: seq<Item>, width: int, rules: set<string>)
    requires AllOk(items, rules)
    ensures ParseManifest(ManifestOutput(items, width), rules) == Ok(Readings(items, rules), "") <==> AllClean(items, width)
    decreases |items|
  {
    hide ItemOk, CleanItem, ItemOutput, Reading, ParseManifest, Reads;
    if items == [] {
      EmptyIsRead(rules);
    } else {
      var rest, rules' := ManifestOutput(items[1..], width), RulesAfter(items[0], rules);
      ManifestReads(items[1..], width, rules');
      ManifestUnindented(items[1..], width, rules');
      CleanItems(items, width);
      if CleanItem(items[0], width) {
        ItemReads(items[0], width, rules, rest);
        StepExact(items, width, rules);
      } else {
        ItemLost(items[0], width, rules, rest);
        assert Readings(items, rules)[0] == Reading(items[0], rules)[0];
      }
    }
  }

  lemma EmptyIsRead(rules: set<string>)
    ensures ParseManifest("", rules) == Ok([], "")
  {
    assert ReadToken("").token == EOF;
  }

  lemma CleanItems(items: seq<Item>, width: int)
    requires items != []
    ensures AllClean(items, width) <==> CleanItem(items[0], width) && AllClean(items[1..], width)
  {
    hide CleanItem;
    assert forall i :: 1 <= i < |items| ==> items[i] == items[1..][i - 1];
  }

  lemma StepExact(items: seq<Item>, width: int, rules: set<string>)
    requires AllOk(items, rules) && items != []
    requires var rest, rules' := ManifestOutput(items[1..], width), RulesAfter(items[0], rules);
             Reads(ItemOutput(items[0], width) + rest, rules, Reading(items[0], rules), rest, rules')
    ensures var rules' := RulesAfter(items[0], rules);
            ParseManifest(ManifestOutput(items, width), rules) == Ok(Readings(items, rules), "") <==>
            ParseManifest(ManifestOutput(items[1..], width), rules') == Ok(Readings(items[1..], rules'), "")
  {
    hide ItemOk, ItemOutput, Reading, ParseManifest;
    var rules' := RulesAfter(items[0], rules);
    var more := ParseManifest(ManifestOutput(items[1..], width), rules');
    if more.Ok? { SameSuffix(Reading(items[0], rules), more.value, Readings(items[1..], rules')); }
  }

  /**
   * The manifest round trip: any sequence of acceptable build, rule, variable
   * and newline calls on one writer produces a file that the parser reads to its
   * end, as exactly those statements in that order, if and only if their lines
   * are broken cleanly.
   */
  lemma ManifestIsReadBack(items: seq<Item>, width: int, rules: set<string>)
    requires AllOk(items, rules)
    ensures var r := ParseManifest(ManifestOutput(items, width), rules);
            r.Ok? && DescribesAll(items, r.value) && r.rest == "" <==> AllClean(items, width)
  {
    hide ParseManifest, ManifestOutput, AllOk, AllClean, DescribesAll, Readings;
    ManifestReads(items, width, rules);
    var r := ParseManifest(ManifestOutput(items, width), rules);
    if r.Ok? { DescribesAllExactly(items, r.value, rules); }
  }

  lemma PlainIsClean(item: Item, rules: set<string>, width: int)
    requires ItemOk(item, rules) && PlainItem(item, width)
    ensures CleanItem(item, width)
  {
    match item
    case BuildItem(s) =>
      WideLinesAreClean(s, width);
      forall i | 0 <= i < |Bindings(s)| ensures CleanBinding(Bindings(s)[i], width) {
        SingleSpacesAreClean(Bindings(s)[i], width);
      }
    case RuleItem(r) =>
      forall i | 0 <= i < |RuleBindings(r)| ensures CleanBinding(RuleBindings(r)[i], width) {
        SingleSpacesAreClean(RuleBindings(r)[i], width);
      }
    case VariableItem(key, value) =>
      if value != NoArg {
        LetSingleSpaced(key, Spelling(value));
        ShieldedIsClean(key + " = " + Spelling(value), Lead(0), Cont(0), width);
      }
    case NewlineItem =>
  }

  lemma {:induction false} AllPlainAreClean(items: seq<Item>, width: int, rules: set<string>)
    requires AllOk(items, rules) && forall i :: 0 <= i < |items| ==> PlainItem(items[i], width)
    ensures AllClean(items, width)
    decreases |items|
  {
    hide CleanItem, PlainItem, ItemOk;
    if items != [] {
      PlainIsClean(items[0], rules, width);
      AllPlainAreClean(items[1..], width, RulesAfter(items[0], rules));
      CleanItems(items, width);
    }
  }

  /** In particular if values have no adjacent spaces, at any width from 11 on, or from 9 on if no path has a dollar. */
  lemma PlainManifestIsReadBack(items: seq<Item>, width: int, rules: set<string>)
    requires AllOk(items, rules) && forall i :: 0 <= i < |items| ==> PlainItem(items[i], width)
    ensures var r := ParseManifest(ManifestOutput(items, width), rules);
            r.Ok? && DescribesAll(items, r.value) && r.rest == ""
  {
    hide DescribesAll;
    AllPlainAreClean(items, width, rules);
    ManifestIsReadBack(items, width, rules);
  }
}
