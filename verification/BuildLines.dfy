/** Build lines as the parser takes them apart: groups of paths around a rule. */
module BuildLines {
  import opened PyStrings
  import opened EvalEnv
  import opened Lexer
  import opened ManifestParser
  import opened BuildStatement
  import opened PlainReading

  /** Which markers have a space in front of them. */
  datatype Leads = Leads(implicitOuts: bool, implicitIns: bool, orderOnly: bool)

  const ALL_LEADS := Leads(true, true, true)

  /** The paths of a statement. */
  datatype Paths = Paths(
    outs: seq<string>,
    implicitOuts: seq<string>,
    ins: seq<string>,
    implicitIns: seq<string>,
    orderOnly: seq<string>)
  {
    function Count(): nat { |outs| + |implicitOuts| + |ins| + |implicitIns| + |orderOnly| }

    predicate Ok()
    {
      && PathsOk(outs) && PathsOk(implicitOuts) && PathsOk(ins) && PathsOk(implicitIns) && PathsOk(orderOnly)
      && |outs| + |implicitOuts| > 0
    }

    function InputText(leads: Leads, end: string): string
    {
      SpaceEach(EscapeAll(ins))
      + (Group(leads.implicitIns, "|", implicitIns) + (Group(leads.orderOnly, "||", orderOnly) + end))
    }

    function OutputText(leads: Leads, end: string): string
    {
      SpaceEach(EscapeAll(outs)) + (Group(leads.implicitOuts, "|", implicitOuts) + end)
    }

    function Line(rule: string, leads: Leads, end: string): string
    {
      "build" + OutputText(leads, ":" + (" " + (rule + InputText(leads, end))))
    }

    /** The declaration the parser should come up with, without bindings. */
    function Declared(rule: string): BuildDecl
    {
      BuildDecl(Texts(outs) + Texts(implicitOuts), |implicitOuts|, rule,
                Texts(ins), Texts(implicitIns), Texts(orderOnly), [], [])
    }
  }

  lemma LineEnd(g: Paths, rule: string, leads: Leads, end: string)
    ensures g.Line(rule, leads, "") + end == g.Line(rule, leads, end)
  {
    hide SpaceEach, EscapeAll, Group;
    var ins := SpaceEach(EscapeAll(g.ins));
    var implicitIns, orderOnly := Group(leads.implicitIns, "|", g.implicitIns), Group(leads.orderOnly, "||", g.orderOnly);
    assert g.InputText(leads, "") + end == g.InputText(leads, end) by {
      assert orderOnly + "" == orderOnly;
      Regroup(ins, implicitIns + orderOnly, end);
      Regroup(implicitIns, orderOnly, end);
    }
    hide Paths.InputText;
    var outs, implicitOuts := SpaceEach(EscapeAll(g.outs)), Group(leads.implicitOuts, "|", g.implicitOuts);
    Appended(outs, implicitOuts, rule, g.InputText(leads, ""), end);
  }

  lemma Appended(outs: string, implicitOuts: string, rule: string, ins: string, end: string)
    ensures "build" + (outs + (implicitOuts + (":" + (" " + (rule + ins))))) + end
         == "build" + (outs + (implicitOuts + (":" + (" " + (rule + (ins + end))))))
  {
  }

  /** Declarations alike have as many paths. */
  lemma DeclaredCounts(g: Paths, h: Paths, rule: string)
    ensures g.Declared(rule).bindings == h.Declared(rule).bindings == []
    ensures g.Declared(rule) == h.Declared(rule) ==> g.Count() == h.Count()
  {
    assert g.Declared(rule) == h.Declared(rule) ==>
         |Texts(g.outs) + Texts(g.implicitOuts)| == |Texts(h.outs) + Texts(h.implicitOuts)|;
  }

  /** A line is read as its paths if the rule is known, and refused because of the rule otherwise. */
  lemma LineParses(g: Paths, rule: string, leads: Leads, rules: set<string>, tail: string)
    requires g.Ok() && IsIdent(rule)
    ensures var start := ExpectToken(g.Line(rule, leads, "\n" + tail), BUILD);
            && start.Ok?
            && ParseBuildLine(start.rest, rules) == if rule in rules then Ok(g.Declared(rule), tail) else Err(UnknownRule(rule))
  {
    var ins := g.InputText(leads, "\n" + tail);
    var m := " " + (rule + ins);
    var outs := g.OutputText(leads, ":" + m);
    hide ParseBuildLine, ExpectToken, ParseOutputs, ParseInputs, EatWhitespace;
    OutputsHead(g, leads, ":" + m);
    BuildWord(outs);
    ReadOutputs(g.outs, leads.implicitOuts, g.implicitOuts, m);
    InputsHead(g, leads, tail);
    assert Group(true, "|@", []) + ("\n" + tail) == "\n" + tail && Texts([]) == [];
    ReadInputs(g.ins, leads.implicitIns, g.implicitIns, leads.orderOnly, g.orderOnly, true, [], tail);
    LineFromParts(EatWhitespace(outs), rule, ins, tail, (Texts(g.outs) + Texts(g.implicitOuts), |g.implicitOuts|),
                  Inputs(Texts(g.ins), Texts(g.implicitIns), Texts(g.orderOnly), []), rules);
  }

  lemma LineFromParts(x: string, rule: string, ins: string, tail: string,
                      o: (seq<EvalString>, nat), i: Inputs, rules: set<string>)
    requires IsIdent(rule)
    requires ParseOutputs(x) == Ok(o, ":" + (" " + (rule + ins)))
    requires ins != "" && (ins[0] == ' ' || ins[0] == '|' || ins[0] == '\n')
    requires ParseInputs(EatWhitespace(ins)) == Ok(i, "\n" + tail)
    ensures ParseBuildLine(x, rules)
         == if rule !in rules then Err(UnknownRule(rule))
            else Ok(BuildDecl(o.0, o.1, rule, i.explicitIns, i.implicitIns, i.orderOnlyIns, i.validations, []), tail)
  {
    RuleNameRead(rule, ins, rules);
    NewlineRead(tail);
  }

  lemma RuleNameRead(rule: string, ins: string, rules: set<string>)
    requires IsIdent(rule)
    requires ins != "" && (ins[0] == ' ' || ins[0] == '|' || ins[0] == '\n')
    ensures ParseRuleName(":" + (" " + (rule + ins)), rules)
         == if rule in rules then Ok(rule, EatWhitespace(ins)) else Err(UnknownRule(rule))
  {
    hide ReadToken, ReadIdent, EatWhitespace;
    var m := " " + (rule + ins);
    StopToken(":" + m);
    assert (":" + m)[1..] == m;
    IdentStart(rule, ins);
    IdentRead(rule, ins);
  }

  lemma IdentStart(rule: string, ins: string)
    requires IsIdent(rule)
    ensures EatWhitespace(" " + (rule + ins)) == rule + ins
  {
    assert (rule + ins)[0] == rule[0];
    EatNothing(rule + ins);
  }

  lemma NewlineRead(tail: string)
    ensures ExpectToken("\n" + tail, NEWLINE) == Ok((), tail)
  {
    StopToken("\n" + tail);
    assert ("\n" + tail)[1..] == tail;
  }

  lemma OutputsHead(g: Paths, leads: Leads, end: string)
    requires |g.outs| + |g.implicitOuts| > 0
    ensures var outs := g.OutputText(leads, end); outs != "" && (outs[0] == ' ' || outs[0] == '|')
  {
    if g.outs != [] {
      WordsHead(g.outs, Group(leads.implicitOuts, "|", g.implicitOuts) + end);
    } else {
      GroupHead(leads.implicitOuts, "|", g.implicitOuts, end);
    }
  }

  lemma InputsHead(g: Paths, leads: Leads, tail: string)
    ensures var ins := g.InputText(leads, "\n" + tail); ins != "" && (ins[0] == ' ' || ins[0] == '|' || ins[0] == '\n')
  {
    var end := "\n" + tail;
    if g.ins != [] {
      WordsHead(g.ins, Group(leads.implicitIns, "|", g.implicitIns) + (Group(leads.orderOnly, "||", g.orderOnly) + end));
    } else if g.implicitIns != [] {
      GroupHead(leads.implicitIns, "|", g.implicitIns, Group(leads.orderOnly, "||", g.orderOnly) + end);
    } else if g.orderOnly != [] {
      GroupHead(leads.orderOnly, "||", g.orderOnly, end);
    }
  }
}
