/** The manifest writer of misc/ninja_syntax.py, writing to a growing string. */
module Writing {
  import opened PyStrings
  import opened NinjaSyntax
  import opened LineWrap
  import opened BuildStatement

  /** Writing one physical line and going on with the rest writes the same text. */
  lemma BodyStep(output: string, lead: string, text: string, b: int, cont: nat, width: int)
    requires |lead| + |text| > width
    requires b == ChooseBreak(text, width - |lead| - 2) >= 0
    ensures output + (lead + Body(Segments(text, |lead|, cont, width), cont))
         == (output + lead + text[..b] + " $\n")
            + (Spaces(cont) + Body(Segments(text[b + 1..], |Spaces(cont)|, cont, width), cont))
  {
    hide ChooseBreak, Spaces;
    var rest := Segments(text[b + 1..], cont, cont, width);
    assert Segments(text, |lead|, cont, width) == [text[..b]] + rest;
    hide Segments;
    BodyCons(text[..b], rest, cont);
    Spread(output, lead, text[..b], " $\n", Spaces(cont), Body(rest, cont));
  }

  lemma BodyCons(first: string, rest: seq<string>, cont: nat)
    requires |rest| > 0
    ensures Body([first] + rest, cont) == first + " $\n" + Spaces(cont) + Body(rest, cont)
  {
    assert ([first] + rest)[1..] == rest;
  }

  lemma Spread(a: string, b: string, c: string, d: string, e: string, f: string)
    ensures a + (b + (c + d + e + f)) == (a + b + c + d) + (e + f)
  {
  }

  /** A text that is not broken ends up on one line. */
  lemma BodyEnd(output: string, lead: string, text: string, cont: nat, width: int)
    requires |lead| + |text| <= width || ChooseBreak(text, width - |lead| - 2) < 0
    ensures output + (lead + Body(Segments(text, |lead|, cont, width), cont)) == output + lead + text + "\n"
  {
    hide ChooseBreak;
    assert Segments(text, |lead|, cont, width) == [text];
    assert Body([text], cont) == text + "\n";
    assert output + (lead + (text + "\n")) == output + lead + text + "\n";
  }

  class Writer {
    var output: string
    const width: int

    constructor (width: int)
      ensures this.width == width && output == ""
    {
      this.width := width;
      output := "";
    }

    method CountDollarsBeforeIndex(s: string, i: nat) returns (dollarCount: nat)
      requires i <= |s|
      ensures dollarCount == CountDollars(s, i)
    {
      dollarCount := 0;
      var dollarIndex: int := i - 1;
      while dollarIndex > 0 && s[dollarIndex] == '$'
        invariant -1 <= dollarIndex < i
        invariant dollarCount + CountDollars(s, dollarIndex + 1) == CountDollars(s, i)
      {
        dollarCount := dollarCount + 1;
        dollarIndex := dollarIndex - 1;
      }
    }

    /** The two inner searches of `_line`. */
    method FindBreak(text: string, available: int) returns (space: int)
      ensures space == ChooseBreak(text, available)
    {
      space := available;
      while true
        invariant forall i :: Bound(space, |text|) <= i < Bound(available, |text|) ==> !Eligible(text, i)
        invariant Bound(space, |text|) <= Bound(available, |text|)
        decreases Bound(space, |text|)
      {
        space := RFind(text, ' ', space);
        if space < 0 { break; }
        var dollars := CountDollarsBeforeIndex(text, space);
        assert Eligible(text, space) <==> dollars % 2 == 0;
        if dollars % 2 == 0 { break; }
      }
      assert space == LastEligible(text, Bound(available, |text|));
      if space < 0 {
        space := available - 1;
        while true
          invariant Bound(available, |text|) <= Bound(space + 1, |text|)
          invariant forall i :: Bound(available, |text|) <= i < Bound(space + 1, |text|) ==> !Eligible(text, i)
          decreases |text| - Bound(space + 1, |text|)
        {
          space := Find(text, ' ', space + 1);
          if space < 0 { break; }
          var dollars := CountDollarsBeforeIndex(text, space);
          assert Eligible(text, space) <==> dollars % 2 == 0;
          if dollars % 2 == 0 { break; }
        }
        assert space == FirstEligible(text, Bound(available, |text|));
      }
    }

    method Line(text: string, indent: int)
      modifies this`output
      ensures output == old(output) + LineText(text, indent, width)
    {
      hide ChooseBreak, Segments, Body;
      var rest := text;
      var leadingSpace := Spaces(Lead(indent));
      while |leadingSpace| + |rest| > width
        invariant leadingSpace == Spaces(|leadingSpace|)
        invariant output + (leadingSpace + Body(Segments(rest, |leadingSpace|, Cont(indent), width), Cont(indent)))
               == old(output) + LineText(text, indent, width)
        decreases |rest|
      {
        var space := FindBreak(rest, width - |leadingSpace| - 2);
        if space < 0 { break; }
        BodyStep(output, leadingSpace, rest, space, Cont(indent), width);
        output := output + leadingSpace + rest[..space] + " $\n";
        rest := rest[space + 1..];
        leadingSpace := Spaces(Cont(indent));
      }
      BodyEnd(output, leadingSpace, rest, Cont(indent), width);
      output := output + leadingSpace + rest + "\n";
    }

    method Variable(key: string, value: Arg, indent: int)
      modifies this`output
      ensures output == old(output) +
                        (if value == NoArg then "" else LineText(key + " = " + ValueText(value), indent, width))
    {
      if value == NoArg { return; }
      Line(key + " = " + ValueText(value), indent);
    }

    method Build(s: Statement) returns (outputs: seq<string>)
      modifies this`output
      ensures output == old(output) + BuildOutput(s, width)
      ensures match s.outputs
              case NoArg => outputs == []
              case One(word) => outputs == [word]
              case Many(words) => outputs == words
    {
      outputs := AsList(s.outputs);
      hide LineText, BuildText, BindingLines, Bindings;
      var text := FirstLine(s);
      ghost var _ := Joined(output, LineText(text, 0, width), BindingLines(Bindings(s), width));
      Line(text, 0);
      WriteBindings(s);
    }

    /** The words of the first line, gathered in two growing lists. */
    method FirstLine(s: Statement) returns (text: string)
      ensures text == BuildText(s)
    {
      var outOutputs := EscapeAll(AsList(s.outputs));
      var allInputs := EscapeAll(AsList(s.inputs));
      allInputs := AppendMarked(allInputs, "|", s.implicitIns);
      allInputs := AppendMarked(allInputs, "||", s.orderOnly);
      outOutputs := AppendMarked(outOutputs, "|", s.implicitOuts);
      text := "build " + Join(outOutputs, " ") + ": " + Join([s.rule] + allInputs, " ");
    }

    method AppendMarked(words: seq<string>, marker: string, arg: Arg) returns (r: seq<string>)
      ensures r == words + Marked(marker, arg)
    {
      r := words;
      if Truthy(arg) {
        r := r + [marker];
        r := r + EscapeAll(AsList(arg));
      }
    }

    /** A line whose indentation is part of its text. */
    method SpellOut(key: string, value: string)
      modifies this`output
      ensures output == old(output) + Binding(key, value, true).Output(width)
    {
      Line("  " + key + " = " + value, 0);
    }

    method VariableIfTruthy(key: string, value: Arg)
      modifies this`output
      ensures output == old(output) + BindingLines(IfTruthy(key, value), width)
    {
      if Truthy(value) {
        Variable(key, value, 1);
        VariableIsBinding(key, value, width);
      }
    }

    method VariableIfSet(key: string, flag: bool)
      modifies this`output
      ensures output == old(output) + BindingLines(IfSet(key, flag), width)
    {
      if flag {
        Variable(key, One("1"), 1);
        VariableIsBinding(key, One("1"), width);
      }
    }

    method Rule(r: Rule)
      modifies this`output
      ensures output == old(output) + RuleOutput(r, width)
    {
      hide LineText, BindingLines, RuleBindings;
      ghost var _ := Joined(output, LineText("rule " + r.name, 0, width), BindingLines(RuleBindings(r), width));
      Line("rule " + r.name, 0);
      WriteRuleBindings(r);
    }

    method WriteRuleBindings(r: Rule)
      modifies this`output
      ensures output == old(output) + BindingLines(RuleBindings(r), width)
    {
      hide LineText, BindingLines, IfTruthy, IfSet, RuleBindings;
      ghost var before := output;
      Variable("command", One(r.command), 1);
      VariableIsBinding("command", One(r.command), width);
      ghost var lines := BindingLines([Binding("command", r.command, false)], width);
      VariableIfTruthy("description", r.description);
      lines := Joined(before, lines, BindingLines(IfTruthy("description", r.description), width));
      VariableIfTruthy("depfile", r.depfile);
      lines := Joined(before, lines, BindingLines(IfTruthy("depfile", r.depfile), width));
      VariableIfSet("generator", r.generator);
      lines := Joined(before, lines, BindingLines(IfSet("generator", r.generator), width));
      VariableIfTruthy("pool", r.pool);
      lines := Joined(before, lines, BindingLines(IfTruthy("pool", r.pool), width));
      VariableIfSet("restat", r.restat);
      lines := Joined(before, lines, BindingLines(IfSet("restat", r.restat), width));
      VariableIfTruthy("rspfile", r.rspfile);
      lines := Joined(before, lines, BindingLines(IfTruthy("rspfile", r.rspfile), width));
      VariableIfTruthy("rspfile_content", r.rspfileContent);
      lines := Joined(before, lines, BindingLines(IfTruthy("rspfile_content", r.rspfileContent), width));
      VariableIfTruthy("deps", r.deps);
      lines := Joined(before, lines, BindingLines(IfTruthy("deps", r.deps), width));
      RuleLines(r, width);
    }

    method Newline()
      modifies this`output
      ensures output == old(output) + "\n"
    {
      output := output + "\n";
    }

    /** A generator's run: one call after the other on the same writer. */
    method WriteManifest(items: seq<Item>)
      modifies this`output
      ensures output == old(output) + ManifestOutput(items, width)
    {
      var i := 0;
      while i < |items|
        invariant 0 <= i <= |items|
        invariant output + ManifestOutput(items[i..], width) == old(output) + ManifestOutput(items, width)
      {
        ManifestStep(items, i, width);
        ghost var rest := ManifestOutput(items[i + 1..], width);
        ghost var _ := Joined(output, ItemOutput(items[i], width), rest);
        WriteItem(items[i]);
        i := i + 1;
      }
    }

    method WriteItem(item: Item)
      modifies this`output
      ensures output == old(output) + ItemOutput(item, width)
    {
      match item
      case BuildItem(s) => var _ := Build(s);
      case RuleItem(r) => Rule(r);
      case VariableItem(key, value) => Variable(key, value, 0);
      case NewlineItem => Newline();
    }

    /** The lines below the first one. */
    method WriteBindings(s: Statement)
      modifies this`output
      ensures output == old(output) + BindingLines(Bindings(s), width)
    {
      hide LineText, BindingLines, Bindings, Binding.Output, VariableBindings;
      ghost var before, lines := output, "";
      if s.pool.Some? {
        SpellOut("pool", s.pool.value);
        lines := Joined(before, lines, Binding("pool", s.pool.value, true).Output(width));
      }
      if s.dyndep.Some? {
        SpellOut("dyndep", s.dyndep.value);
        lines := Joined(before, lines, Binding("dyndep", s.dyndep.value, true).Output(width));
      }
      WriteVariables(s.variables);
      lines := Joined(before, lines, BindingLines(VariableBindings(s.variables), width));
      StatementLines(s, width);
    }

    method WriteVariables(variables: seq<(string, Arg)>)
      modifies this`output
      ensures output == old(output) + BindingLines(VariableBindings(variables), width)
    {
      assert BindingLines(VariableBindings([]), width) == "";
      hide LineText, BindingLines, VariableBindings, ValueText;
      var i := 0;
      while i < |variables|
        invariant 0 <= i <= |variables|
        invariant output + BindingLines(VariableBindings(variables[i..]), width)
               == old(output) + BindingLines(VariableBindings(variables), width)
      {
        var (key, value) := variables[i];
        VariableStep(variables[i..], width);
        assert variables[i..][1..] == variables[i + 1..];
        ghost var line := if value == NoArg then "" else LineText(key + " = " + ValueText(value), 1, width);
        ghost var _ := Joined(output, line, BindingLines(VariableBindings(variables[i + 1..]), width));
        Variable(key, value, 1);
        i := i + 1;
      }
      assert variables[i..] == [];
    }
  }

  ghost function Joined(before: string, a: string, b: string): (r: string)
    ensures before + a + b == before + r && r == a + b
  {
    assert before + a + b == before + (a + b);
    a + b
  }

  lemma ManifestStep(items: seq<Item>, i: nat, width: int)
    requires i < |items|
    ensures ManifestOutput(items[i..], width) == ItemOutput(items[i], width) + ManifestOutput(items[i + 1..], width)
  {
    assert items[i..][1..] == items[i + 1..];
  }

  lemma OneBinding(b: Binding, width: int)
    ensures BindingLines([b], width) == b.Output(width)
  {
    BindingLinesCons(b, [], width);
    assert [b] + [] == [b];
  }

  lemma VariableIsBinding(key: string, value: Arg, width: int)
    requires value != NoArg
    ensures BindingLines([Binding(key, ValueText(value), false)], width) == LineText(key + " = " + ValueText(value), 1, width)
  {
    var b := Binding(key, ValueText(value), false);
    OneBinding(b, width);
    assert b.Text() == key + " = " + ValueText(value);
  }

  /** The binding lines of a rule, one optional piece after the other. */
  lemma RuleLines(r: Rule, width: int)
    ensures BindingLines(RuleBindings(r), width)
         == BindingLines([Binding("command", r.command, false)], width)
            + BindingLines(IfTruthy("description", r.description), width) + BindingLines(IfTruthy("depfile", r.depfile), width)
            + BindingLines(IfSet("generator", r.generator), width) + BindingLines(IfTruthy("pool", r.pool), width)
            + BindingLines(IfSet("restat", r.restat), width) + BindingLines(IfTruthy("rspfile", r.rspfile), width)
            + BindingLines(IfTruthy("rspfile_content", r.rspfileContent), width) + BindingLines(IfTruthy("deps", r.deps), width)
  {
    var b1 := [Binding("command", r.command, false)];
    var b2 := b1 + IfTruthy("description", r.description);
    var b3 := b2 + IfTruthy("depfile", r.depfile);
    var b4 := b3 + IfSet("generator", r.generator);
    var b5 := b4 + IfTruthy("pool", r.pool);
    var b6 := b5 + IfSet("restat", r.restat);
    var b7 := b6 + IfTruthy("rspfile", r.rspfile);
    var b8 := b7 + IfTruthy("rspfile_content", r.rspfileContent);
    BindingLinesConcat(b1, IfTruthy("description", r.description), width);
    BindingLinesConcat(b2, IfTruthy("depfile", r.depfile), width);
    BindingLinesConcat(b3, IfSet("generator", r.generator), width);
    BindingLinesConcat(b4, IfTruthy("pool", r.pool), width);
    BindingLinesConcat(b5, IfSet("restat", r.restat), width);
    BindingLinesConcat(b6, IfTruthy("rspfile", r.rspfile), width);
    BindingLinesConcat(b7, IfTruthy("rspfile_content", r.rspfileContent), width);
    BindingLinesConcat(b8, IfTruthy("deps", r.deps), width);
  }

  /** The lines below the first one of a build statement, likewise. */
  lemma StatementLines(s: Statement, width: int)
    ensures BindingLines(Bindings(s), width)
         == "" + (if s.pool.Some? then Binding("pool", s.pool.value, true).Output(width) else "")
            + (if s.dyndep.Some? then Binding("dyndep", s.dyndep.value, true).Output(width) else "")
            + BindingLines(VariableBindings(s.variables), width)
  {
    var p := IfSome("pool", s.pool);
    var d := IfSome("dyndep", s.dyndep);
    assert Bindings(s) == p + d + VariableBindings(s.variables);
    hide BindingLines, Binding.Output, VariableBindings, Bindings;
    BindingLinesConcat(p, d, width);
    BindingLinesConcat(p + d, VariableBindings(s.variables), width);
    OptionalLine("pool", s.pool, width);
    OptionalLine("dyndep", s.dyndep, width);
    assert "" + BindingLines(p, width) == BindingLines(p, width);
  }

  lemma OptionalLine(key: string, value: Option<string>, width: int)
    ensures BindingLines(IfSome(key, value), width) == if value.Some? then Binding(key, value.value, true).Output(width) else ""
  {
    hide Binding.Output;
    if value.Some? { OneBinding(Binding(key, value.value, true), width); }
  }

  lemma VariableStep(variables: seq<(string, Arg)>, width: int)
    requires variables != []
    ensures BindingLines(VariableBindings(variables), width)
         == (var (key, value) := variables[0];
             if value == NoArg then "" else LineText(key + " = " + ValueText(value), 1, width))
            + BindingLines(VariableBindings(variables[1..]), width)
  {
    var (key, value) := variables[0];
    var first := if value == NoArg then [] else [Binding(key, ValueText(value), false)];
    assert BindingLines([], width) == "";
    assert VariableBindings(variables) == first + VariableBindings(variables[1..]);
    hide LineText, BindingLines, VariableBindings;
    BindingLinesConcat(first, VariableBindings(variables[1..]), width);
    if value != NoArg { VariableIsBinding(key, value, width); }
  }
}
