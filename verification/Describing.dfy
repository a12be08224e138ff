/**
 * What the parser has to come up with for a call of the writer, in terms of the
 * call's own arguments.
 */
module Describing {
  import opened PyStrings
  import opened NinjaSyntax
  import opened EvalEnv
  import opened Lexer
  import opened ManifestParser
  import opened BuildStatement
  import opened PlainReading
  import opened BuildLines
  import opened BindingReading
  import opened ValueLosses
  import opened LogicalLines
  import opened BindingRoundTrip

  /** The paths an optional argument contributes. */
  function Listed(arg: Arg): seq<string>
  {
    if Truthy(arg) then AsList(arg) else []
  }

  function PathsOf(s: Statement): Paths
  {
    Paths(AsList(s.outputs), Listed(s.implicitOuts), AsList(s.inputs), Listed(s.implicitIns), Listed(s.orderOnly))
  }

  /** The declaration the parser should come up with, without bindings. */
  function Declared(s: Statement): BuildDecl { PathsOf(s).Declared(s.rule) }

  /** A string stands for itself, a list for its elements, in order. */
  predicate Gives(arg: Arg, paths: seq<EvalString>)
  {
    match arg
    case NoArg => paths == []
    case One(word) => paths == [Text(word)]
    case Many(words) => |paths| == |words| && forall i :: 0 <= i < |paths| ==> paths[i] == Text(words[i])
  }

  /** An optional argument; an empty string or list is no argument. */
  function Given(arg: Arg): Arg
  {
    if arg == One("") || arg == Many([]) then NoArg else arg
  }

  lemma GivesExactly(arg: Arg, paths: seq<EvalString>)
    ensures Gives(arg, paths) <==> paths == Texts(AsList(arg))
    ensures Gives(Given(arg), paths) <==> paths == Texts(Listed(arg))
  {
  }

  /** Strings are written as they are; of a list, the strings that are not empty, with single spaces between them. */
  function Spelling(value: Arg): string
  {
    match value
    case NoArg => ""
    case One(word) => word
    case Many(words) => SpacedOut(words)
  }

  function SpacedOut(words: seq<string>): string
  {
    if words == [] then ""
    else if words[0] == "" then SpacedOut(words[1..])
    else if SpacedOut(words[1..]) == "" then words[0]
    else words[0] + " " + SpacedOut(words[1..])
  }

  lemma {:induction false} SpacedOutExactly(words: seq<string>)
    ensures SpacedOut(words) == Join(NonEmpty(words), " ") && (SpacedOut(words) == "" <==> NonEmpty(words) == [])
  {
    if words != [] {
      SpacedOutExactly(words[1..]);
      var rest := NonEmpty(words[1..]);
      if words[0] != "" {
        assert NonEmpty(words) == [words[0]] + rest && ([words[0]] + rest)[1..] == rest;
      }
    }
  }

  lemma SpellingExactly(value: Arg)
    requires value != NoArg
    ensures ValueText(value) == Spelling(value)
  {
    if value.Many? { SpacedOutExactly(value.words); }
  }

  /** How a first line looks that has everything. */
  lemma FirstLineSpelled(s: Statement, out: string, implicitOut: string, input: string, implicitIn: string, orderOnly: string)
    requires s.outputs == One(out) && s.implicitOuts == One(implicitOut) && implicitOut != "" && s.inputs == One(input)
    requires s.implicitIns == One(implicitIn) && implicitIn != "" && s.orderOnly == One(orderOnly) && orderOnly != ""
    ensures BuildText(s)
         == "build " + EscapePath(out) + " | " + EscapePath(implicitOut) + ": " + s.rule + " " + EscapePath(input)
            + " | " + EscapePath(implicitIn) + " || " + EscapePath(orderOnly)
  {
    hide EscapePath, Join;
    var o, io, i, im, oo := EscapePath(out), EscapePath(implicitOut), EscapePath(input), EscapePath(implicitIn), EscapePath(orderOnly);
    assert OutputWords(s) == [o, "|", io] && [s.rule] + InputWords(s) == [s.rule, i, "|", im, "||", oo];
    hide OutputWords, InputWords, EscapeAll;
    JoinTwo(o, "|", [io]);
    JoinTwo(s.rule, i, ["|", im, "||", oo]);
    JoinTwo("|", im, ["||", oo]);
    JoinTwo("||", oo, []);
    JoinOne(io);
    assert [o, "|"] + [io] == [o, "|", io] && ["||", oo] + [] == ["||", oo];
    assert ["|", im] + ["||", oo] == ["|", im, "||", oo];
    assert [s.rule, i] + ["|", im, "||", oo] == [s.rule, i, "|", im, "||", oo];
    Pieces(o, io, s.rule, i, im, oo);
  }

  lemma JoinOne(a: string)
    ensures Join([a], " ") == a
  {
  }

  lemma JoinTwo(a: string, b: string, rest: seq<string>)
    ensures Join([a, b] + rest, " ") == a + " " + b + if rest == [] then "" else " " + Join(rest, " ")
  {
    assert ([a, b] + rest)[1..] == [b] + rest && ([b] + rest)[1..] == rest;
    assert Join([b] + rest, " ") == if rest == [] then b else b + " " + Join(rest, " ");
  }

  lemma Pieces(o: string, io: string, rule: string, i: string, im: string, oo: string)
    ensures "build " + (o + " " + "|" + (" " + io)) + ": " + (rule + " " + i + (" " + ("|" + " " + im + (" " + ("||" + " " + oo + "")))))
         == "build " + o + " | " + io + ": " + rule + " " + i + " | " + im + " || " + oo
  {
    var ins := rule + " " + i + " | " + im + " || " + oo;
    assert rule + " " + i + (" " + ("|" + " " + im + (" " + ("||" + " " + oo + "")))) == ins by {
      assert " | " == " " + ("|" + " ") && " || " == " " + ("||" + " ");
    }
    assert o + " " + "|" + (" " + io) == o + " | " + io;
    Regroup("build ", o + " | ", io);
    Regroup("build ", o, " | ");
    Regroup("build " + o + " | " + io + ": ", rule + " " + i + " | " + im + " || ", oo);
    Regroup("build " + o + " | " + io + ": ", rule + " " + i + " | " + im, " || ");
    Regroup("build " + o + " | " + io + ": ", rule + " " + i + " | ", im);
    Regroup("build " + o + " | " + io + ": ", rule + " " + i, " | ");
    Regroup("build " + o + " | " + io + ": ", rule + " ", i);
    Regroup("build " + o + " | " + io + ": ", rule, " ");
  }

  /** The value that a text is read as when it stands on a line of its own. */
  ghost predicate ReadAs(text: string, e: EvalString)
  {
    var r := ReadVarValue(text + "\n");
    r.Ok? && r.value == e
  }

  /** The bindings are those given, in order, without the missing ones. */
  ghost predicate Binds(given: seq<(string, Arg)>, bs: seq<(string, EvalString)>)
    decreases |given|
  {
    if given == [] then bs == []
    else if given[0].1 == NoArg then Binds(given[1..], bs)
    else bs != [] && bs[0].0 == given[0].0 && ReadAs(Spelling(given[0].1), bs[0].1) && Binds(given[1..], bs[1..])
  }

  lemma {:induction false} BindsExactly(given: seq<(string, Arg)>, bs: seq<(string, EvalString)>)
    requires AllBindingsOk(VariableBindings(given))
    ensures Binds(given, bs) <==> bs == ReadAll(VariableBindings(given))
    decreases |given|
  {
    if given != [] {
      var all, rest := VariableBindings(given), VariableBindings(given[1..]);
      if given[0].1 == NoArg {
        assert all == rest;
        BindsExactly(given[1..], bs);
      } else {
        var first := Binding(given[0].0, ValueText(given[0].1), false);
        assert all == [first] + rest && all[1..] == rest;
        assert BindingOk(all[0]);
        RestOk(all);
        SpellingExactly(given[0].1);
        hide ValueText, Spelling, BindingOk;
        if bs != [] {
          BindsExactly(given[1..], bs[1..]);
          assert bs == [bs[0]] + bs[1..];
        }
        assert ReadAll(all)[1..] == ReadAll(rest);
      }
    }
  }

  lemma RestOk(bs: seq<Binding>)
    requires AllBindingsOk(bs) && bs != []
    ensures AllBindingsOk(bs[1..])
  {
    hide BindingOk;
    assert forall i :: 0 <= i < |bs[1..]| ==> bs[1..][i] == bs[i + 1];
  }

  function Optional(value: Option<string>): Arg { if value.Some? then One(value.value) else NoArg }

  /** Pool and dyndep file come before the variables. */
  function GivenOf(s: Statement): seq<(string, Arg)>
  {
    [("pool", Optional(s.pool)), ("dyndep", Optional(s.dyndep))] + s.variables
  }

  /** The command is always given, flags have the value 1. */
  function GivenOfRule(r: Rule): seq<(string, Arg)>
  {
    var yes := One("1");
    [("command", One(r.command)), ("description", Given(r.description)), ("depfile", Given(r.depfile)),
     ("generator", if r.generator then yes else NoArg), ("pool", Given(r.pool)),
     ("restat", if r.restat then yes else NoArg), ("rspfile", Given(r.rspfile)),
     ("rspfile_content", Given(r.rspfileContent)), ("deps", Given(r.deps))]
  }

  lemma {:induction false} VariableBindingsConcat(a: seq<(string, Arg)>, b: seq<(string, Arg)>)
    ensures VariableBindings(a + b) == VariableBindings(a) + VariableBindings(b)
  {
    if a == [] {
      assert a + b == b;
    } else {
      VariableBindingsConcat(a[1..], b);
      assert (a + b)[1..] == a[1..] + b && (a + b)[0] == a[0];
      hide ValueText;
      var (key, value) := a[0];
      var first := if value == NoArg then [] else [Binding(key, ValueText(value), false)];
      Regroup(first, VariableBindings(a[1..]), VariableBindings(b));
    }
  }

  lemma OneVariable(key: string, value: Arg)
    ensures VariableBindings([(key, value)]) == if value == NoArg then [] else [Binding(key, ValueText(value), false)]
  {
    assert [(key, value)][1..] == [];
  }

  lemma Truthful(key: string, value: Arg, flag: bool)
    ensures IfTruthy(key, value) == VariableBindings([(key, Given(value))])
    ensures IfSet(key, flag) == VariableBindings([(key, if flag then One("1") else NoArg)])
  {
    OneVariable(key, Given(value));
    OneVariable(key, if flag then One("1") else NoArg);
  }

  lemma RuleBindingsExactly(r: Rule)
    ensures RuleBindings(r) == VariableBindings(GivenOfRule(r))
  {
    var g := GivenOfRule(r);
    hide VariableBindings, IfTruthy, IfSet, Given;
    OneVariable("command", One(r.command));
    Truthful("description", r.description, r.generator);
    Truthful("depfile", r.depfile, r.generator);
    Truthful("generator", r.pool, r.generator);
    Truthful("pool", r.pool, r.restat);
    Truthful("restat", r.pool, r.restat);
    Truthful("rspfile", r.rspfile, r.restat);
    Truthful("rspfile_content", r.rspfileContent, r.restat);
    Truthful("deps", r.deps, r.restat);
    NinePieces(g);
  }

  lemma NinePieces(g: seq<(string, Arg)>)
    requires |g| == 9
    ensures VariableBindings(g)
         == VariableBindings([g[0]]) + VariableBindings([g[1]]) + VariableBindings([g[2]]) + VariableBindings([g[3]])
            + VariableBindings([g[4]]) + VariableBindings([g[5]]) + VariableBindings([g[6]]) + VariableBindings([g[7]])
            + VariableBindings([g[8]])
  {
    hide VariableBindings;
    LastApart(g, 1);
    LastApart(g, 2);
    LastApart(g, 3);
    LastApart(g, 4);
    LastApart(g, 5);
    LastApart(g, 6);
    LastApart(g, 7);
    LastApart(g, 8);
    assert g[..9] == g && g[..1] == [g[0]];
  }

  lemma LastApart(g: seq<(string, Arg)>, n: nat)
    requires n < |g|
    ensures VariableBindings(g[..n + 1]) == VariableBindings(g[..n]) + VariableBindings([g[n]])
  {
    hide VariableBindings;
    VariableBindingsConcat(g[..n], [g[n]]);
    assert g[..n + 1] == g[..n] + [g[n]];
  }

  lemma {:induction false} ReadAllConcat(a: seq<Binding>, b: seq<Binding>)
    requires AllBindingsOk(a + b)
    ensures AllBindingsOk(a) && AllBindingsOk(b) && ReadAll(a + b) == ReadAll(a) + ReadAll(b)
  {
    hide BindingOk;
    assert forall i :: 0 <= i < |a| ==> a[i] == (a + b)[i];
    assert forall i :: 0 <= i < |b| ==> b[i] == (a + b)[|a| + i];
    if a == [] {
      assert a + b == b;
    } else {
      RestOk(a + b);
      assert (a + b)[1..] == a[1..] + b && (a + b)[0] == a[0];
      ReadAllConcat(a[1..], b);
    }
  }

  /** Whether a line spells out its indentation makes no difference for what is read. */
  lemma SpelledAlike(key: string, value: Option<string>)
    requires AllBindingsOk(IfSome(key, value))
    ensures AllBindingsOk(VariableBindings([(key, Optional(value))]))
    ensures ReadAll(IfSome(key, value)) == ReadAll(VariableBindings([(key, Optional(value))]))
  {
    OneVariable(key, Optional(value));
    if value.Some? {
      var b := IfSome(key, value)[0];
      assert BindingOk(b);
      assert [b][1..] == [] && [b.(spelledOut := false)][1..] == [];
    }
  }

  lemma BindingsExactly(s: Statement)
    requires AllBindingsOk(Bindings(s))
    ensures AllBindingsOk(VariableBindings(GivenOf(s))) && ReadAll(VariableBindings(GivenOf(s))) == ReadAll(Bindings(s))
  {
    var pool, dyndep := IfSome("pool", s.pool), IfSome("dyndep", s.dyndep);
    var pool', dyndep' := [("pool", Optional(s.pool))], [("dyndep", Optional(s.dyndep))];
    assert GivenOf(s) == pool' + dyndep' + s.variables;
    hide IfSome, VariableBindings, BindingOk, Optional;
    VariableBindingsConcat(pool', dyndep');
    VariableBindingsConcat(pool' + dyndep', s.variables);
    ReadAllConcat(pool + dyndep, VariableBindings(s.variables));
    ReadAllConcat(pool, dyndep);
    SpelledAlike("pool", s.pool);
    SpelledAlike("dyndep", s.dyndep);
    var a, b, c := VariableBindings(pool'), VariableBindings(dyndep'), VariableBindings(s.variables);
    AllOkConcat(a, b);
    AllOkConcat(a + b, c);
    ReadAllConcat(a, b);
    ReadAllConcat(a + b, c);
  }

  lemma AllOkConcat(a: seq<Binding>, b: seq<Binding>)
    requires AllBindingsOk(a) && AllBindingsOk(b)
    ensures AllBindingsOk(a + b)
  {
    hide BindingOk;
  }

  /** A declaration that says what the statement says. */
  ghost predicate Declares(s: Statement, d: BuildDecl)
  {
    && d.implicitOuts <= |d.outs| && var n := |d.outs| - d.implicitOuts;
    && Gives(s.outputs, d.outs[..n]) && Gives(Given(s.implicitOuts), d.outs[n..])
    && d.rule == s.rule
    && Gives(s.inputs, d.explicitIns) && Gives(Given(s.implicitIns), d.implicitIns) && Gives(Given(s.orderOnly), d.orderOnlyIns)
    && d.validations == [] && Binds(GivenOf(s), d.bindings)
  }

  lemma DeclaresExactly(s: Statement, d: BuildDecl)
    requires AllBindingsOk(Bindings(s))
    ensures Declares(s, d) <==> d == Declared(s).(bindings := ReadAll(Bindings(s)))
  {
    hide Bindings, GivenOf, Gives, Given, Listed, AsList, Binds, BindingOk, ReadAll, VariableBindings, Texts;
    BindingsExactly(s);
    BindsExactly(GivenOf(s), d.bindings);
    GivesExactly(s.inputs, d.explicitIns);
    GivesExactly(s.implicitIns, d.implicitIns);
    GivesExactly(s.orderOnly, d.orderOnlyIns);
    OutputsExactly(s, d.outs, d.implicitOuts);
  }

  lemma OutputsExactly(s: Statement, outs: seq<EvalString>, n: nat)
    ensures n <= |outs| && Gives(s.outputs, outs[..|outs| - n]) && Gives(Given(s.implicitOuts), outs[|outs| - n..]) <==>
            n == |Listed(s.implicitOuts)| && outs == Texts(AsList(s.outputs)) + Texts(Listed(s.implicitOuts))
  {
    hide Gives, Given, Listed, AsList, Texts;
    var a, b := Texts(AsList(s.outputs)), Texts(Listed(s.implicitOuts));
    if n <= |outs| {
      var k := |outs| - n;
      GivesExactly(s.outputs, outs[..k]);
      GivesExactly(s.implicitOuts, outs[k..]);
      assert outs == outs[..k] + outs[k..];
      if outs == a + b && n == |b| { assert outs[..k] == a && outs[k..] == b; }
    }
  }

  /** A value that is not empty is read as one that is not. */
  lemma {:induction false} StaysNonEmpty(v: string, tail: string, eval: EvalString)
    requires OneLine(v) && Aligned(v) && (v != "" || !eval.Empty())
    ensures var r := ScanEvalString(Line(v, tail), false, eval); r.Ok? ==> !r.value.Empty()
    decreases |v|
  {
    if v == "" {
      assert Line(v, tail)[0] == '\n';
    } else if v[0] != '$' {
      hide ScanEvalString;
      OrdinaryScanned(v, tail, eval);
      OneLineRest(v, 1);
      StaysNonEmpty(v[1..], tail, eval.AddText([v[0]]));
    } else {
      assert |v| >= 2 && v[1] in v;
      EscapeNonEmpty(v, tail, eval);
    }
  }

  lemma {:induction false} EscapeNonEmpty(v: string, tail: string, eval: EvalString)
    requires OneLine(v) && Aligned(v) && |v| >= 2 && v[0] == '$' && v[1] != '\n' && v[1] != '\r'
    ensures var r := ScanEvalString(Line(v, tail), false, eval); r.Ok? ==> !r.value.Empty()
    decreases |v|, 0
  {
    hide ScanEvalString, VarLength, SimpleVarLength, Line;
    if v[1] == '$' || v[1] == ' ' || v[1] == ':' || v[1] == '^' {
      EscapeScanned(v, tail, eval);
      OneLineRest(v, 2);
      StaysNonEmpty(v[2..], tail, eval.AddText(if v[1] == '^' then "\n" else [v[1]]));
    } else if IsSimpleVarChar(v[1]) {
      var n := SimpleVarLength(v[1..]);
      ReferenceScanned(v, tail, eval);
      OneLineRest(v, n + 1);
      ReferenceAligned(v);
      StaysNonEmpty(v[n + 1..], tail, eval.AddSpecial(v[1..n + 1]));
    } else if v[1] != '{' {
      BadEscapeScanned(v, tail, eval);
    } else {
      BracesScanned(v, tail, eval);
      if Braced(v) {
        var n := VarLength(v[2..]);
        OneLineRest(v, n + 3);
        BracesAligned(v);
        StaysNonEmpty(v[n + 3..], tail, eval.AddSpecial(v[2..n + 2]));
      }
    }
  }

  lemma EmptyExactly(v: string)
    requires ValueOk(v)
    ensures ReadValue(v).Empty() <==> v == ""
  {
    assert v + "\n" == Line(v, "");
    if v == "" {
      assert Line("", "")[0] == '\n';
    } else {
      hide ScanEvalString;
      StaysNonEmpty(v, "", EMPTY);
    }
  }

  /** Looking up a key that is given once. */
  lemma {:induction false} ValueOfKey(given: seq<(string, Arg)>, i: nat)
    requires AllBindingsOk(VariableBindings(given)) && i < |given|
    requires forall j :: 0 <= j < |given| && j != i ==> given[j].0 != given[i].0
    ensures var bs, key, value := ReadAll(VariableBindings(given)), given[i].0, given[i].1;
            && (HasKey(bs, key) <==> value != NoArg)
            && (LastValue(bs, key).Empty() <==> Spelling(value) == "")
    decreases |given|
  {
    var n := |given| - 1;
    var front, last := given[..n], given[n];
    var a, b := VariableBindings(front), VariableBindings([last]);
    assert given == front + [last];
    VariableBindingsConcat(front, [last]);
    hide BindingOk, VariableBindings, LastValue, HasKey, Spelling;
    ReadAllConcat(a, b);
    LastGiven(last.0, last.1, ReadAll(a), given[i].0);
    if i < n {
      ValueOfKey(front, i);
    } else {
      KeysGiven(front, last.0);
    }
  }

  lemma LastGiven(key: string, value: Arg, bs: seq<(string, EvalString)>, wanted: string)
    requires AllBindingsOk(VariableBindings([(key, value)]))
    ensures var all := bs + ReadAll(VariableBindings([(key, value)]));
            if key == wanted && value != NoArg then HasKey(all, wanted) && (LastValue(all, wanted).Empty() <==> Spelling(value) == "")
            else (HasKey(all, wanted) <==> HasKey(bs, wanted)) && LastValue(all, wanted) == LastValue(bs, wanted)
  {
    OneVariable(key, value);
    if value == NoArg {
      assert bs + [] == bs;
    } else {
      var b := Binding(key, ValueText(value), false);
      assert BindingOk([b][0]);
      assert [b][1..] == [];
      SpellingExactly(value);
      EmptyExactly(b.value);
      var all := bs + [(key, ReadValue(b.value))];
      assert ReadAll([b]) == [(key, ReadValue(b.value))];
      assert all[..|all| - 1] == bs;
      assert forall i :: 0 <= i < |bs| ==> all[i] == bs[i];
      hide ReadAll, BindingOk, ValueText, Spelling;
      if key == wanted { assert all[|bs|].0 == wanted; }
    }
  }

  lemma {:induction false} KeysGiven(given: seq<(string, Arg)>, key: string)
    requires AllBindingsOk(VariableBindings(given)) && forall j :: 0 <= j < |given| ==> given[j].0 != key
    ensures var bs := ReadAll(VariableBindings(given)); !HasKey(bs, key) && LastValue(bs, key) == EMPTY
    decreases |given|
  {
    if given != [] {
      var n := |given| - 1;
      var front, last := given[..n], given[n];
      assert given == front + [last];
      VariableBindingsConcat(front, [last]);
      hide BindingOk, VariableBindings, LastValue, HasKey;
      ReadAllConcat(VariableBindings(front), VariableBindings([last]));
      KeysGiven(front, key);
      LastGiven(last.0, last.1, ReadAll(VariableBindings(front)), key);
    }
  }

  /** A rule needs a command, and a response file and its content come together. */
  predicate Complete(r: Rule)
  {
    && r.command != ""
    && (Given(r.rspfile) == NoArg <==> Given(r.rspfileContent) == NoArg)
    && (Spelling(Given(r.rspfile)) == "" <==> Spelling(Given(r.rspfileContent)) == "")
  }

  /** Every rule that is written has only bindings rules may have, and is accepted exactly when it is complete. */
  lemma RuleAcceptedExactlyWhen(r: Rule)
    requires AllBindingsOk(RuleBindings(r))
    ensures var bs := ReadAll(RuleBindings(r)); OnlyReserved(bs) && (CompleteRule(bs) <==> Complete(r))
  {
    hide RuleBindings, LastValue, HasKey, Given, Spelling, BindingOk, IsReservedBinding, GivenOfRule, VariableBindings;
    var g := GivenOfRule(r);
    RuleKeys(r);
    RuleBindingsExactly(r);
    ValueOfKey(g, 0);
    ValueOfKey(g, 6);
    ValueOfKey(g, 7);
    AllReserved(g);
  }

  lemma RuleKeys(r: Rule)
    ensures var g := GivenOfRule(r);
            && |g| == 9 && (forall i :: 0 <= i < |g| ==> IsReservedBinding(g[i].0))
            && (forall i, j :: 0 <= i < j < |g| ==> g[i].0 != g[j].0)
            && g[0] == ("command", One(r.command)) && Spelling(One(r.command)) == r.command
            && g[6] == ("rspfile", Given(r.rspfile)) && g[7] == ("rspfile_content", Given(r.rspfileContent))
  {
    hide Given;
    var keys := ["command", "description", "depfile", "generator", "pool", "restat", "rspfile", "rspfile_content", "deps"];
    var g := GivenOfRule(r);
    DistinctKeys(keys);
    assert forall i :: 0 <= i < |g| ==> g[i].0 == keys[i];
  }

  lemma DistinctKeys(keys: seq<string>)
    requires keys == ["command", "description", "depfile", "generator", "pool", "restat", "rspfile", "rspfile_content", "deps"]
    ensures forall i, j :: 0 <= i < j < |keys| ==> keys[i] != keys[j]
    ensures forall i :: 0 <= i < |keys| ==> IsReservedBinding(keys[i])
  {
    hide IsReservedBinding;
    assert keys[3][0] == 'g' && keys[4][0] == 'p' && keys[0][0] == 'c' && keys[5][2] == 's';
    assert keys[1][2] == 's' && keys[2][2] == 'p' && keys[8][2] == 'p';
    assert |keys[8]| == 4 && |keys[2]| == 7 && |keys[6]| == 7 && |keys[7]| == 15 && |keys[5]| == 6;
    assert keys[6][0] == 'r' && keys[7][0] == 'r' && keys[5][0] == 'r' && keys[1][0] == 'd' && keys[2][0] == 'd' && keys[8][0] == 'd';
    forall i | 0 <= i < |keys| ensures IsReservedBinding(keys[i]) { Reserved(keys[i]); }
  }

  lemma Reserved(key: string)
    requires key in ["command", "description", "depfile", "generator", "pool", "restat", "rspfile", "rspfile_content", "deps"]
    ensures IsReservedBinding(key)
  {
  }

  lemma {:induction false} AllReserved(given: seq<(string, Arg)>)
    requires AllBindingsOk(VariableBindings(given)) && forall i :: 0 <= i < |given| ==> IsReservedBinding(given[i].0)
    ensures OnlyReserved(ReadAll(VariableBindings(given)))
    decreases |given|
  {
    hide IsReservedBinding, BindingOk;
    if given != [] {
      var all, rest := VariableBindings(given), VariableBindings(given[1..]);
      if given[0].1 == NoArg {
        assert all == rest;
        AllReserved(given[1..]);
      } else {
        assert all[1..] == rest && all[0].key == given[0].0;
        RestOk(all);
        AllReserved(given[1..]);
        assert ReadAll(all)[1..] == ReadAll(rest);
      }
    }
  }
}
