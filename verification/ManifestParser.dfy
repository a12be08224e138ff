/** How internal/manifest_parser/manifest_parser.go reads a build statement and a binding. */
module ManifestParser {
  import opened EvalEnv
  import opened Lexer

  datatype BuildDecl = BuildDecl(
    outs: seq<EvalString>,
    implicitOuts: nat,
    rule: string,
    explicitIns: seq<EvalString>,
    implicitIns: seq<EvalString>,
    orderOnlyIns: seq<EvalString>,
    validations: seq<EvalString>,
    bindings: seq<(string, EvalString)>)

  /** Paths up to the first empty one. */
  function ReadPaths(s: string): (r: Result<seq<EvalString>>)
    ensures r.Ok? ==> |r.rest| <= |s|
    decreases |s|
  {
    var p := ReadPath(s);
    if p.Err? then Err(p.failure)
    else if p.value.Empty() then Ok([], p.rest)
    else
      var more := ReadPaths(p.rest);
      if more.Err? then more else more.(value := [p.value] + more.value)
  }

  /** The paths behind `marker`, or none if the marker is not there. */
  function ReadMarkedPaths(s: string, marker: Token): (r: Result<seq<EvalString>>)
    ensures r.Ok? ==> |r.rest| <= |s|
  {
    var (there, rest) := PeekToken(s, marker);
    if there then ReadPaths(rest) else Ok([], rest)
  }

  function ExpectToken(s: string, token: Token): (r: Result<()>)
    ensures r.Ok? ==> |r.rest| <= |s| && (token != EOF ==> |r.rest| < |s|)
  {
    var t := ReadToken(s);
    if t.token == token then Ok((), t.rest) else Err(Expected(token))
  }

  function ParseLet(s: string): (r: Result<(string, EvalString)>)
    ensures r.Ok? ==> |r.rest| < |s|
  {
    var key := ReadIdent(s);
    if key.Err? then Err(ExpectedVariableName) else
    var eq := ExpectToken(key.rest, EQUALS);
    if eq.Err? then Err(eq.failure) else
    var value := ReadVarValue(eq.rest);
    if value.Err? then Err(value.failure) else
    Ok((key.value, value.value), value.rest)
  }

  function ParseBindings(s: string): (r: Result<seq<(string, EvalString)>>)
    ensures r.Ok? ==> |r.rest| <= |s|
    decreases |s|
  {
    var (indented, rest) := PeekToken(s, INDENT);
    if !indented then Ok([], rest) else
    var binding := ParseLet(rest);
    if binding.Err? then Err(binding.failure) else
    var more := ParseBindings(binding.rest);
    if more.Err? then more else more.(value := [binding.value] + more.value)
  }

  /** The outputs of a build statement, and how many of them are implicit. */
  function ParseOutputs(s: string): (r: Result<(seq<EvalString>, nat)>)
    ensures r.Ok? ==> |r.rest| <= |s|
  {
    var outs := ReadPaths(s);
    if outs.Err? then Err(outs.failure) else
    var implicitOuts := ReadMarkedPaths(outs.rest, PIPE);
    if implicitOuts.Err? then Err(implicitOuts.failure) else
    if |outs.value + implicitOuts.value| == 0 then Err(ExpectedPath) else
    Ok((outs.value + implicitOuts.value, |implicitOuts.value|), implicitOuts.rest)
  }

  /** The explicit, implicit and order-only inputs and the validations, in this order. */
  datatype Inputs = Inputs(explicitIns: seq<EvalString>, implicitIns: seq<EvalString>,
                           orderOnlyIns: seq<EvalString>, validations: seq<EvalString>)

  function ParseInputs(s: string): (r: Result<Inputs>)
    ensures r.Ok? ==> |r.rest| <= |s|
  {
    var ins := ReadPaths(s);
    if ins.Err? then Err(ins.failure) else
    var implicitIns := ReadMarkedPaths(ins.rest, PIPE);
    if implicitIns.Err? then Err(implicitIns.failure) else
    var orderOnly := ReadMarkedPaths(implicitIns.rest, PIPE2);
    if orderOnly.Err? then Err(orderOnly.failure) else
    var validations := ReadMarkedPaths(orderOnly.rest, PIPEAT);
    if validations.Err? then Err(validations.failure) else
    Ok(Inputs(ins.value, implicitIns.value, orderOnly.value, validations.value), validations.rest)
  }

  function ParseRuleName(s: string, rules: set<string>): (r: Result<string>)
    ensures r.Ok? ==> |r.rest| <= |s|
  {
    var colon := ExpectToken(s, COLON);
    if colon.Err? then Err(colon.failure) else
    var rule := ReadIdent(colon.rest);
    if rule.Err? then Err(ExpectedRuleName) else
    if rule.value !in rules then Err(UnknownRule(rule.value)) else
    rule
  }

  /** The first line of a build statement, behind the word `build`. */
  function ParseBuildLine(s: string, rules: set<string>): (r: Result<BuildDecl>)
    ensures r.Ok? ==> |r.rest| <= |s|
  {
    var outs := ParseOutputs(s);
    if outs.Err? then Err(outs.failure) else
    var rule := ParseRuleName(outs.rest, rules);
    if rule.Err? then Err(rule.failure) else
    var ins := ParseInputs(rule.rest);
    if ins.Err? then Err(ins.failure) else
    var end := ExpectToken(ins.rest, NEWLINE);
    if end.Err? then Err(end.failure) else
    Ok(BuildDecl(outs.value.0, outs.value.1, rule.value, ins.value.explicitIns, ins.value.implicitIns,
                 ins.value.orderOnlyIns, ins.value.validations, []), end.rest)
  }

  /** A build statement behind the word `build`, to the last of its bindings. */
  function ParseEdge(s: string, rules: set<string>): (r: Result<BuildDecl>)
    ensures r.Ok? ==> |r.rest| <= |s|
  {
    var line := ParseBuildLine(s, rules);
    if line.Err? then line else
    var bindings := ParseBindings(line.rest);
    if bindings.Err? then Err(bindings.failure) else
    Ok(line.value.(bindings := bindings.value), bindings.rest)
  }

  /** A position at the word `build`. */
  function ParseBuild(s: string, rules: set<string>): Result<BuildDecl>
  {
    var start := ExpectToken(s, BUILD);
    if start.Err? then Err(start.failure) else ParseEdge(start.rest, rules)
  }

  predicate IsReservedBinding(key: string)
  {
    key in {"command", "depfile", "dyndep", "description", "deps", "generator", "pool", "restat",
            "rspfile", "rspfile_content", "msvc_deps_prefix"}
  }

  /** The value of a key, the last one if there are several; missing ones are empty. */
  function LastValue(bindings: seq<(string, EvalString)>, key: string): EvalString
  {
    if bindings == [] then EMPTY
    else if bindings[|bindings| - 1].0 == key then bindings[|bindings| - 1].1
    else LastValue(bindings[..|bindings| - 1], key)
  }

  predicate HasKey(bindings: seq<(string, EvalString)>, key: string)
  {
    exists i :: 0 <= i < |bindings| && bindings[i].0 == key
  }

  predicate OnlyReserved(bindings: seq<(string, EvalString)>)
  {
    forall i :: 0 <= i < |bindings| ==> IsReservedBinding(bindings[i].0)
  }

  /** A rule needs a command, and a response file and its content come together. */
  predicate CompleteRule(bindings: seq<(string, EvalString)>)
  {
    && !LastValue(bindings, "command").Empty()
    && (HasKey(bindings, "rspfile") <==> HasKey(bindings, "rspfile_content"))
    && (LastValue(bindings, "rspfile").Empty() <==> LastValue(bindings, "rspfile_content").Empty())
  }

  /** The name and the end of line of a rule statement. */
  function ParseRuleLine(s: string): (r: Result<string>)
    ensures r.Ok? ==> |r.rest| <= |s|
  {
    var name := ReadIdent(s);
    if name.Err? then Err(ExpectedRuleName) else
    var end := ExpectToken(name.rest, NEWLINE);
    if end.Err? then Err(end.failure) else
    Ok(name.value, end.rest)
  }

  /**
   * A rule behind the word `rule`. Which of two faults in its bindings is
   * reported first is not modelled.
   */
  function ParseRule(s: string, rules: set<string>): (r: Result<(string, seq<(string, EvalString)>)>)
    ensures r.Ok? ==> |r.rest| <= |s|
  {
    var name := ParseRuleLine(s);
    if name.Err? then Err(name.failure) else
    if name.value in rules then Err(DuplicateRule(name.value)) else
    var bindings := ParseBindings(name.rest);
    if bindings.Err? then Err(bindings.failure) else
    if !OnlyReserved(bindings.value) then Err(UnexpectedVariable) else
    if !CompleteRule(bindings.value) then Err(IncompleteRule) else
    Ok((name.value, bindings.value), bindings.rest)
  }

  datatype Parsed =
    | ParsedBuild(decl: BuildDecl)
    | ParsedRule(name: string, bindings: seq<(string, EvalString)>)
    | ParsedLet(key: string, value: EvalString)

  /**
   * The statements of a file, up to its end, given the rules known at its start.
   * Pools, defaults and included files are not modelled.
   */
  function ParseManifest(s: string, rules: set<string>): (r: Result<seq<Parsed>>)
    decreases |s|
  {
    var t := ReadToken(s);
    match t.token
    case EOF => Ok([], t.rest)
    case NEWLINE => ParseManifest(t.rest, rules)
    case BUILD =>
      var edge := ParseEdge(t.rest, rules);
      if edge.Err? then Err(edge.failure) else
      Prepend(ParsedBuild(edge.value), ParseManifest(edge.rest, rules))
    case RULE =>
      var rule := ParseRule(t.rest, rules);
      if rule.Err? then Err(rule.failure) else
      Prepend(ParsedRule(rule.value.0, rule.value.1), ParseManifest(rule.rest, rules + {rule.value.0}))
    case IDENT =>
      var binding := ParseLet(t.start);
      if binding.Err? then Err(binding.failure) else
      Prepend(ParsedLet(binding.value.0, binding.value.1), ParseManifest(binding.rest, rules))
    case POOL => Err(NotModelled(POOL))
    case DEFAULT => Err(NotModelled(DEFAULT))
    case INCLUDE => Err(NotModelled(INCLUDE))
    case SUBNINJA => Err(NotModelled(SUBNINJA))
    case other => Err(UnexpectedToken(other))
  }

  function Prepend(first: Parsed, more: Result<seq<Parsed>>): Result<seq<Parsed>>
  {
    if more.Err? then more else more.(value := [first] + more.value)
  }
}
