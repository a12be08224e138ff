/** The statements that the writer puts together, and the text it writes for them. */
module BuildStatement {
  import opened PyStrings
  import opened NinjaSyntax
  import opened LineWrap

  /** An argument that may be missing, a string or a list of strings. */
  datatype Arg = NoArg | One(word: string) | Many(words: seq<string>)

  function AsList(arg: Arg): seq<string>
  {
    match arg
    case NoArg => []
    case One(word) => [word]
    case Many(words) => words
  }

  /** Python's truth value of an argument. */
  predicate Truthy(arg: Arg)
  {
    match arg
    case NoArg => false
    case One(word) => word != ""
    case Many(words) => words != []
  }

  datatype Statement = Statement(
    outputs: Arg,
    rule: string,
    inputs: Arg,
    implicitIns: Arg,
    orderOnly: Arg,
    implicitOuts: Arg,
    pool: Option<string>,
    dyndep: Option<string>,
    variables: seq<(string, Arg)>)

  function EscapeAll(paths: seq<string>): (r: seq<string>)
    ensures |r| == |paths|
    ensures forall i :: 0 <= i < |r| ==> r[i] == EscapePath(paths[i])
  {
    if paths == [] then [] else [EscapePath(paths[0])] + EscapeAll(paths[1..])
  }

  /** The words behind a marker, or none at all. */
  function Marked(marker: string, arg: Arg): seq<string>
  {
    if Truthy(arg) then [marker] + EscapeAll(AsList(arg)) else []
  }

  function OutputWords(s: Statement): seq<string>
  {
    EscapeAll(AsList(s.outputs)) + Marked("|", s.implicitOuts)
  }

  function InputWords(s: Statement): seq<string>
  {
    EscapeAll(AsList(s.inputs)) + Marked("|", s.implicitIns) + Marked("||", s.orderOnly)
  }

  /** The first line, before wrapping. */
  function BuildText(s: Statement): string
  {
    "build " + Join(OutputWords(s), " ") + ": " + Join([s.rule] + InputWords(s), " ")
  }

  function NonEmpty(words: seq<string>): seq<string>
  {
    if words == [] then []
    else if words[0] == "" then NonEmpty(words[1..])
    else [words[0]] + NonEmpty(words[1..])
  }

  /** What `variable` puts behind the equals sign. */
  function ValueText(value: Arg): string
    requires value != NoArg
  {
    if value.One? then value.word else Join(NonEmpty(value.words), " ")
  }

  /** A binding line: the pool and dyndep lines carry their indentation in the text itself. */
  datatype Binding = Binding(key: string, value: string, spelledOut: bool) {
    function Text(): string
    {
      (if spelledOut then "  " else "") + key + " = " + value
    }

    function Indent(): int { if spelledOut then 0 else 1 }

    function Output(width: int): string
    {
      LineText(Text(), Indent(), width)
    }
  }

  function VariableBindings(variables: seq<(string, Arg)>): seq<Binding>
  {
    if variables == [] then []
    else
      var (key, value) := variables[0];
      (if value == NoArg then [] else [Binding(key, ValueText(value), false)]) + VariableBindings(variables[1..])
  }

  /** A line that is written unless the argument is missing. */
  function IfSome(key: string, value: Option<string>): seq<Binding>
  {
    if value.Some? then [Binding(key, value.value, true)] else []
  }

  function Bindings(s: Statement): seq<Binding>
  {
    IfSome("pool", s.pool) + IfSome("dyndep", s.dyndep) + VariableBindings(s.variables)
  }

  function OutputLines(bindings: seq<Binding>, width: int): (r: seq<string>)
    ensures |r| == |bindings|
    ensures forall i :: 0 <= i < |r| ==> r[i] == bindings[i].Output(width)
  {
    seq(|bindings|, i requires 0 <= i < |bindings| => bindings[i].Output(width))
  }

  function BindingLines(bindings: seq<Binding>, width: int): string
  {
    Concat(OutputLines(bindings, width))
  }

  /** Everything `build` writes for a statement. */
  function BuildOutput(s: Statement, width: int): string
  {
    LineText(BuildText(s), 0, width) + BindingLines(Bindings(s), width)
  }

  lemma OutputLinesConcat(a: seq<Binding>, b: seq<Binding>, width: int)
    ensures OutputLines(a + b, width) == OutputLines(a, width) + OutputLines(b, width)
  {
    hide Binding.Output;
    var l, r := OutputLines(a + b, width), OutputLines(a, width) + OutputLines(b, width);
    forall i | 0 <= i < |l|
      ensures l[i] == r[i]
    {
      assert (a + b)[i] == if i < |a| then a[i] else b[i - |a|];
    }
  }

  lemma BindingLinesConcat(a: seq<Binding>, b: seq<Binding>, width: int)
    ensures BindingLines(a + b, width) == BindingLines(a, width) + BindingLines(b, width)
  {
    OutputLinesConcat(a, b, width);
    ConcatAppend(OutputLines(a, width), OutputLines(b, width));
  }

  lemma BindingLinesCons(b: Binding, more: seq<Binding>, width: int)
    ensures BindingLines([b] + more, width) == b.Output(width) + BindingLines(more, width)
  {
    hide Binding.Output;
    var first := [b.Output(width)];
    assert OutputLines([b] + more, width) == first + OutputLines(more, width);
    ConcatAppend(first, OutputLines(more, width));
    assert Concat(first) == b.Output(width) + Concat(first[1..]);
  }

  /** A rule statement; only the command is always written. */
  datatype Rule = Rule(
    name: string,
    command: string,
    description: Arg,
    depfile: Arg,
    generator: bool,
    pool: Arg,
    restat: bool,
    rspfile: Arg,
    rspfileContent: Arg,
    deps: Arg)

  function IfTruthy(key: string, value: Arg): seq<Binding>
  {
    if Truthy(value) then [Binding(key, ValueText(value), false)] else []
  }

  function IfSet(key: string, flag: bool): seq<Binding>
  {
    if flag then [Binding(key, "1", false)] else []
  }

  function RuleBindings(r: Rule): seq<Binding>
  {
    [Binding("command", r.command, false)]
    + IfTruthy("description", r.description) + IfTruthy("depfile", r.depfile) + IfSet("generator", r.generator)
    + IfTruthy("pool", r.pool) + IfSet("restat", r.restat) + IfTruthy("rspfile", r.rspfile)
    + IfTruthy("rspfile_content", r.rspfileContent) + IfTruthy("deps", r.deps)
  }

  function RuleOutput(r: Rule, width: int): string
  {
    LineText("rule " + r.name, 0, width) + BindingLines(RuleBindings(r), width)
  }

  /** A call of the writer. */
  datatype Item =
    | BuildItem(statement: Statement)
    | RuleItem(rule: Rule)
    | VariableItem(key: string, value: Arg)
    | NewlineItem

  function ItemOutput(item: Item, width: int): string
  {
    match item
    case BuildItem(s) => BuildOutput(s, width)
    case RuleItem(r) => RuleOutput(r, width)
    case VariableItem(key, value) => if value == NoArg then "" else LineText(key + " = " + ValueText(value), 0, width)
    case NewlineItem => "\n"
  }

  /** What a sequence of calls writes. */
  function ManifestOutput(items: seq<Item>, width: int): string
  {
    if items == [] then "" else ItemOutput(items[0], width) + ManifestOutput(items[1..], width)
  }
}
