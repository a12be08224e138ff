/** What the writer writes for a build statement, the manifest parser reads back. */
module RoundTrip {
  import opened PyStrings
  import opened NinjaSyntax
  import opened LineWrap
  import opened LogicalLines
  import opened EvalEnv
  import opened Lexer
  import opened ManifestParser
  import opened Continuations
  import opened PathCodec
  import opened Fragments
  import opened BuildStatement
  import opened PlainReading
  import opened BuildLines
  import opened BindingReading
  import opened BindingRoundTrip
  import opened Describing
  import opened Joining
  import opened Merging

  /** The paths of a statement, in the order they are written. */
  function AllPaths(s: Statement): seq<string>
  {
    AsList(s.outputs) + Listed(s.implicitOuts) + AsList(s.inputs) + Listed(s.implicitIns) + Listed(s.orderOnly)
  }

  /** An identifier for a rule, escapable paths, and at least one output. */
  predicate Sound(s: Statement)
  {
    && IsIdent(s.rule)
    && PathsOk(AsList(s.outputs)) && PathsOk(Listed(s.implicitOuts))
    && PathsOk(AsList(s.inputs)) && PathsOk(Listed(s.implicitIns)) && PathsOk(Listed(s.orderOnly))
    && |AsList(s.outputs)| + |Listed(s.implicitOuts)| > 0
  }

  predicate DollarFree(s: Statement)
  {
    forall i :: 0 <= i < |AllPaths(s)| ==> '$' !in AllPaths(s)[i]
  }

  /** The first line's words are groups of escaped paths. */
  lemma WordGroups(s: Statement)
    ensures SpaceEach(OutputWords(s)) == SpaceEach(EscapeAll(AsList(s.outputs))) + Group(true, "|", Listed(s.implicitOuts))
    ensures SpaceEach(InputWords(s))
         == SpaceEach(EscapeAll(AsList(s.inputs))) + (Group(true, "|", Listed(s.implicitIns)) + Group(true, "||", Listed(s.orderOnly)))
  {
    SpaceEachConcat(EscapeAll(AsList(s.outputs)), Marked("|", s.implicitOuts));
    GroupOf("|", s.implicitOuts);
    ThreeGroups(EscapeAll(AsList(s.inputs)), Marked("|", s.implicitIns), Marked("||", s.orderOnly));
    GroupOf("|", s.implicitIns);
    GroupOf("||", s.orderOnly);
  }

  lemma GroupOf(marker: string, arg: Arg)
    ensures SpaceEach(Marked(marker, arg)) == Group(true, marker, Listed(arg))
  {
    SpaceEachHead(marker, EscapeAll(AsList(arg)), "");
  }

  lemma ThreeGroups(a: seq<string>, b: seq<string>, c: seq<string>)
    ensures SpaceEach(a + b + c) == SpaceEach(a) + (SpaceEach(b) + SpaceEach(c))
  {
    SpaceEachConcat(a + b, c);
    SpaceEachConcat(a, b);
    Regroup(SpaceEach(a), SpaceEach(b), SpaceEach(c));
  }

  lemma BuildTextShape(s: Statement)
    requires OutputWords(s) != []
    ensures BuildText(s) == "build" + SpaceEach(OutputWords(s)) + ":" + SpaceEach([s.rule] + InputWords(s))
  {
    JoinSpaced(OutputWords(s));
    JoinSpaced([s.rule] + InputWords(s));
    SpelledLine(Join(OutputWords(s), " "), Join([s.rule] + InputWords(s), " "));
  }

  lemma SpelledLine(x: string, y: string)
    ensures "build " + x + ": " + y == "build" + (" " + x) + ":" + (" " + y)
  {
  }

  lemma OutputsThere(s: Statement)
    requires |AsList(s.outputs)| + |Listed(s.implicitOuts)| > 0
    ensures OutputWords(s) != []
  {
  }

  /** The unwrapped line, taken apart the way the parser does. */
  lemma LineShape(s: Statement, end: string)
    requires OutputWords(s) != []
    ensures BuildText(s) + end == PathsOf(s).Line(s.rule, ALL_LEADS, end)
  {
    BuildTextShape(s);
    WordGroups(s);
    SpaceEachHead(s.rule, InputWords(s), end);
    Reassociate(SpaceEach(EscapeAll(AsList(s.outputs))), Group(true, "|", Listed(s.implicitOuts)), SpaceEach([s.rule] + InputWords(s)),
                s.rule, SpaceEach(EscapeAll(AsList(s.inputs))), Group(true, "|", Listed(s.implicitIns)),
                Group(true, "||", Listed(s.orderOnly)), end);
  }

  lemma Reassociate(o: string, io: string, words: string, rule: string, i: string, im: string, oo: string, end: string)
    requires words + end == " " + (rule + ((i + (im + oo)) + end))
    ensures "build" + (o + io) + ":" + words + end
         == "build" + (o + (io + (":" + (" " + (rule + (i + (im + (oo + end))))))))
  {
    assert (i + (im + oo)) + end == i + (im + (oo + end));
    assert "build" + (o + io) + ":" + words + end == "build" + (o + (io + (":" + (words + end))));
  }

  /** Words that may stand side by side with a space between them. */
  ghost predicate WordOk(w: string, k: nat)
  {
    Fragment(w, k) && w != "" && w[0] != ' '
  }

  lemma {:induction false} WordsFragment(words: seq<string>, k: nat)
    requires forall i :: 0 <= i < |words| ==> WordOk(words[i], k)
    ensures Fragment(SpaceEach(words), k)
  {
    if words == [] {
      assert Fragment("", k);
    } else {
      assert WordOk(words[0], k);
      WordsFragment(words[1..], k);
      SeparatedFragment(words[0], k);
      FragmentConcat(" " + words[0], SpaceEach(words[1..]), k);
    }
  }

  /** Dollar runs of the escaped paths: one if the paths have no dollars, else up to three. */
  function MaxRun(s: Statement): nat { if DollarFree(s) then 1 else 3 }

  lemma PathWordOk(p: string, k: nat)
    requires PathOk(p) && (k == 3 || (k == 1 && '$' !in p))
    ensures WordOk(EscapePath(p), k)
  {
    EscapePathIsOnePass(p);
    EncodedFragment(p);
    EncodedHead(p, "");
  }

  lemma MarkerOk(marker: string, k: nat)
    requires marker == "|" || marker == "||"
    ensures WordOk(marker, k)
  {
    PlainFragment(marker, k);
    hide Fragment;
  }

  lemma MarkedFragment(marker: string, words: seq<string>, k: nat)
    requires WordOk(marker, k) && forall i :: 0 <= i < |words| ==> WordOk(words[i], k)
    ensures Fragment(SpaceEach([marker] + words), k)
  {
    hide WordOk, Fragment, SpaceEach;
    var all := [marker] + words;
    forall i | 0 <= i < |all| ensures WordOk(all[i], k) {
      if i > 0 { assert all[i] == words[i - 1]; }
    }
    WordsFragment(all, k);
  }

  lemma GroupFragment(marker: string, ps: seq<string>, k: nat)
    requires marker == "|" || marker == "||"
    requires PathsOk(ps) && (k == 3 || (k == 1 && forall i :: 0 <= i < |ps| ==> '$' !in ps[i]))
    ensures Fragment(Group(true, marker, ps), k)
    ensures Fragment(SpaceEach(EscapeAll(ps)), k)
  {
    hide WordOk, Fragment, EscapePath, SpaceEach, Group, PathOk;
    forall i | 0 <= i < |ps| ensures WordOk(EscapePath(ps[i]), k) { PathWordOk(ps[i], k); }
    MarkerOk(marker, k);
    WordsFragment(EscapeAll(ps), k);
    GroupWords(marker, ps);
    if ps == [] { WordsFragment([], k); } else { MarkedFragment(marker, EscapeAll(ps), k); }
  }

  lemma GroupWords(marker: string, ps: seq<string>)
    ensures Group(true, marker, ps) == SpaceEach(if ps == [] then [] else [marker] + EscapeAll(ps))
  {
    hide EscapeAll;
    SpaceEachHead(marker, EscapeAll(ps), "");
  }

  lemma PathsOfStatement(s: Statement)
    requires DollarFree(s)
    ensures forall i :: 0 <= i < |AsList(s.outputs)| ==> '$' !in AsList(s.outputs)[i]
    ensures forall i :: 0 <= i < |Listed(s.implicitOuts)| ==> '$' !in Listed(s.implicitOuts)[i]
    ensures forall i :: 0 <= i < |AsList(s.inputs)| ==> '$' !in AsList(s.inputs)[i]
    ensures forall i :: 0 <= i < |Listed(s.implicitIns)| ==> '$' !in Listed(s.implicitIns)[i]
    ensures forall i :: 0 <= i < |Listed(s.orderOnly)| ==> '$' !in Listed(s.orderOnly)[i]
  {
    var a, b, c, d, e := AsList(s.outputs), Listed(s.implicitOuts), AsList(s.inputs), Listed(s.implicitIns), Listed(s.orderOnly);
    var all := AllPaths(s);
    assert forall i :: 0 <= i < |a| ==> all[i] == a[i];
    assert forall i :: 0 <= i < |b| ==> all[|a| + i] == b[i];
    assert forall i :: 0 <= i < |c| ==> all[|a| + |b| + i] == c[i];
    assert forall i :: 0 <= i < |d| ==> all[|a| + |b| + |c| + i] == d[i];
    assert forall i :: 0 <= i < |e| ==> all[|a| + |b| + |c| + |d| + i] == e[i];
  }

  lemma OutputsFragment(s: Statement, k: nat)
    requires Sound(s) && k == MaxRun(s)
    ensures Fragment(SpaceEach(OutputWords(s)), k)
  {
    if DollarFree(s) { PathsOfStatement(s); }
    WordGroups(s);
    GroupFragment("|", AsList(s.outputs), k);
    GroupFragment("|", Listed(s.implicitOuts), k);
    FragmentConcat(SpaceEach(EscapeAll(AsList(s.outputs))), Group(true, "|", Listed(s.implicitOuts)), k);
  }

  lemma InputsFragment(s: Statement, k: nat)
    requires Sound(s) && k == MaxRun(s)
    ensures Fragment(SpaceEach(InputWords(s)), k)
  {
    if DollarFree(s) { PathsOfStatement(s); }
    WordGroups(s);
    GroupFragment("|", AsList(s.inputs), k);
    GroupFragment("|", Listed(s.implicitIns), k);
    GroupFragment("||", Listed(s.orderOnly), k);
    FragmentConcat(Group(true, "|", Listed(s.implicitIns)), Group(true, "||", Listed(s.orderOnly)), k);
    FragmentConcat(SpaceEach(EscapeAll(AsList(s.inputs))), Group(true, "|", Listed(s.implicitIns)) + Group(true, "||", Listed(s.orderOnly)), k);
  }

  lemma BuildTextFragment(s: Statement)
    requires Sound(s)
    ensures Fragment(BuildText(s), MaxRun(s))
  {
    OutputsThere(s);
    BuildTextShape(s);
    OutputsFragment(s, MaxRun(s));
    InputsFragment(s, MaxRun(s));
    RuleWords(s.rule, InputWords(s));
    LineFragment(SpaceEach(OutputWords(s)), s.rule, SpaceEach(InputWords(s)), MaxRun(s));
  }

  lemma LineFragment(outs: string, rule: string, ins: string, k: nat)
    requires Fragment(outs, k) && Fragment(ins, k) && IsIdent(rule)
    ensures Fragment("build" + outs + ":" + ((" " + rule) + ins), k)
  {
    PlainFragment("build", k);
    PlainFragment(":", k);
    PlainFragment(rule, k);
    SeparatedFragment(rule, k);
    FragmentConcat("build", outs, k);
    FragmentConcat("build" + outs, ":", k);
    FragmentConcat(" " + rule, ins, k);
    FragmentConcat("build" + outs + ":", (" " + rule) + ins, k);
  }

  lemma RuleWords(rule: string, words: seq<string>)
    ensures SpaceEach([rule] + words) == (" " + rule) + SpaceEach(words)
  {
    assert ([rule] + words)[1..] == words;
  }

  lemma BodyStarts(segs: seq<string>, cont: nat)
    requires |segs| > 0
    ensures At(Body(segs, cont), segs[0])
  {
    hide Spaces;
    if |segs| > 1 {
      var more := " $\n" + Spaces(cont) + Body(segs[1..], cont);
      assert Body(segs, cont) == segs[0] + more;
    }
  }

  /** The first word of a line is never broken up. */
  lemma FirstWordKept(text: string, n: nat, lead: nat, cont: nat, width: int)
    requires n <= |text| && forall i :: 0 <= i < n ==> text[i] != ' '
    ensures At(Body(Segments(text, lead, cont, width), cont), text[..n])
  {
    hide ChooseBreak, Spaces;
    var b := ChooseBreak(text, width - lead - 2);
    var segs := Segments(text, lead, cont, width);
    assert b >= 0 ==> text[b] == ' ' && b >= n;
    assert segs[0] == text || (b >= 0 && segs[0] == text[..b]);
    hide Segments;
    assert segs[0][..n] == text[..n];
    assert At(segs[0], text[..n]);
    BodyStarts(segs, cont);
  }

  lemma BuildWordFirst(s: Statement, width: int, tail: string)
    ensures At(LineText(BuildText(s), 0, width) + tail, "build")
  {
    hide LineText, At, Join, OutputWords, InputWords;
    FirstFive(Join(OutputWords(s), " "), Join([s.rule] + InputWords(s), " "));
    WordFirst(BuildText(s), 5, width, tail);
  }

  lemma FirstFive(x: string, y: string)
    ensures |"build " + x + ": " + y| >= 5 && ("build " + x + ": " + y)[..5] == "build"
  {
  }

  lemma WordFirst(text: string, n: nat, width: int, tail: string)
    requires n <= |text| && ' ' !in text[..n]
    ensures At(LineText(text, 0, width) + tail, text[..n])
  {
    hide Segments, Body;
    assert forall i :: 0 <= i < n ==> text[i] == text[..n][i];
    FirstWordKept(text, n, Lead(0), Cont(0), width);
    var body := Body(Segments(text, Lead(0), Cont(0), width), Cont(0));
    assert Spaces(Lead(0)) + body == body;
    StillAt(body, tail, text[..n]);
  }

  lemma StillAt(s: string, tail: string, prefix: string)
    requires At(s, prefix)
    ensures At(s + tail, prefix)
  {
    assert (s + tail)[..|prefix|] == s[..|prefix|];
  }

  lemma PlainLineParses(s: Statement, rules: set<string>, tail: string)
    requires Sound(s) && s.rule in rules
    ensures var start := ExpectToken(BuildText(s) + "\n" + tail, BUILD);
            start.Ok? && ParseBuildLine(start.rest, rules) == Ok(Declared(s), tail)
  {
    hide ParseBuildLine, ExpectToken, Paths.Line;
    OutputsThere(s);
    LineShape(s, "\n" + tail);
    Regroup(BuildText(s), "\n", tail);
    LineParses(PathsOf(s), s.rule, ALL_LEADS, rules, tail);
  }

  /** The writer breaks the line in front of no space, unless a marker follows that space. */
  predicate CleanLine(s: Statement, width: int)
  {
    HarmfulBreaks(BuildText(s), Lead(0), Cont(0), width) == 0
  }

  /** The writer breaks none of the statement's lines where it matters. */
  predicate CleanStatement(s: Statement, width: int)
  {
    CleanLine(s, width) && AllBindingsClean(Bindings(s), width)
  }

  /** Width 9 is enough for a first line without dollars, width 11 for all others. */
  lemma WideLinesAreClean(s: Statement, width: int)
    requires Sound(s) && width >= if DollarFree(s) then 9 else 11
    ensures CleanLine(s, width)
  {
    BuildTextFragment(s);
    FragmentShielded(BuildText(s), MaxRun(s), width - Cont(0) - 2);
    ShieldedIsClean(BuildText(s), Lead(0), Cont(0), width);
    CleanIsHarmless(BuildText(s), Lead(0), Cont(0), width);
  }

  lemma {:induction false} CleanIsHarmless(text: string, lead: nat, cont: nat, width: int)
    requires CleanBreaks(text, lead, cont, width)
    ensures HarmfulBreaks(text, lead, cont, width) == 0
    decreases |text|
  {
    var b := ChooseBreak(text, width - lead - 2);
    if lead + |text| > width && b >= 0 { CleanIsHarmless(text[b + 1..], cont, cont, width); }
  }

  lemma FragmentSpaces(f: string, k: nat)
    requires Fragment(f, k)
    ensures NoTripleSpace(f)
  {
    forall p | 0 <= p && p + 2 < |f| && f[p] == ' ' && f[p + 1] == ' '
      ensures f[p + 2] != ' '
    {
      AlignedParity(f[..p + 1]);
      assert f[..p + 1][p] == ' ';
      assert DollarRun(f[..p + 1], p + 1) == 0;
    }
  }

  /** Wrapping a build line loses one path for each harmful break, and nothing else. */
  lemma BuildLineJoined(s: Statement, width: int, tail: string) returns (h: Paths, leads: Leads)
    requires Sound(s)
    ensures var w := LineText(BuildText(s), 0, width) + tail;
            Unwrap(w) == h.Line(s.rule, leads, "\n" + tail) && Spaced(w, false)
    ensures h.Ok() && h.Count() + HarmfulBreaks(BuildText(s), Lead(0), Cont(0), width) == PathsOf(s).Count()
    ensures CleanLine(s, width) ==> h == PathsOf(s)
  {
    hide Sound, BuildText, LineText, Unwrap, Spaced, Fragment, NoTripleSpace, HarmfulBreaks, Joined, Reduces, Paths.Line;
    var text := BuildText(s);
    var j := Joined(text, Lead(0), Cont(0), width);
    SoundParts(s);
    BuildTextFragment(s);
    FragmentPlain(text, MaxRun(s));
    LineJoined(text, 0, width, tail);
    assert Spaces(Lead(0)) == "";
    FragmentSpaces(text, MaxRun(s));
    JoinedReduces(text, Lead(0), Cont(0), width);
    LineShape(s, "");
    assert text + "" == text;
    h, leads := LineMerged(PathsOf(s), s.rule, j, HarmfulBreaks(text, Lead(0), Cont(0), width));
    LineEnd(h, s.rule, leads, "\n" + tail);
    Regroup(j, "\n", tail);
  }

  lemma SoundParts(s: Statement)
    requires Sound(s)
    ensures PathsOf(s).Ok() && IsIdent(s.rule) && OutputWords(s) != []
  {
    OutputsThere(s);
  }

  lemma FragmentPlain(f: string, k: nat)
    requires Fragment(f, k)
    ensures '\n' !in f && '\r' !in f && Aligned(f)
  {
  }

  lemma BuildReadsBack(s: Statement, width: int, rules: set<string>, tail: string)
    requires Sound(s) && AllBindingsOk(Bindings(s)) && !PeekToken(tail, INDENT).0
    ensures var r, accepted := ParseBuild(BuildOutput(s, width) + tail, rules), CleanStatement(s, width) && s.rule in rules;
            && (r.Ok? && r.value == Declared(s).(bindings := ReadAll(Bindings(s))) <==> accepted)
            && (accepted ==> r.Ok? && r.rest == PeekToken(tail, INDENT).1)
            && (s.rule !in rules ==> r == Err(UnknownRule(s.rule)))
  {
    hide LineText, BuildText, BindingLines, CleanBinding, BindingOk, Sound, Unwrap, Spaced, At, ParseBuildLine, ExpectToken,
      Paths.Line, Paths.Declared, HarmfulBreaks, PathsOf;
    var more := BindingLines(Bindings(s), width) + tail;
    var w := LineText(BuildText(s), 0, width) + more;
    Regroup(LineText(BuildText(s), 0, width), BindingLines(Bindings(s), width), tail);
    var h, leads := BuildLineJoined(s, width, more);
    BuildWordFirst(s, width, more);
    BuildUnwrap(w, rules);
    SoundParts(s);
    LineParses(h, s.rule, leads, rules, more);
    BindingsParse(Bindings(s), width, tail);
    DeclaredCounts(h, PathsOf(s), s.rule);
    SameDeclaration(h.Declared(s.rule), Declared(s), ReadAll(Bindings(s)), ParseBindings(more));
  }

  lemma SameDeclaration(a: BuildDecl, b: BuildDecl, bs: seq<(string, EvalString)>, r: Result<seq<(string, EvalString)>>)
    requires a.bindings == b.bindings
    ensures r.Ok? ==> (a.(bindings := r.value) == b.(bindings := bs) <==> a == b && r.value == bs)
  {
    if r.Ok? && a.(bindings := r.value) == b.(bindings := bs) {
      assert a == a.(bindings := r.value).(bindings := b.bindings);
    }
  }

  /**
   * The round trip: whatever the writer writes for a sound statement, in front of
   * any further text that is not indented, the parser reads back as the outputs,
   * implicit outputs, rule, inputs, implicit inputs, order-only inputs and bindings
   * of that statement, each in order, exactly when its lines are broken cleanly
   * and its rule is known. It is refused because of the rule otherwise.
   */
  lemma BuildRoundTrip(s: Statement, width: int, rules: set<string>, tail: string)
    requires Sound(s) && AllBindingsOk(Bindings(s)) && !PeekToken(tail, INDENT).0
    ensures var r, accepted := ParseBuild(BuildOutput(s, width) + tail, rules), CleanStatement(s, width) && s.rule in rules;
            && (r.Ok? && Declares(s, r.value) <==> accepted)
            && (accepted ==> r.Ok? && r.rest == PeekToken(tail, INDENT).1)
            && (s.rule !in rules ==> r == Err(UnknownRule(s.rule)))
  {
    hide ParseBuild, BuildOutput, Sound, Bindings, Declares, Declared, CleanStatement, BindingOk, PeekToken;
    BuildReadsBack(s, width, rules, tail);
    var r := ParseBuild(BuildOutput(s, width) + tail, rules);
    if r.Ok? { DeclaresExactly(s, r.value); }
  }

  /** In particular at width 9 for paths without dollars and 11 for others, if values have no adjacent spaces. */
  lemma WideRoundTrip(s: Statement, width: int, rules: set<string>, tail: string)
    requires Sound(s) && s.rule in rules && width >= if DollarFree(s) then 9 else 11
    requires forall i :: 0 <= i < |Bindings(s)| ==> BindingOk(Bindings(s)[i]) && NoDoubleSpace(Bindings(s)[i].value)
    requires !PeekToken(tail, INDENT).0
    ensures var r := ParseBuild(BuildOutput(s, width) + tail, rules);
            r.Ok? && Declares(s, r.value) && r.rest == PeekToken(tail, INDENT).1
  {
    hide BindingOk, BuildOutput, ParseBuild, Declares;
    WideLinesAreClean(s, width);
    forall i | 0 <= i < |Bindings(s)| ensures CleanBinding(Bindings(s)[i], width) {
      SingleSpacesAreClean(Bindings(s)[i], width);
    }
    BuildRoundTrip(s, width, rules, tail);
  }
}
