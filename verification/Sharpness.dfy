/** The widths at which every build line is read back, and what goes wrong at the others. */
module Sharpness {
  import opened PyStrings
  import opened NinjaSyntax
  import opened LineWrap
  import opened LogicalLines
  import opened Lexer
  import opened ManifestParser
  import opened Continuations
  import opened PathCodec
  import opened BuildStatement
  import opened PlainReading
  import opened BindingReading
  import opened BindingRoundTrip
  import opened Describing
  import opened RoundTrip
  import opened Fragments
  import opened LastWords

  /** A build statement with one output `a`, rule `r` and the given inputs. */
  function Small(inputs: seq<string>): Statement
  {
    Statement(One("a"), "r", Many(inputs), NoArg, NoArg, NoArg, None, None, [])
  }

  /** A plain path of the given length. */
  function Bees(n: nat): (r: string)
    ensures |r| == n && forall i :: 0 <= i < n ==> r[i] == 'b'
  {
    if n == 0 then "" else "b" + Bees(n - 1)
  }

  /** A path that is, or ends in, a single space, and how it is escaped. */
  function Blank(dollar: bool): string { if dollar then "$ " else " " }

  function EscapedBlank(dollar: bool): string { if dollar then "$$$ " else "$ " }

  lemma {:induction false} EncodeBees(n: nat)
    ensures EncodePath(Bees(n)) == Bees(n)
  {
    if n > 0 {
      EncodeBees(n - 1);
      var p := Bees(n);
      assert p[1..] == Bees(n - 1);
      assert p[0] == 'b' && [p[0]] + p[1..] == p;
      if |p| >= 2 { assert p[..2][0] == 'b'; }
    }
  }

  lemma SmallPaths(dollar: bool, n: nat)
    ensures EscapePath(Blank(dollar)) == EscapedBlank(dollar) && EscapePath(Bees(n)) == Bees(n)
    ensures EscapePath(Blank(dollar) + Bees(n)) == EscapedBlank(dollar) + Bees(n) && EscapePath("a") == "a"
  {
    var blank, p := Blank(dollar), Bees(n);
    EscapePathIsOnePass(blank);
    EscapePathIsOnePass(p);
    EscapePathIsOnePass(blank + p);
    EscapePathIsOnePass("a");
    EncodeBees(n);
    EncodeBlank(dollar, "");
    EncodeBlank(dollar, p);
    assert blank + "" == blank && EncodePath("") == "" && "a"[1..] == "";
  }

  lemma EncodeBlank(dollar: bool, p: string)
    ensures EncodePath(Blank(dollar) + p) == EscapedBlank(dollar) + EncodePath(p)
  {
    var w := Blank(dollar) + p;
    if dollar {
      assert w[..2] == "$ " && w[2..] == p;
    } else {
      assert w[0] == ' ' && w[1..] == p;
      if |w| >= 2 { assert w[..2][0] == ' '; }
    }
  }

  /** The line of a small statement, word by word. */
  function SmallLine(rest: string): string { "build" + " " + ("a:" + " " + ("r" + " " + rest)) }

  lemma SmallLineSpelled(rest: string)
    ensures "build " + "a" + ": " + ("r" + " " + rest) == SmallLine(rest)
  {
    assert "build " == "build" + " " && ": " == ":" + " " && "a:" == "a" + ":";
  }

  lemma SmallText(inputs: seq<string>)
    requires inputs != []
    ensures BuildText(Small(inputs)) == SmallLine(Join(EscapeAll(inputs), " "))
  {
    var s, ws := Small(inputs), EscapeAll(inputs);
    SmallPaths(false, 0);
    assert EscapeAll(["a"]) == ["a"];
    assert OutputWords(s) == ["a"] && InputWords(s) == ws;
    assert (["r"] + ws)[1..] == ws;
    assert Join(["r"] + ws, " ") == "r" + " " + Join(ws, " ");
    SmallLineSpelled(Join(ws, " "));
  }

  lemma TwoAndOne(dollar: bool, n: nat)
    ensures BuildText(Small([Blank(dollar), Bees(n)])) == SmallLine(EscapedBlank(dollar) + " " + Bees(n))
    ensures BuildText(Small([Blank(dollar) + Bees(n)])) == SmallLine(EscapedBlank(dollar) + Bees(n))
  {
    var h, p := EscapedBlank(dollar), Bees(n);
    SmallPaths(dollar, n);
    SmallText([Blank(dollar), p]);
    SmallText([Blank(dollar) + p]);
    assert EscapeAll([Blank(dollar), p]) == [h, p];
    assert EscapeAll([Blank(dollar) + p]) == [h + p];
    assert [h, p][1..] == [p];
  }

  ghost predicate Unwraps(x: string, u: string)
  {
    x != "" && x[0] != ' ' && Unwrap(x) == u && Spaced(x, false)
  }

  lemma Nest(a: string, b: string, c: string)
    ensures a + " $\n" + b + c == (a + " ") + ("$\n" + (b + c))
  {
    assert " $\n" == " " + "$\n";
  }

  lemma OneBreak(text: string, lead: nat, width: int, k: nat, rest: string)
    requires k < |text| && lead + |text| > width && ChooseBreak(text, width - lead - 2) == k
    requires text[k + 1..] == rest
    ensures Body(Segments(text, lead, 4, width), 4)
         == (text[..k] + " ") + ("$\n" + (Spaces(4) + Body(Segments(rest, 4, 4, width), 4)))
  {
    hide ChooseBreak, Spaces;
    var more := Segments(rest, 4, 4, width);
    assert Segments(text, lead, 4, width) == [text[..k]] + more;
    hide Segments;
    assert ([text[..k]] + more)[1..] == more;
    Nest(text[..k], Spaces(4), Body(more, 4));
  }

  lemma AlignedBees(n: nat)
    ensures Aligned(Bees(n)) && '\n' !in Bees(n) && '\r' !in Bees(n)
  {
    if n > 0 {
      AlignedBees(n - 1);
      assert Bees(n)[1..] == Bees(n - 1);
    }
  }

  lemma BeesUnwrap(n: nat)
    ensures var x := Bees(n) + "\n"; Unwrap(x) == x && Spaced(x, true)
  {
    AlignedBees(n);
    UnwrapLast(Bees(n), "");
    assert Bees(n) + "\n" + "" == Bees(n) + "\n";
    SpacedWhatever(Bees(n) + "\n");
  }

  lemma BeesAlone(n: nat, lead: nat, width: int)
    ensures Segments(Bees(n), lead, 4, width) == [Bees(n)]
  {
  }

  /** A separator at the start of a line is not seen, whether the line is broken right there or not. */
  lemma LostSeparator(n: nat, width: int)
    requires n > 0
    ensures var x := SkipSpaces(Body(Segments(" " + Bees(n), 4, 4, width), 4));
            Unwrap(x) == Bees(n) + "\n" && Spaced(x, true)
  {
    var p, text := Bees(n), " " + Bees(n);
    BeesUnwrap(n);
    assert text[1..] == p;
    if 4 + |text| <= width {
      assert Body([text], 4) == " " + (p + "\n");
      assert (" " + (p + "\n"))[1..] == p + "\n";
    } else {
      assert Eligible(text, 0);
      ChosenAt(text, width - 6, 0);
      OneBreak(text, 4, width, 0, p);
      BeesAlone(n, 4, width);
      assert text[..0] + " " == " " && Body([p], 4) == p + "\n";
      var joint := "$\n" + (Spaces(4) + (p + "\n"));
      assert (" " + joint)[1..] == joint && joint[2..] == Spaces(4) + (p + "\n");
      SkipSpacesAway(4, p + "\n");
    }
  }

  /** The two inputs that go wrong, and what is read instead. */
  function Pair(dollar: bool, n: nat): string { EscapedBlank(dollar) + " " + Bees(n) }

  function Merged(dollar: bool, n: nat): string { EscapedBlank(dollar) + Bees(n) + "\n" }

  lemma PairShape(dollar: bool, n: nat)
    ensures var x := Pair(dollar, n);
            |x| == |EscapedBlank(dollar)| + 1 + n && |x| >= 3 && x[0] == '$' && x[1] == if dollar then '$' else ' '
  {
  }

  /** The escaped space at the start of a line is taken for a separator, and the real one is lost. */
  lemma BrokenAtEscape(dollar: bool, n: nat, width: int)
    requires n > 0 && 5 + |EscapedBlank(dollar)| + n > width
    requires Bound(width - 6, |EscapedBlank(dollar)| + 1 + n) <= |EscapedBlank(dollar)|
    ensures Unwraps(Body(Segments(Pair(dollar, n), 4, 4, width), 4), Merged(dollar, n))
  {
    hide Segments, Body, ChooseBreak, Bound, Unwraps, Bees, Escaped;
    var h, p := EscapedBlank(dollar), Bees(n);
    EscapeBroken(dollar, p, width);
    LostSeparator(n, width);
    EscapedPieces();
    assert h[0] == '$' && h[|h| - 1] == ' ' && '\n' !in h && '\r' !in h;
    hide EscapedBlank, Aligned, SkipSpaces, Unwrap, Spaced;
    JointEnds(h, Body(Segments(" " + p, 4, 4, width), 4), p + "\n");
    Regroup(h, p, "\n");
  }

  lemma EscapeBroken(dollar: bool, p: string, width: int)
    requires p != "" && 5 + |EscapedBlank(dollar)| + |p| > width
    requires Bound(width - 6, |EscapedBlank(dollar)| + 1 + |p|) <= |EscapedBlank(dollar)|
    ensures Body(Segments(EscapedBlank(dollar) + " " + p, 4, 4, width), 4)
         == EscapedBlank(dollar) + ("$\n" + (Spaces(4) + Body(Segments(" " + p, 4, 4, width), 4)))
  {
    hide Segments, Body, ChooseBreak, Eligible, Bound;
    var h := EscapedBlank(dollar);
    var text, k := h + " " + p, |h| - 1;
    EscapeChosen(dollar, p);
    ChosenAt(text, width - 6, k);
    CutEscape(dollar, p);
    OneBreak(text, 4, width, k, " " + p);
  }

  lemma CutEscape(dollar: bool, p: string)
    ensures var h := EscapedBlank(dollar); var text, k := h + " " + p, |h| - 1;
            text[..k] + " " == h && text[k + 1..] == " " + p
  {
    var h := EscapedBlank(dollar);
    var text, k := h + " " + p, |h| - 1;
    assert h == h[..k] + [h[k]] && h[k] == ' ';
    assert text[..k] == h[..k];
  }

  lemma EscapeChosen(dollar: bool, p: string)
    ensures var h := EscapedBlank(dollar); var text := h + " " + p;
            Eligible(text, |h| - 1) && forall i :: 0 <= i < |h| - 1 ==> !Eligible(text, i)
  {
    var h := EscapedBlank(dollar);
    var text := h + " " + p;
    if dollar {
      assert text[0] == '$' && text[1] == '$' && text[2] == '$' && text[3] == ' ';
      assert CountDollars(text, 1) == 0 && CountDollars(text, 2) == 1;
      assert CountDollars(text, 3) == 2;
    } else {
      assert CountDollars(text, 1) == 0;
    }
  }

  lemma JointEnds(head: string, x: string, u: string)
    requires Aligned(head) && '\n' !in head && '\r' !in head && head != ""
    requires head[0] != ' ' && head[|head| - 1] == ' '
    requires Unwrap(SkipSpaces(x)) == u && Spaced(SkipSpaces(x), true)
    ensures Unwraps(head + ("$\n" + (Spaces(4) + x)), head + u)
  {
    JointSkipped(head, 4, x);
    var joint := "$\n" + (Spaces(4) + x);
    assert joint[2..] == Spaces(4) + x;
    SkipSpacesAway(4, x);
    SpacedPrefix(head, joint, false);
  }

  /** Words and single spaces, without anything special among them. */
  predicate Plain(w: string)
  {
    && w != "" && w[0] != ' '
    && forall i :: 0 <= i < |w| ==> w[i] != '$' && w[i] != '\n' && w[i] != '\r'
  }

  /** Some words in front of lines that are read as `u`, broken off behind the last of them. */
  lemma WordsInFront(words: string, rest: string, lead: nat, width: int, u: string)
    requires Plain(words) && lead + |words| + 1 + |rest| > width
    requires ChooseBreak(words + " " + rest, width - lead - 2) == |words|
    requires Unwraps(Body(Segments(rest, 4, 4, width), 4), u)
    ensures Unwraps(Body(Segments(words + " " + rest, lead, 4, width), 4), words + " " + u)
  {
    var text := words + " " + rest;
    assert text[..|words|] == words && text[|words| + 1..] == rest;
    OneBreak(text, lead, width, |words|, rest);
    hide Segments, Body, ChooseBreak;
    var x := Body(Segments(rest, 4, 4, width), 4);
    AlignedThroughSpace(words);
    SpacedWhatever(x);
    AcrossBreak(words + " ", 4, x);
  }

  /** The separator behind some words is eligible, and so are those among them. */
  lemma SeparatorEligible(words: string, rest: string)
    requires Plain(words)
    ensures Eligible(words + " " + rest, |words|)
    ensures forall i :: 0 <= i < |words| && words[i] != ' ' ==> !Eligible(words + " " + rest, i)
  {
    var text := words + " " + rest;
    assert forall i :: 0 <= i < |words| ==> text[i] == words[i];
    assert CountDollars(text, |words|) == 0;
  }

  /** Where the first lines are broken, by what comes behind them. */
  lemma TinyChoice(x: string, width: int)
    requires width <= 0 && |x| == 4 - width && x[0] == '$' && x[1] == ' '
    ensures ChooseBreak("build a: r" + " " + x, width - 2) == 10
  {
    hide ChooseBreak;
    var words := "build a: r";
    var text := words + " " + x;
    SeparatorEligible(words, x);
    assert text[10] == ' ' && text[11] == x[0] && text[12] == x[1];
    assert CountDollars(text, 11) == 0 && CountDollars(text, 12) == 1;
    assert Bound(width - 2, |text|) == 13;
    ChosenAt(text, width - 2, 10);
  }

  lemma SmallChoice(x: string, width: int)
    requires 2 <= width <= 4 && |x| == 8 - width && x[0] == '$' && x[1] == ' '
    ensures ChooseBreak("a: r" + " " + x, width - 6) == 4
  {
    hide ChooseBreak;
    var words := "a: r";
    var text := words + " " + x;
    SeparatorEligible(words, x);
    assert text[4] == ' ' && text[5] == x[0] && text[6] == x[1];
    assert CountDollars(text, 5) == 0 && CountDollars(text, 6) == 1;
    assert Bound(width - 6, |text|) == 7;
    ChosenAt(text, width - 6, 4);
  }

  /** A single word is broken off if the space behind it is the only one in range. */
  lemma WordChoice(word: string, rest: string, available: int)
    requires Plain(word) && ' ' !in word && 0 <= available <= |word| + 1 + |rest|
    requires forall i :: 0 <= i < |rest| && |word| + 1 + i < available ==> rest[i] != ' '
    ensures ChooseBreak(word + " " + rest, available) == |word|
  {
    hide ChooseBreak;
    var text := word + " " + rest;
    SeparatorEligible(word, rest);
    assert forall i :: 0 <= i < |rest| ==> text[|word| + 1 + i] == rest[i];
    assert Bound(available, |text|) == available;
    forall i | |word| < i < available ensures !Eligible(text, i) {
      assert text[i] == rest[i - |word| - 1];
    }
    ChosenAt(text, available, |word|);
  }

  /** Widths up to 0: the line is broken in front of the escaped space. */
  lemma TinyWidths(width: int)
    requires width <= 0
    ensures var n := 1 - width;
            Unwraps(Body(Segments(SmallLine(Pair(false, n)), 0, 4, width), 4), SmallLine(Merged(false, n)))
  {
    hide Segments, Body, ChooseBreak, Pair, Merged, SmallLine, Unwraps;
    var n := 1 - width;
    BrokenAtEscape(false, n, width);
    PairShape(false, n);
    var x, u := Pair(false, n), Merged(false, n);
    SmallLineWords(x);
    SmallLineWords(u);
    TinyChoice(x, width);
    WordsInFront("build a: r", x, 0, width, u);
  }

  lemma SmallLineWords(rest: string)
    ensures SmallLine(rest) == "build a: r" + " " + rest
    ensures SmallLine(rest) == "build" + " " + ("a: r" + " " + rest)
  {
    assert "build a: r" == "build" + " " + ("a:" + " " + "r") && "a: r" == "a:" + " " + "r";
  }

  /** Widths 2 to 4: first the first word alone, then the next two. */
  lemma SmallWidths(width: int)
    requires 2 <= width <= 4
    ensures var n := 5 - width;
            Unwraps(Body(Segments(SmallLine(Pair(false, n)), 0, 4, width), 4), SmallLine(Merged(false, n)))
  {
    hide Segments, Body, ChooseBreak, Pair, Merged, SmallLine, Unwraps;
    var n := 5 - width;
    BrokenAtEscape(false, n, width);
    PairShape(false, n);
    var x, u := Pair(false, n), Merged(false, n);
    SmallLineWords(x);
    SmallLineWords(u);
    SmallChoice(x, width);
    WordsInFront("a: r", x, 4, width, u);
    var text := "a: r" + " " + x;
    WordChoice("build", text, width - 2);
    WordsInFront("build", text, 0, width, "a: r" + " " + u);
  }

  /** Widths 6 to 8, and 9 and 10 for a path with a dollar: one word on each line. */
  lemma NarrowWidths(width: int, dollar: bool)
    requires if dollar then 9 <= width <= 10 else 6 <= width <= 8
    ensures var n := width - 5;
            Unwraps(Body(Segments(SmallLine(Pair(dollar, n)), 0, 4, width), 4), SmallLine(Merged(dollar, n)))
  {
    var n := width - 5;
    BrokenAtEscape(dollar, n, width);
    PairShape(dollar, n);
    hide Segments, Body, ChooseBreak, Pair, Merged, Unwraps;
    var x, u := Pair(dollar, n), Merged(dollar, n);
    WordChoice("r", x, width - 6);
    WordsInFront("r", x, 4, width, u);
    TargetAlone("r" + " " + x, width, "r" + " " + u);
  }

  lemma TargetAlone(rest: string, width: int, u: string)
    requires 6 <= width <= 10 && |rest| >= 5 && rest[0] != ' '
    requires Unwraps(Body(Segments(rest, 4, 4, width), 4), u)
    ensures Unwraps(Body(Segments("build" + " " + ("a:" + " " + rest), 0, 4, width), 4), "build" + " " + ("a:" + " " + u))
  {
    hide Segments, Body, ChooseBreak, Unwraps;
    var text := "a:" + " " + rest;
    WordChoice("a:", rest, width - 6);
    WordsInFront("a:", rest, 4, width, u);
    assert text[0] == 'a' && text[1] == ':';
    WordChoice("build", text, width - 2);
    WordsInFront("build", text, 0, width, "a:" + " " + u);
  }

  /** A width at which every build line is read back. */
  predicate Safe(width: int, dollars: bool)
  {
    width == 1 || width == 5 || width >= if dollars then 11 else 9
  }

  /** The length of the second path that makes a line go wrong. */
  function BadLength(width: int): (n: nat)
    requires !Safe(width, true)
    ensures n > 0
  {
    if width <= 0 then 1 - width else if width <= 4 then 5 - width else width - 5
  }

  lemma BadLines(width: int, dollar: bool)
    requires !Safe(width, dollar) && (dollar ==> width >= 9)
    ensures var n := BadLength(width);
            Unwraps(Body(Segments(SmallLine(Pair(dollar, n)), 0, 4, width), 4), SmallLine(Merged(dollar, n)))
  {
    hide Segments, Body, Unwraps, Pair, Merged, SmallLine;
    if width <= 0 {
      TinyWidths(width);
    } else if width <= 4 {
      SmallWidths(width);
    } else {
      NarrowWidths(width, dollar);
    }
  }

  lemma SmallSound(inputs: seq<string>)
    requires PathsOk(inputs)
    ensures Sound(Small(inputs)) && Bindings(Small(inputs)) == []
    ensures (forall i :: 0 <= i < |inputs| ==> '$' !in inputs[i]) ==> DollarFree(Small(inputs))
  {
    var s := Small(inputs);
    assert AllPaths(s) == ["a"] + inputs;
  }

  lemma SmallOutput(inputs: seq<string>, width: int)
    ensures BuildOutput(Small(inputs), width) == Body(Segments(BuildText(Small(inputs)), 0, 4, width), 4)
  {
    hide BuildText;
    var s := Small(inputs);
    assert Bindings(s) == [];
    assert BindingLines([], width) == "";
    assert Spaces(Lead(0)) == "";
  }

  /** Statements without bindings are read back, in front of whatever is not indented. */
  ghost predicate ReadBack(s: Statement, width: int)
  {
    forall rules, tail: string :: s.rule in rules && !PeekToken(tail, INDENT).0 ==>
      var r := ParseBuild(BuildOutput(s, width) + tail, rules);
      r.Ok? && Declares(s, r.value) && r.rest == PeekToken(tail, INDENT).1
  }

  /** At a width that is not safe, two inputs come back as one. */
  lemma PathsMerge(width: int, dollar: bool)
    requires !Safe(width, dollar) && (dollar ==> width >= 9)
    ensures var p := Bees(BadLength(width));
            ParseBuild(BuildOutput(Small([Blank(dollar), p]), width), {"r"}) == Ok(Declared(Small([Blank(dollar) + p])), "")
  {
    var n := BadLength(width);
    var two, one := Small([Blank(dollar), Bees(n)]), Small([Blank(dollar) + Bees(n)]);
    BlankSound(dollar, n);
    hide Segments, Body, ParseBuild, Declared, BuildText, Sound, BadLength;
    BadLines(width, dollar);
    TwoAndOne(dollar, n);
    SmallOutput([Blank(dollar), Bees(n)], width);
    LineEnds(EscapedBlank(dollar), Bees(n));
    ReadsAsOne(BuildOutput(two, width), two, one, width);
    ParsesWithoutBindings(one);
  }

  lemma LineEnds(h: string, p: string)
    ensures SmallLine(h + p + "\n") == SmallLine(h + p) + "\n"
  {
  }

  lemma BlankSound(dollar: bool, n: nat)
    requires n > 0
    ensures Sound(Small([Blank(dollar), Bees(n)])) && Sound(Small([Blank(dollar) + Bees(n)]))
    ensures Bindings(Small([Blank(dollar), Bees(n)])) == []
    ensures !dollar ==> DollarFree(Small([Blank(dollar), Bees(n)]))
  {
    hide Sound, Bindings, DollarFree, Small;
    BlankPaths(dollar, n);
    SmallSound([Blank(dollar), Bees(n)]);
    SmallSound([Blank(dollar) + Bees(n)]);
  }

  lemma BlankPaths(dollar: bool, n: nat)
    requires n > 0
    ensures PathsOk([Blank(dollar), Bees(n)]) && PathsOk([Blank(dollar) + Bees(n)])
    ensures !dollar ==> '$' !in Blank(dollar) && '$' !in Bees(n)
  {
    var p, q, r := Blank(dollar), Bees(n), Blank(dollar) + Bees(n);
    forall i | 0 <= i < |p| ensures FineAt(p, i) { }
    forall i | 0 <= i < |q| ensures FineAt(q, i) { }
    forall i | 0 <= i < |r| ensures FineAt(r, i) { assert i >= |p| ==> r[i] == q[i - |p|]; }
  }

  lemma ReadsAsOne(w: string, two: Statement, one: Statement, width: int)
    requires w == BuildOutput(two, width) && Bindings(two) == []
    requires Unwraps(w, BuildText(one) + "\n")
    ensures ParseBuild(w, {"r"}) == ParseBuild(BuildText(one) + "\n", {"r"})
  {
    hide ParseBuild, BuildText, LineText;
    BuildWordFirst(two, width, "");
    assert BindingLines([], width) == "";
    assert w == LineText(BuildText(two), 0, width) + "";
    BuildUnwrap(w, {"r"});
  }

  lemma ParsesWithoutBindings(one: Statement)
    requires Sound(one) && one.rule == "r"
    ensures ParseBuild(BuildText(one) + "\n", {"r"}) == Ok(Declared(one), "")
  {
    PlainLineParses(one, {"r"}, "");
    hide BuildText, Sound, ParseBuildLine, ExpectToken;
    assert BuildText(one) + "\n" + "" == BuildText(one) + "\n";
    NothingToBind();
  }

  lemma NothingToBind()
    ensures ParseBindings("") == Ok([], "") && PeekToken("", INDENT) == (false, "")
  {
    assert ScanToken("").token == EOF;
  }

  lemma ReadAtTheEnd(s: Statement, width: int)
    requires ReadBack(s, width) && Bindings(s) == []
    ensures ParseBuild(BuildOutput(s, width), {s.rule}) == Ok(Declared(s), "")
  {
    hide ParseBuild, Declared, BuildOutput, PeekToken, Declares, Bindings;
    WithoutBindings(s);
    NothingToBind();
    var w := BuildOutput(s, width);
    assert w + "" == w && s.rule in {s.rule};
    var r := ParseBuild(w + "", {s.rule});
    assert r.Ok? && Declares(s, r.value) && r.rest == PeekToken("", INDENT).1;
  }

  lemma WithoutBindings(s: Statement)
    requires Bindings(s) == []
    ensures forall d :: Declares(s, d) <==> d == Declared(s)
  {
    assert ReadAll([]) == [] && Declared(s).(bindings := []) == Declared(s);
    hide Bindings, Declared;
    forall d ensures Declares(s, d) <==> d == Declared(s) { DeclaresExactly(s, d); }
  }

  lemma NotTheSame(a: string, b: string, c: string)
    ensures Declared(Small([a, b])) != Declared(Small([c]))
  {
    assert |Declared(Small([a, b])).explicitIns| == 2 && |Declared(Small([c])).explicitIns| == 1;
  }

  lemma NotReadBack(width: int, dollar: bool)
    requires !Safe(width, dollar) && (dollar ==> width >= 9)
    ensures !ReadBack(Small([Blank(dollar), Bees(BadLength(width))]), width)
  {
    assert Bindings(Small([Blank(dollar), Bees(BadLength(width))])) == [];
    hide ParseBuild, Declared, BuildOutput, BadLength, Bees, ReadBack, Blank, Bindings;
    var p := Bees(BadLength(width));
    var two := Small([Blank(dollar), p]);
    PathsMerge(width, dollar);
    NotTheSame(Blank(dollar), p, Blank(dollar) + p);
    if ReadBack(two, width) { ReadAtTheEnd(two, width); }
  }

  lemma SafeIsReadBack(s: Statement, width: int)
    requires Sound(s) && Bindings(s) == [] && Safe(width, !DollarFree(s))
    ensures ReadBack(s, width)
  {
    if width == 1 {
      CleanAtOne(s);
      CleanIsHarmless(BuildText(s), 0, 4, width);
    } else if width == 5 {
      CleanAtFive(s);
      CleanIsHarmless(BuildText(s), 0, 4, width);
    } else {
      WideLinesAreClean(s, width);
    }
    hide ParseBuild, BuildOutput, Sound, CleanLine, Safe, Declares;
    forall rules, tail: string | s.rule in rules && !PeekToken(tail, INDENT).0
      ensures var r := ParseBuild(BuildOutput(s, width) + tail, rules);
              r.Ok? && Declares(s, r.value) && r.rest == PeekToken(tail, INDENT).1
    {
      BuildRoundTrip(s, width, rules, tail);
    }
  }

  /**
   * The widths at which every sound statement without bindings is read back are
   * exactly 1, 5 and those from 9 on if its paths have no dollars, and 1, 5 and
   * those from 11 on otherwise.
   */
  lemma SafeExactlyWhen(width: int)
    ensures Safe(width, false) <==>
            forall s: Statement :: Sound(s) && Bindings(s) == [] && DollarFree(s) ==> ReadBack(s, width)
    ensures Safe(width, true) <==>
            forall s: Statement :: Sound(s) && Bindings(s) == [] ==> ReadBack(s, width)
  {
    hide Sound, ReadBack, Bindings, DollarFree, Small, BadLength, Bees;
    forall s: Statement | Sound(s) && Bindings(s) == [] && Safe(width, !DollarFree(s)) ensures ReadBack(s, width) {
      SafeIsReadBack(s, width);
    }
    if !Safe(width, false) {
      NotReadBack(width, false);
      BlankSound(false, BadLength(width));
    } else if !Safe(width, true) {
      NotReadBack(width, true);
      BlankSound(true, BadLength(width));
    }
  }

  /** A binding whose value has two adjacent spaces, the first of them at the end of the line. */
  function TwoSpaced(width: int): Binding
    requires width >= 10
  {
    Binding("k", Bees(width - 9) + "  " + Bees(width), false)
  }

  lemma {:induction false} NothingDoubled(s: string)
    requires '$' !in s
    ensures Doubled(s) == s
  {
    if s != "" {
      assert s[0] in s;
      NothingDoubled(s[1..]);
      DoubledHead(s);
      hide Doubled;
      assert s == [s[0]] + s[1..];
    }
  }

  lemma TwoSpacedOk(width: int)
    requires width >= 10
    ensures BindingOk(TwoSpaced(width))
  {
    hide ValueOk, Escape;
    var v := TwoSpaced(width).value;
    assert forall i :: 0 <= i < |v| ==> v[i] == 'b' || v[i] == ' ';
    assert v[0] == Bees(width - 9)[0];
    EscapedValueReads(v);
    NothingDoubled(v);
    EscapeDoubles(v);
  }

  lemma EscapeDoubles(s: string)
    requires '\n' !in s
    ensures Escape(s) == Some(Doubled(s))
  {
  }

  /** At every width from 10 on, the default one included, such a value does not come back as it was. */
  lemma AdjacentSpacesLost(width: int, tail: string)
    requires width >= 10
    ensures BindingOk(TwoSpaced(width))
    ensures var b := TwoSpaced(width);
            ParseLet(PeekToken(b.Output(width) + tail, INDENT).1) != Ok((b.key, ReadValue(b.value)), tail)
  {
    TwoSpacedOk(width);
    BrokenBetweenSpaces(width);
    hide ParseLet, PeekToken, CleanBinding, TwoSpaced, BindingOk;
    BindingParses(TwoSpaced(width), width, tail);
  }

  lemma BrokenBetweenSpaces(width: int)
    requires width >= 10
    ensures !CleanBinding(TwoSpaced(width), width)
  {
    var b := TwoSpaced(width);
    var text, k := b.Text(), width - 5;
    assert text == "k = " + (Bees(width - 9) + ("  " + Bees(width)));
    assert text[k] == ' ' && text[k + 1] == ' ' && text[k - 1] == 'b';
    assert Eligible(text, k);
    ChosenAt(text, width - 4, k);
  }
}
