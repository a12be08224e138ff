/** Widths 1 and 5, at which the writer happens to break a build line only in safe places. */
module LastWords {
  import opened PyStrings
  import opened NinjaSyntax
  import opened LineWrap
  import opened LogicalLines
  import opened Fragments
  import opened BuildStatement
  import opened PlainReading
  import opened Describing
  import opened RoundTrip

  lemma EscapedNotEligible(front: string, w: string, i: nat)
    requires Escaped(w) && i < |w|
    ensures !Eligible(front + " " + w, |front| + 1 + i)
  {
    var text, a := front + " " + w, front + " ";
    if w[i] == ' ' {
      RunStops(a, w, i);
      RunOfPrefix(w, i, i);
      AlignedParity(w[..i]);
      CountVersusRun(text, |a| + i);
      assert DollarRun(text, |a| + i) == DollarRun(w, i) <= i;
    }
  }

  /** One column less than nothing: the break comes right in front of the last word. */
  lemma BreakBeforeLast(front: string, last: string)
    requires front != "" && front[|front| - 1] != '$' && Escaped(last) && last != ""
    ensures ChooseBreak(front + " " + last, -1) == |front|
  {
    var text := front + " " + last;
    var e := Bound(-1, |text|);
    assert CountDollars(text, |front|) == 0;
    assert Eligible(text, |front|);
    forall i | |front| < i < e ensures !Eligible(text, i) {
      EscapedNotEligible(front, last, i - |front| - 1);
    }
    ChosenAt(text, -1, |front|);
  }

  lemma CleanBeforeLast(front: string, last: string, lead: nat, width: int)
    requires front != "" && front[|front| - 1] != '$' && Escaped(last) && last != ""
    requires width - lead - 2 == -1
    ensures CleanBreaks(front + " " + last, lead, 4, width)
  {
    var text := front + " " + last;
    BreakBeforeLast(front, last);
    assert text[|front| + 1..] == last;
    EscapedSingle(last);
    ShieldedIsClean(last, 4, 4, width);
  }

  /** The words behind the colon, all but the last of them. */
  function Front(s: Statement): string
  {
    var ws := [s.rule] + InputWords(s);
    SpaceEach(OutputWords(s)) + ":" + SpaceEach(ws[..|ws| - 1])
  }

  function Last(s: Statement): string
  {
    var ws := [s.rule] + InputWords(s);
    ws[|ws| - 1]
  }

  lemma OneSpaced(w: string)
    ensures SpaceEach([w]) == " " + w
  {
    assert [w][1..] == [] && SpaceEach([]) == "";
    assert " " + w + "" == " " + w;
  }

  lemma LastSplitOff(ws: seq<string>)
    requires ws != []
    ensures SpaceEach(ws) == SpaceEach(ws[..|ws| - 1]) + (" " + ws[|ws| - 1])
  {
    hide SpaceEach;
    var init, last := ws[..|ws| - 1], ws[|ws| - 1];
    assert ws == init + [last];
    SpaceEachConcat(init, [last]);
    OneSpaced(last);
  }

  lemma LineSplit(s: Statement)
    requires Sound(s)
    ensures BuildText(s) == "build" + Front(s) + " " + Last(s)
  {
    OutputsThere(s);
    BuildTextShape(s);
    LastSplitOff([s.rule] + InputWords(s));
    Around(SpaceEach(OutputWords(s)), SpaceEach(([s.rule] + InputWords(s))[..|InputWords(s)|]), Last(s));
  }

  lemma Around(outs: string, init: string, last: string)
    ensures "build" + outs + ":" + (init + (" " + last)) == "build" + (outs + ":" + init) + " " + last
  {
  }

  lemma IdentEscaped(rule: string)
    requires IsIdent(rule)
    ensures Escaped(rule)
  {
  }

  lemma MarkedLast(marker: string, arg: Arg)
    requires PathsOk(Listed(arg)) && Marked(marker, arg) != []
    ensures var ws := Marked(marker, arg); Escaped(ws[|ws| - 1]) && ws[|ws| - 1] != ""
  {
    var ps := AsList(arg);
    hide Escaped, EscapePath, PathOk;
    assert Marked(marker, arg) == [marker] + EscapeAll(ps);
    assert |ps| > 0;
    PathLast(ps);
  }

  lemma PathLast(ps: seq<string>)
    requires PathsOk(ps) && ps != []
    ensures var ws := EscapeAll(ps); Escaped(ws[|ws| - 1]) && ws[|ws| - 1] != ""
  {
    var p := ps[|ps| - 1];
    assert PathOk(p);
    EncodedEscaped(p);
    PathWordOk(p, 3);
    EscapePathIsOnePass(p);
  }

  lemma LastEscaped(s: Statement)
    requires Sound(s)
    ensures Escaped(Last(s)) && Last(s) != ""
  {
    var a, b, c := EscapeAll(AsList(s.inputs)), Marked("|", s.implicitIns), Marked("||", s.orderOnly);
    assert InputWords(s) == a + b + c;
    if c != [] {
      MarkedLast("||", s.orderOnly);
      assert Last(s) == c[|c| - 1];
    } else if b != [] {
      MarkedLast("|", s.implicitIns);
      assert Last(s) == b[|b| - 1];
    } else if a != [] {
      PathLast(AsList(s.inputs));
      assert Last(s) == a[|a| - 1];
    } else {
      IdentEscaped(s.rule);
    }
  }

  /** Every word of a line is one that may stand between separators. */
  ghost predicate AllWordsOk(ws: seq<string>)
  {
    forall i :: 0 <= i < |ws| ==> WordOk(ws[i], 3)
  }

  lemma PathsAllOk(ps: seq<string>)
    requires PathsOk(ps)
    ensures AllWordsOk(EscapeAll(ps))
  {
    forall i | 0 <= i < |ps| ensures WordOk(EscapePath(ps[i]), 3) { PathWordOk(ps[i], 3); }
  }

  lemma MarkedAllOk(marker: string, arg: Arg)
    requires marker == "|" || marker == "||"
    requires PathsOk(Listed(arg))
    ensures AllWordsOk(Marked(marker, arg))
  {
    if Truthy(arg) {
      hide WordOk;
      MarkerOk(marker, 3);
      PathsAllOk(AsList(arg));
    }
  }

  lemma OutputsAllOk(s: Statement)
    requires Sound(s)
    ensures AllWordsOk(OutputWords(s))
  {
    hide WordOk;
    PathsAllOk(AsList(s.outputs));
    MarkedAllOk("|", s.implicitOuts);
  }

  lemma InputsAllOk(s: Statement)
    requires Sound(s)
    ensures AllWordsOk([s.rule] + InputWords(s))
  {
    PlainFragment(s.rule, 3);
    assert WordOk(s.rule, 3);
    hide WordOk;
    PathsAllOk(AsList(s.inputs));
    MarkedAllOk("|", s.implicitIns);
    MarkedAllOk("||", s.orderOnly);
  }

  lemma WordsEnd(words: seq<string>)
    requires AllWordsOk(words) && words != []
    ensures var t := SpaceEach(words); t != "" && t[|t| - 1] != '$'
  {
    LastSplitOff(words);
    var w := words[|words| - 1];
    assert WordOk(w, 3);
    assert w[|w| - 1] != '$';
  }

  lemma FrontShape(s: Statement)
    requires Sound(s)
    ensures var f := Front(s); |f| >= 3 && f[|f| - 1] != '$' && f[0] == ' ' && f[1] != ' '
  {
    OutputsThere(s);
    OutputsAllOk(s);
    InputsAllOk(s);
    var ws := [s.rule] + InputWords(s);
    var outs, init := OutputWords(s), ws[..|ws| - 1];
    assert WordOk(outs[0], 3);
    hide OutputWords, InputWords, Fragment, Sound;
    assert SpaceEach(outs) == " " + outs[0] + SpaceEach(outs[1..]);
    if init != [] {
      assert AllWordsOk(init) by { assert forall i :: 0 <= i < |init| ==> init[i] == ws[i]; }
      WordsEnd(init);
    }
  }

  /** At width 1 the first break comes in front of the last word, and nothing else can go wrong. */
  lemma CleanAtOne(s: Statement)
    requires Sound(s)
    ensures CleanBreaks(BuildText(s), 0, 4, 1)
  {
    LineSplit(s);
    FrontShape(s);
    LastEscaped(s);
    hide Front, Last, BuildText, Escaped;
    var front := "build" + Front(s);
    assert front[|front| - 1] == Front(s)[|Front(s)| - 1];
    CleanBeforeLast(front, Last(s), 0, 1);
  }

  /** At width 5 the first break comes behind the first word, and the second one in front of the last. */
  lemma CleanAtFive(s: Statement)
    requires Sound(s)
    ensures CleanBreaks(BuildText(s), 0, 4, 5)
  {
    LineSplit(s);
    FrontShape(s);
    LastEscaped(s);
    hide Front, Last, BuildText, Escaped;
    CleanAfterBuild(Front(s), Last(s));
  }

  lemma CleanAfterBuild(f: string, last: string)
    requires |f| >= 3 && f[|f| - 1] != '$' && f[0] == ' ' && f[1] != ' '
    requires Escaped(last) && last != ""
    ensures CleanBreaks("build" + f + " " + last, 0, 4, 5)
  {
    var text, front := "build" + f + " " + last, f[1..];
    assert forall i :: 0 <= i < 5 ==> text[i] == "build"[i];
    assert text[5] == ' ' && CountDollars(text, 5) == 0;
    ChosenAt(text, 3, 5);
    assert text[6..] == front + " " + last;
    assert front[|front| - 1] == f[|f| - 1];
    CleanBeforeLast(front, last, 4, 5);
  }
}
