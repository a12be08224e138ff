/**
 * Reading physical lines back as one logical line: a dollar takes the next
 * character with it, and a dollar at the end of a line joins the next one,
 * whose leading spaces do not count. Wrapping is transparent to that reading.
 */
module LogicalLines {
  import opened PyStrings
  import opened LineWrap

  function SkipSpaces(s: string): (r: string)
    ensures |r| <= |s|
    ensures r == "" || r[0] != ' '
  {
    if s != "" && s[0] == ' ' then SkipSpaces(s[1..]) else s
  }

  /** `w` with the continuations of its first logical line removed. */
  function Unwrap(w: string): string
    decreases |w|
  {
    if w == "" || w[0] == '\n' then w
    else if w[0] != '$' then [w[0]] + Unwrap(w[1..])
    else if |w| == 1 then w
    else if w[1] == '\n' then Unwrap(SkipSpaces(w[2..]))
    else w[..2] + Unwrap(w[2..])
  }

  /** Every dollar has its partner inside `u`: no dangling escape at the end. */
  predicate Aligned(u: string)
    decreases |u|
  {
    if u == "" then true
    else if u[0] == '$' then |u| >= 2 && Aligned(u[2..])
    else Aligned(u[1..])
  }

  /**
   * The first logical line of `w` has no carriage return and is continued only
   * right after a space. `afterSpace` says what precedes `w`.
   */
  predicate Spaced(w: string, afterSpace: bool)
    decreases |w|
  {
    if w == "" || w[0] == '\n' then true
    else if w[0] != '$' then w[0] != '\r' && Spaced(w[1..], w[0] == ' ')
    else if |w| == 1 then true
    else if w[1] == '\n' then afterSpace && Spaced(SkipSpaces(w[2..]), true)
    else w[1] != '\r' && Spaced(w[2..], w[1] == ' ')
  }

  /** No pair of adjacent spaces can be split by a break when `a` columns are available. */
  ghost predicate Shielded(text: string, a: int)
  {
    forall p :: 0 <= p && p + 1 < |text| && text[p] == ' ' && text[p + 1] == ' ' ==>
      p + 2 <= a || (DollarRun(text, p) % 2 == 1 && DollarRun(text, p) + 2 <= a)
  }

  ghost predicate NoDoubleSpace(text: string)
  {
    forall p :: 0 <= p && p + 1 < |text| && text[p] == ' ' ==> text[p + 1] != ' '
  }

  lemma {:induction false} SkipSpacesAway(n: nat, x: string)
    ensures SkipSpaces(Spaces(n) + x) == SkipSpaces(x)
  {
    if n == 0 {
      assert Spaces(n) + x == x;
    } else {
      var s := Spaces(n) + x;
      assert s[0] == ' ' && s[1..] == Spaces(n - 1) + x;
      SkipSpacesAway(n - 1, x);
    }
  }

  lemma {:induction false} AlignedSplit(x: string, y: string)
    requires Aligned(x)
    ensures Aligned(x + y) <==> Aligned(y)
    decreases |x|
  {
    if x == "" {
      assert x + y == y;
    } else {
      var k := if x[0] == '$' then 2 else 1;
      AlignedSplit(x[k..], y);
      assert (x + y)[k..] == x[k..] + y;
    }
  }

  /** A space closes whatever came before it, escaped or not. */
  lemma {:induction false} AlignedThroughSpace(u: string)
    ensures Aligned(u + " ")
    decreases |u|
  {
    if u == "" || u == "$" {
      assert u + " " == " " || (u + " ")[2..] == "";
    } else {
      var k := if u[0] == '$' then 2 else 1;
      AlignedThroughSpace(u[k..]);
      assert (u + " ")[k..] == u[k..] + " ";
    }
  }

  lemma {:induction false} UnwrapPrefix(u: string, v: string)
    requires Aligned(u) && '\n' !in u
    ensures Unwrap(u + v) == u + Unwrap(v)
    decreases |u|
  {
    hide Unwrap;
    if u == "" {
      assert u + v == v && u + Unwrap(v) == Unwrap(v);
    } else {
      var k := if u[0] == '$' then 2 else 1;
      assert u[0] in u;
      assert k == 2 ==> u[1] in u;
      UnwrapPrefix(u[k..], v);
      hide Aligned;
      var w := u + v;
      assert w[k..] == u[k..] + v;
      assert w[..k] == u[..k] && w[0] == u[0] && (k == 2 ==> w[1] == u[1]);
      UnwrapStep(w, k);
      assert u[..k] + u[k..] == u;
      Regroup(u[..k], u[k..], Unwrap(v));
    }
  }

  lemma UnwrapStep(w: string, k: nat)
    requires k <= |w| && w != "" && w[0] != '\n' && k == (if w[0] == '$' then 2 else 1) && (k == 2 ==> w[1] != '\n')
    ensures Unwrap(w) == w[..k] + Unwrap(w[k..])
  {
    assert k == 1 ==> w[..1] == [w[0]];
  }

  lemma {:induction false} SpacedPrefix(u: string, v: string, afterSpace: bool)
    requires Aligned(u) && '\n' !in u && '\r' !in u
    requires Spaced(v, if u == "" then afterSpace else u[|u| - 1] == ' ')
    ensures Spaced(u + v, afterSpace)
    decreases |u|
  {
    if u == "" {
      assert u + v == v;
    } else {
      var k := if u[0] == '$' then 2 else 1;
      assert u[0] in u;
      assert k == 2 ==> u[1] in u;
      SpacedPrefix(u[k..], v, u[k - 1] == ' ');
      assert (u + v)[k..] == u[k..] + v;
    }
  }

  lemma {:induction false} RunAfterCut(text: string, k: nat, i: nat)
    requires 0 < k <= i <= |text|
    requires text[k - 1] != '$'
    ensures DollarRun(text[k..], i - k) == DollarRun(text, i)
    decreases i
  {
    if i > k && text[i - 1] == '$' {
      RunAfterCut(text, k, i - 1);
    }
  }

  /** A shielded text is never broken between two adjacent spaces. */
  lemma ShieldedBreak(text: string, available: int, a: int)
    requires Shielded(text, a) && a <= available
    requires ChooseBreak(text, available) >= 0
    ensures var b := ChooseBreak(text, available); b + 1 == |text| || text[b + 1] != ' '
  {
    var b := ChooseBreak(text, available);
    if b + 1 < |text| && text[b + 1] == ' ' {
      assert Eligible(text, b + 1);
      CountVersusRun(text, b);
    }
  }

  lemma ShieldedRest(text: string, b: nat, a: int)
    requires Shielded(text, a)
    requires b < |text| && text[b] == ' '
    requires b + 1 == |text| || text[b + 1] != ' '
    ensures Shielded(text[b + 1..], a)
  {
    var rest := text[b + 1..];
    forall p | 0 <= p && p + 1 < |rest| && rest[p] == ' ' && rest[p + 1] == ' '
      ensures p + 2 <= a || (DollarRun(rest, p) % 2 == 1 && DollarRun(rest, p) + 2 <= a)
    {
      assert text[p + b + 1] == ' ' && text[p + b + 2] == ' ';
      RunAfterCut(text, b + 1, p + b + 1);
    }
  }

  lemma BodyHead(text: string, lead: nat, cont: nat, width: int)
    requires text == "" || text[0] != ' '
    ensures var body := Body(Segments(text, lead, cont, width), cont);
            body != "" && body[0] == if text == "" then '\n' else text[0]
  {
  }

  /** The state the reader is in after one break. */
  lemma AfterBreak(text: string, b: nat)
    requires b < |text| && text[b] == ' '
    ensures Aligned(text[..b] + " ") && text == text[..b] + " " + text[b + 1..]
    ensures Aligned(text) <==> Aligned(text[b + 1..])
    ensures '\n' !in text ==> '\n' !in text[..b] + " " && '\n' !in text[b + 1..]
  {
    AlignedThroughSpace(text[..b]);
    assert text == text[..b] + " " + text[b + 1..];
    AlignedSplit(text[..b] + " ", text[b + 1..]);
  }

  lemma AcrossBreak(head: string, cont: nat, x: string)
    requires Aligned(head) && '\n' !in head && head != "" && head[|head| - 1] == ' '
    requires x == "" || x[0] != ' '
    ensures Unwrap(head + ("$\n" + (Spaces(cont) + x))) == head + Unwrap(x)
    ensures '\r' !in head && Spaced(x, true) ==> Spaced(head + ("$\n" + (Spaces(cont) + x)), false)
  {
    SkipSpacesAway(cont, x);
    var joint := "$\n" + (Spaces(cont) + x);
    assert joint[2..] == Spaces(cont) + x;
    UnwrapPrefix(head, joint);
    if '\r' !in head && Spaced(x, true) { SpacedPrefix(head, joint, false); }
  }

  /** Taking the first break off a wrapped text. */
  lemma BodySplit(text: string, lead: nat, cont: nat, width: int, tail: string)
    requires Segments(text, lead, cont, width) != [text]
    ensures var b := ChooseBreak(text, width - lead - 2);
            b >= 0 &&
            Body(Segments(text, lead, cont, width), cont) + tail
            == (text[..b] + " ") + ("$\n" + (Spaces(cont) + (Body(Segments(text[b + 1..], cont, cont, width), cont) + tail)))
  {
    hide ChooseBreak, Spaces;
    var b := ChooseBreak(text, width - lead - 2);
    var more := Segments(text[b + 1..], cont, cont, width);
    assert Segments(text, lead, cont, width) == [text[..b]] + more;
    hide Segments;
    assert ([text[..b]] + more)[1..] == more;
    Nested(text[..b], Spaces(cont), Body(more, cont), tail);
  }

  lemma Nested(a: string, b: string, c: string, d: string)
    ensures a + " $\n" + b + c + d == (a + " ") + ("$\n" + (b + (c + d)))
  {
    assert " $\n" == " " + "$\n";
  }

  lemma SpacedWhatever(x: string)
    requires Spaced(x, false)
    ensures Spaced(x, true)
  {
  }

  lemma UnwrapFirst(text: string, b: nat, cont: nat, x: string, tail: string)
    requires b < |text| && text[b] == ' ' && '\n' !in text
    requires x != "" && x[0] != ' '
    requires Unwrap(x) == text[b + 1..] + "\n" + tail
    ensures Unwrap((text[..b] + " ") + ("$\n" + (Spaces(cont) + x))) == text + "\n" + tail
    ensures '\r' !in text && Spaced(x, false) ==>
              Spaced((text[..b] + " ") + ("$\n" + (Spaces(cont) + x)), false)
  {
    hide Unwrap, Spaced, Aligned, Spaces;
    if Spaced(x, false) { SpacedWhatever(x); }
    var head, rest := text[..b] + " ", text[b + 1..];
    assert text == head + rest;
    AlignedThroughSpace(text[..b]);
    AcrossBreak(head, cont, x);
    Regroup(head, rest, "\n");
    Regroup(head, rest + "\n", tail);
  }

  lemma UnwrapLast(text: string, tail: string)
    requires '\n' !in text && Aligned(text)
    ensures Unwrap(text + "\n" + tail) == text + "\n" + tail
    ensures '\r' !in text ==> Spaced(text + "\n" + tail, false)
  {
    var end := "\n" + tail;
    assert text + "\n" + tail == text + end;
    UnwrapPrefix(text, end);
    if '\r' !in text { SpacedPrefix(text, end, false); }
  }

  /** No break that the writer makes is followed by another space. */
  predicate CleanBreaks(text: string, lead: nat, cont: nat, width: int)
    decreases |text|
  {
    var b := ChooseBreak(text, width - lead - 2);
    lead + |text| <= width || b < 0 ||
    ((b + 1 == |text| || text[b + 1] != ' ') && CleanBreaks(text[b + 1..], cont, cont, width))
  }

  lemma {:induction false} ShieldedIsClean(text: string, lead: nat, cont: nat, width: int)
    requires lead <= cont && Shielded(text, width - cont - 2)
    ensures CleanBreaks(text, lead, cont, width)
    decreases |text|
  {
    hide ChooseBreak, Shielded, DollarRun;
    var b := ChooseBreak(text, width - lead - 2);
    if lead + |text| > width && b >= 0 {
      assert text[b] == ' ';
      ShieldedBreak(text, width - lead - 2, width - cont - 2);
      ShieldedRest(text, b, width - cont - 2);
      ShieldedIsClean(text[b + 1..], cont, cont, width);
    }
  }

  /** Unwrapping a cleanly wrapped text gives the text back, newline and all that follows included. */
  lemma {:induction false} UnwrapBody(text: string, lead: nat, cont: nat, width: int, tail: string)
    requires '\n' !in text && Aligned(text) && CleanBreaks(text, lead, cont, width)
    ensures Unwrap(Body(Segments(text, lead, cont, width), cont) + tail) == text + "\n" + tail
    ensures '\r' !in text ==> Spaced(Body(Segments(text, lead, cont, width), cont) + tail, false)
    decreases |text|
  {
    var b := ChooseBreak(text, width - lead - 2);
    if lead + |text| <= width || b < 0 {
      UnwrapLast(text, tail);
    } else {
      AfterBreak(text, b);
      BodySplit(text, lead, cont, width, tail);
      BodyHead(text[b + 1..], cont, cont, width);
      UnwrapBody(text[b + 1..], cont, cont, width, tail);
      UnwrapFirst(text, b, cont, Body(Segments(text[b + 1..], cont, cont, width), cont) + tail, tail);
    }
  }

  lemma {:induction false} UnwrapShortens(w: string)
    ensures |Unwrap(w)| <= |w|
    decreases |w|
  {
    if w == "" || w[0] == '\n' || w == "$" {
    } else if w[0] != '$' {
      UnwrapShortens(w[1..]);
    } else if w[1] == '\n' {
      UnwrapShortens(SkipSpaces(w[2..]));
    } else {
      UnwrapShortens(w[2..]);
    }
  }

  /** A dangling dollar takes the newline with it. */
  lemma {:induction false} DanglingShortens(text: string, tail: string)
    requires '\n' !in text && !Aligned(text)
    ensures |Unwrap(text + "\n" + tail)| < |text| + 1 + |tail|
    decreases |text|
  {
    var w := text + "\n" + tail;
    assert text[0] in text;
    if text == "$" {
      UnwrapShortens(SkipSpaces(w[2..]));
    } else {
      var k := if text[0] == '$' then 2 else 1;
      assert k == 2 ==> text[1] in text;
      DanglingShortens(text[k..], tail);
      assert w[k..] == text[k..] + "\n" + tail;
    }
  }

  lemma {:induction false} SkippedShorter(x: string)
    requires x != "" && x[0] == ' '
    ensures |Unwrap(SkipSpaces(x))| < |Unwrap(x)|
  {
    assert Unwrap(x) == " " + Unwrap(x[1..]);
    if x[1..] != "" && x[1] == ' ' { SkippedShorter(x[1..]); }
  }

  lemma JointSkipped(head: string, cont: nat, x: string)
    requires Aligned(head) && '\n' !in head
    ensures Unwrap(head + ("$\n" + (Spaces(cont) + x))) == head + Unwrap(SkipSpaces(x))
  {
    var joint := "$\n" + (Spaces(cont) + x);
    assert joint[2..] == Spaces(cont) + x;
    SkipSpacesAway(cont, x);
    UnwrapPrefix(head, joint);
  }

  /** Otherwise something is lost: less comes out than went in. */
  lemma {:induction false} UncleanShortens(text: string, lead: nat, cont: nat, width: int, tail: string)
    requires '\n' !in text
    ensures var n := |Unwrap(Body(Segments(text, lead, cont, width), cont) + tail)|;
            n <= |text| + 1 + |tail| &&
            (!Aligned(text) || !CleanBreaks(text, lead, cont, width) ==> n < |text| + 1 + |tail|)
    decreases |text|
  {
    var b := ChooseBreak(text, width - lead - 2);
    if lead + |text| <= width || b < 0 {
      UnwrapShortens(text + "\n" + tail);
      if !Aligned(text) { DanglingShortens(text, tail); }
    } else {
      AfterBreak(text, b);
      BodySplit(text, lead, cont, width, tail);
      var x := Body(Segments(text[b + 1..], cont, cont, width), cont) + tail;
      UncleanShortens(text[b + 1..], cont, cont, width, tail);
      JointSkipped(text[..b] + " ", cont, x);
      if b + 1 < |text| && text[b + 1] == ' ' {
        SpaceKept(text[b + 1..], cont, cont, width, tail);
        SkippedShorter(x);
      } else {
        BodyHead(text[b + 1..], cont, cont, width);
      }
    }
  }

  lemma SpaceKept(text: string, lead: nat, cont: nat, width: int, tail: string)
    requires text != "" && text[0] == ' '
    ensures var x := Body(Segments(text, lead, cont, width), cont) + tail; x != "" && x[0] == ' '
  {
  }

  /**
   * Wrapping is transparent exactly when no break is followed by a space and
   * the text leaves no escape open: then, and only then, reading back what
   * `_line` wrote gives the indentation, the text and a newline.
   */
  lemma TransparentExactlyWhen(text: string, indent: int, width: int, tail: string)
    requires '\n' !in text
    ensures Unwrap(LineText(text, indent, width) + tail) == Spaces(Lead(indent)) + text + "\n" + tail <==>
            Aligned(text) && CleanBreaks(text, Lead(indent), Cont(indent), width)
  {
    hide Body, Segments, Unwrap, CleanBreaks;
    var body := Body(Segments(text, Lead(indent), Cont(indent), width), Cont(indent));
    IndentKept(Lead(indent), body + tail);
    assert LineText(text, indent, width) + tail == Spaces(Lead(indent)) + (body + tail);
    UncleanShortens(text, Lead(indent), Cont(indent), width, tail);
    if Aligned(text) && CleanBreaks(text, Lead(indent), Cont(indent), width) {
      UnwrapBody(text, Lead(indent), Cont(indent), width, tail);
      assert Spaces(Lead(indent)) + text + "\n" + tail == Spaces(Lead(indent)) + (text + "\n" + tail);
    }
  }

  lemma IndentKept(lead: nat, x: string)
    ensures Unwrap(Spaces(lead) + x) == Spaces(lead) + Unwrap(x)
    ensures Spaced(x, false) ==> Spaced(Spaces(lead) + x, false)
  {
    SpacesAligned(lead);
    UnwrapPrefix(Spaces(lead), x);
    if Spaced(x, false) {
      SpacedWhatever(x);
      SpacedPrefix(Spaces(lead), x, false);
    }
  }

  /** In particular it is transparent for texts whose adjacent spaces no break can reach. */
  lemma WrappingIsTransparent(text: string, indent: int, width: int, tail: string)
    requires '\n' !in text && Aligned(text) && Shielded(text, width - Cont(indent) - 2)
    ensures Unwrap(LineText(text, indent, width) + tail) == Spaces(Lead(indent)) + text + "\n" + tail
    ensures '\r' !in text ==> Spaced(LineText(text, indent, width) + tail, false)
  {
    ShieldedIsClean(text, Lead(indent), Cont(indent), width);
    TransparentExactlyWhen(text, indent, width, tail);
    if '\r' !in text { StaysSpaced(text, indent, width, tail); }
  }

  /** A cleanly broken line is read back, and continued only behind spaces. */
  lemma CleanIsTransparent(text: string, indent: int, width: int, tail: string)
    requires '\n' !in text && '\r' !in text && Aligned(text)
    requires CleanBreaks(text, Lead(indent), Cont(indent), width)
    ensures Unwrap(LineText(text, indent, width) + tail) == Spaces(Lead(indent)) + text + "\n" + tail
    ensures Spaced(LineText(text, indent, width) + tail, false)
  {
    TransparentExactlyWhen(text, indent, width, tail);
    StaysSpaced(text, indent, width, tail);
  }

  lemma StaysSpaced(text: string, indent: int, width: int, tail: string)
    requires '\n' !in text && '\r' !in text && Aligned(text)
    requires CleanBreaks(text, Lead(indent), Cont(indent), width)
    ensures Spaced(LineText(text, indent, width) + tail, false)
  {
    hide Body, Segments, Unwrap, CleanBreaks, Spaced;
    UnwrapBody(text, Lead(indent), Cont(indent), width, tail);
    var body := Body(Segments(text, Lead(indent), Cont(indent), width), Cont(indent));
    IndentKept(Lead(indent), body + tail);
    assert LineText(text, indent, width) + tail == Spaces(Lead(indent)) + (body + tail);
  }

  lemma {:induction false} SpacesAligned(n: int)
    ensures Aligned(Spaces(n))
    decreases if n <= 0 then 0 else n
  {
    if n > 0 {
      SpacesAligned(n - 1);
      assert Spaces(n)[1..] == Spaces(n - 1);
    }
  }

  /** Without adjacent spaces, and with no dangling dollar, every width will do. */
  lemma TransparentAtEveryWidth(text: string, indent: int, width: int, tail: string)
    requires '\n' !in text && Aligned(text) && NoDoubleSpace(text)
    ensures Unwrap(LineText(text, indent, width) + tail) == Spaces(Lead(indent)) + text + "\n" + tail
  {
    WrappingIsTransparent(text, indent, width, tail);
  }
}
