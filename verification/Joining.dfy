/** What the reader makes of any wrapped line, clean or not: the text, less some spaces. */
module Joining {
  import opened PyStrings
  import opened LineWrap
  import opened LogicalLines

  /** The text as it is read back: spaces behind a break are skipped. */
  function Joined(text: string, lead: nat, cont: nat, width: int): string
    decreases |text|
  {
    var b := ChooseBreak(text, width - lead - 2);
    if lead + |text| <= width || b < 0 then text
    else text[..b] + " " + SkipSpaces(Joined(text[b + 1..], cont, cont, width))
  }

  lemma {:induction false} NoSpaceFirst(z: string)
    requires z == "" || z[0] != ' '
    ensures Unwrap(z) == "" || Unwrap(z)[0] != ' '
    decreases |z|
  {
    if |z| >= 2 && z[0] == '$' && z[1] == '\n' { NoSpaceFirst(SkipSpaces(z[2..])); }
  }

  /** Joining lines and skipping leading spaces can be done in either order. */
  lemma {:induction false} UnwrapSkips(x: string)
    ensures Unwrap(SkipSpaces(x)) == SkipSpaces(Unwrap(x))
  {
    if x != "" && x[0] == ' ' {
      UnwrapSkips(x[1..]);
      assert Unwrap(x) == " " + Unwrap(x[1..]);
      assert Unwrap(x)[1..] == Unwrap(x[1..]);
    } else {
      NoSpaceFirst(x);
    }
  }

  lemma {:induction false} SpacedSkips(x: string)
    requires Spaced(x, true)
    ensures Spaced(SkipSpaces(x), true)
  {
    if x != "" && x[0] == ' ' { SpacedSkips(x[1..]); }
  }

  lemma {:induction false} SkipsOnlyText(j: string, tail: string)
    ensures SkipSpaces(j + "\n" + tail) == SkipSpaces(j) + "\n" + tail
  {
    var w := j + "\n" + tail;
    if j != "" && j[0] == ' ' {
      SkipsOnlyText(j[1..], tail);
      assert w[1..] == j[1..] + "\n" + tail;
    } else if j == "" {
      assert w[0] == '\n';
    }
  }

  lemma BreakSpaced(head: string, cont: nat, x: string)
    requires Aligned(head) && '\n' !in head && '\r' !in head && head != "" && head[|head| - 1] == ' '
    requires Spaced(x, true)
    ensures Spaced(head + ("$\n" + (Spaces(cont) + x)), false)
  {
    var joint := "$\n" + (Spaces(cont) + x);
    assert joint[2..] == Spaces(cont) + x;
    SkipSpacesAway(cont, x);
    SpacedSkips(x);
    SpacedPrefix(head, joint, false);
  }

  /** Every wrapped line is read as the joined text, and is continued only behind spaces. */
  lemma {:induction false} UnwrapJoined(text: string, lead: nat, cont: nat, width: int, tail: string)
    requires '\n' !in text && '\r' !in text && Aligned(text)
    ensures var x := Body(Segments(text, lead, cont, width), cont) + tail;
            Unwrap(x) == Joined(text, lead, cont, width) + "\n" + tail && Spaced(x, false)
    decreases |text|
  {
    var b := ChooseBreak(text, width - lead - 2);
    if lead + |text| <= width || b < 0 {
      UnwrapLast(text, tail);
    } else {
      var head, rest := text[..b] + " ", text[b + 1..];
      var x := Body(Segments(rest, cont, cont, width), cont) + tail;
      AfterBreak(text, b);
      BodySplit(text, lead, cont, width, tail);
      UnwrapJoined(rest, cont, cont, width, tail);
      hide ChooseBreak, Segments, Body, Unwrap, Spaced, Aligned, Spaces;
      JoinStep(head, cont, x, Joined(rest, cont, cont, width), tail);
    }
  }

  lemma JoinStep(head: string, cont: nat, x: string, j: string, tail: string)
    requires Aligned(head) && '\n' !in head && '\r' !in head && head != "" && head[|head| - 1] == ' '
    requires Unwrap(x) == j + "\n" + tail && Spaced(x, false)
    ensures Unwrap(head + ("$\n" + (Spaces(cont) + x))) == head + SkipSpaces(j) + "\n" + tail
    ensures Spaced(head + ("$\n" + (Spaces(cont) + x)), false)
  {
    SpacedWhatever(x);
    hide Unwrap, Spaced, Aligned, Spaces, SkipSpaces;
    JointSkipped(head, cont, x);
    UnwrapSkips(x);
    SkipsOnlyText(j, tail);
    BreakSpaced(head, cont, x);
    Regroup(head, SkipSpaces(j), "\n");
    Regroup(head, SkipSpaces(j) + "\n", tail);
  }

  lemma LineJoined(text: string, indent: int, width: int, tail: string)
    requires '\n' !in text && '\r' !in text && Aligned(text)
    ensures var w := LineText(text, indent, width) + tail;
            Unwrap(w) == Spaces(Lead(indent)) + (Joined(text, Lead(indent), Cont(indent), width) + "\n" + tail) && Spaced(w, false)
  {
    hide Unwrap, Spaced, Aligned, Body, Segments;
    UnwrapJoined(text, Lead(indent), Cont(indent), width, tail);
    var body := Body(Segments(text, Lead(indent), Cont(indent), width), Cont(indent));
    IndentKept(Lead(indent), body + tail);
    Regroup(Spaces(Lead(indent)), body, tail);
  }

  /** Nothing is lost exactly when no break is followed by a space. */
  lemma JoinedShorter(text: string, lead: nat, cont: nat, width: int)
    requires '\n' !in text && '\r' !in text && Aligned(text)
    ensures var j := Joined(text, lead, cont, width);
            |j| <= |text| && (CleanBreaks(text, lead, cont, width) <==> j == text) && (j == text <==> |j| == |text|)
  {
    UnwrapJoined(text, lead, cont, width, "");
    UncleanShortens(text, lead, cont, width, "");
    hide Unwrap, CleanBreaks, Body, Segments;
    var j := Joined(text, lead, cont, width);
    var u := Unwrap(Body(Segments(text, lead, cont, width), cont) + "");
    assert |u| == |j| + 1;
    if CleanBreaks(text, lead, cont, width) {
      UnwrapBody(text, lead, cont, width, "");
      assert j == u[..|j|] == text;
    }
  }

  /**
   * `u` is `t` without some of the spaces that follow other spaces, where
   * `afterSpace` says what precedes `t`. Of the lost spaces `k` are not in front
   * of a marker.
   */
  ghost predicate Reduces(t: string, u: string, afterSpace: bool, k: nat)
    decreases |t|
  {
    if t == "" then u == "" && k == 0
    else
      || (u != "" && u[0] == t[0] && Reduces(t[1..], u[1..], t[0] == ' ', k))
      || (afterSpace && t[0] == ' ' &&
          if |t| >= 2 && t[1] == '|' then Reduces(t[1..], u, true, k) else k > 0 && Reduces(t[1..], u, true, k - 1))
  }

  lemma {:induction false} ReducesItself(t: string, afterSpace: bool)
    ensures Reduces(t, t, afterSpace, 0)
  {
    if t != "" { ReducesItself(t[1..], t[0] == ' '); }
  }

  lemma {:induction false} CopiedFirst(head: string, t: string, u: string, afterSpace: bool, k: nat)
    requires Reduces(t, u, if head == "" then afterSpace else head[|head| - 1] == ' ', k)
    ensures Reduces(head + t, head + u, afterSpace, k)
  {
    if head == "" {
      assert head + t == t && head + u == u;
    } else {
      CopiedFirst(head[1..], t, u, head[0] == ' ', k);
      assert (head + t)[1..] == head[1..] + t && (head + u)[1..] == head[1..] + u;
    }
  }

  ghost predicate NoTripleSpace(text: string)
  {
    forall p :: 0 <= p && p + 2 < |text| && text[p] == ' ' && text[p + 1] == ' ' ==> text[p + 2] != ' '
  }

  /** The breaks that lose a space that is not in front of a marker. */
  function HarmfulBreaks(text: string, lead: nat, cont: nat, width: int): nat
    decreases |text|
  {
    var b := ChooseBreak(text, width - lead - 2);
    if lead + |text| <= width || b < 0 then 0
    else
      (if b + 1 < |text| && text[b + 1] == ' ' && !(b + 2 < |text| && text[b + 2] == '|') then 1 else 0)
      + HarmfulBreaks(text[b + 1..], cont, cont, width)
  }

  /** Skipping the space in front of the rest of a line. */
  lemma SkipReduces(rest: string, j: string, k: nat)
    requires Reduces(rest, j, false, k) && !(|rest| >= 2 && rest[0] == ' ' && rest[1] == ' ')
    ensures var harm := if rest != "" && rest[0] == ' ' && !(|rest| >= 2 && rest[1] == '|') then 1 else 0;
            Reduces(rest, SkipSpaces(j), true, k + harm)
  {
    if rest == "" || rest[0] != ' ' {
      assert j == "" || j[0] != ' ';
    } else {
      assert j[0] == ' ' && Reduces(rest[1..], j[1..], true, k);
      assert rest[1..] == "" || rest[1..][0] != ' ';
      assert j[1..] == "" || j[1..][0] != ' ';
      assert SkipSpaces(j) == SkipSpaces(j[1..]) == j[1..];
    }
  }

  lemma RestOfBreak(text: string, b: nat)
    requires NoTripleSpace(text) && b < |text| && text[b] == ' '
    ensures var head, rest := text[..b] + " ", text[b + 1..];
            text == head + rest && NoTripleSpace(rest) && !(|rest| >= 2 && rest[0] == ' ' && rest[1] == ' ')
  {
    var rest := text[b + 1..];
    assert forall p :: 0 <= p < |rest| ==> rest[p] == text[p + b + 1];
  }

  lemma {:induction false} JoinedReduces(text: string, lead: nat, cont: nat, width: int)
    requires NoTripleSpace(text)
    ensures Reduces(text, Joined(text, lead, cont, width), false, HarmfulBreaks(text, lead, cont, width))
    decreases |text|
  {
    hide ChooseBreak, Reduces, NoTripleSpace, SkipSpaces;
    var b := ChooseBreak(text, width - lead - 2);
    if lead + |text| <= width || b < 0 {
      ReducesItself(text, false);
    } else {
      assert text[b] == ' ';
      hide Eligible;
      var head, rest := text[..b] + " ", text[b + 1..];
      var j, k := Joined(rest, cont, cont, width), HarmfulBreaks(rest, cont, cont, width);
      var harm := if rest != "" && rest[0] == ' ' && !(|rest| >= 2 && rest[1] == '|') then 1 else 0;
      assert Joined(text, lead, cont, width) == head + SkipSpaces(j);
      assert HarmfulBreaks(text, lead, cont, width) == harm + k;
      RestOfBreak(text, b);
      JoinedReduces(rest, cont, cont, width);
      hide Joined, HarmfulBreaks;
      SkipReduces(rest, j, k);
      CopiedFirst(head, rest, SkipSpaces(j), false, k + harm);
    }
  }

  lemma {:induction false} SkipsReduce(t: string, j: string, k: nat) returns (n: nat)
    requires Reduces(t, j, true, k)
    ensures Reduces(t, SkipSpaces(j), true, n)
    decreases |t|
  {
    n := k;
    if t != "" && j != "" && j[0] == ' ' {
      if t[0] == ' ' && Reduces(t[1..], j[1..], true, k) {
        var m := SkipsReduce(t[1..], j[1..], k);
        n := if |t| >= 2 && t[1] == '|' then m else m + 1;
      } else if |t| >= 2 && t[1] == '|' {
        n := SkipsReduce(t[1..], j, k);
      } else {
        var m := SkipsReduce(t[1..], j, k - 1);
        n := m + 1;
      }
    }
  }

  lemma AfterASpace(t: string, u: string, k: nat)
    requires Reduces(t, u, false, k)
    ensures Reduces(t, u, true, k)
  {
  }

  /** Any text loses only spaces that follow others. */
  lemma {:induction false} JoinedThinner(text: string, lead: nat, cont: nat, width: int) returns (k: nat)
    ensures Reduces(text, Joined(text, lead, cont, width), false, k)
    decreases |text|
  {
    hide ChooseBreak, Reduces, SkipSpaces;
    k := 0;
    var b := ChooseBreak(text, width - lead - 2);
    if lead + |text| <= width || b < 0 {
      ReducesItself(text, false);
    } else {
      assert text[b] == ' ';
      hide Eligible;
      var head, rest := text[..b] + " ", text[b + 1..];
      var j := Joined(rest, cont, cont, width);
      assert text == head + rest && Joined(text, lead, cont, width) == head + SkipSpaces(j);
      var m := JoinedThinner(rest, cont, cont, width);
      hide Joined;
      AfterASpace(rest, j, m);
      k := SkipsReduce(rest, j, m);
      CopiedFirst(head, rest, SkipSpaces(j), false, k);
    }
  }

  /** A stretch without spaces to lose is copied. */
  lemma {:induction false} SolidCopied(h: string, t: string, u: string, afterSpace: bool, k: nat)
    requires Reduces(h + t, u, afterSpace, k) && NoDoubleSpace(h) && !(afterSpace && h != "" && h[0] == ' ')
    ensures |u| >= |h| && u[..|h|] == h && Reduces(t, u[|h|..], if h == "" then afterSpace else h[|h| - 1] == ' ', k)
  {
    if h == "" {
      assert h + t == t && u[0..] == u;
    } else {
      var rest := h[1..];
      assert (h + t)[1..] == rest + t && (h + t)[0] == h[0];
      assert Reduces(rest + t, u[1..], h[0] == ' ', k) && u[0] == h[0];
      assert forall p :: 0 <= p < |rest| ==> rest[p] == h[p + 1];
      hide Reduces;
      SolidCopied(rest, t, u[1..], h[0] == ' ', k);
      assert u[..|h|] == [u[0]] + u[1..][..|rest|] && u[|h|..] == u[1..][|rest|..];
    }
  }

  /** So is the first character, unless it is a space behind another one. */
  lemma FirstCopied(t: string, u: string, afterSpace: bool, k: nat)
    requires Reduces(t, u, afterSpace, k) && !(afterSpace && t != "" && t[0] == ' ')
    ensures (t == "" <==> u == "") && (t != "" ==> u[0] == t[0])
  {
  }
}
