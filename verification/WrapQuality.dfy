/** How good the chosen breaks are: where they fall, how long the lines get, how many there are. */
module WrapQuality {
  import opened PyStrings
  import opened LineWrap

  /** `b` is where `t` should be broken: as far right as allowed, or else at the first chance. */
  ghost predicate BestBreak(t: string, b: nat, available: int)
  {
    && Eligible(t, b)
    && if b < Bound(available, |t|)
       then forall j :: b < j < Bound(available, |t|) ==> !Eligible(t, j)
       else forall j :: 0 <= j < b ==> !Eligible(t, j)
  }

  function PieceLead(i: nat, lead: nat, cont: nat): nat { if i == 0 then lead else cont }

  /**
   * Every piece but the last is cut, at the best place, out of a text that was
   * too long; the last one fits or cannot be cut.
   */
  ghost predicate WellBroken(segs: seq<string>, lead: nat, cont: nat, width: int)
  {
    && |segs| > 0
    && (forall i :: 0 <= i < |segs| - 1 ==> BrokenAt(segs, i, PieceLead(i, lead, cont), width))
    && var last := segs[|segs| - 1];
       PieceLead(|segs| - 1, lead, cont) + |last| <= width || forall j :: !Eligible(last, j)
  }

  ghost predicate BrokenAt(segs: seq<string>, i: nat, lead: nat, width: int)
    requires i < |segs|
  {
    var t := Join(segs[i..], " ");
    lead + |t| > width && BestBreak(t, |segs[i]|, width - lead - 2)
  }

  lemma {:induction false} WellBrokenRest(segs: seq<string>, lead: nat, cont: nat, width: int)
    requires |segs| > 1
    ensures WellBroken(segs, lead, cont, width) <==>
            BrokenAt(segs, 0, lead, width) && WellBroken(segs[1..], cont, cont, width)
  {
    var rest := segs[1..];
    forall i | 0 <= i < |rest| - 1
      ensures BrokenAt(rest, i, PieceLead(i, cont, cont), width)
         <==> BrokenAt(segs, i + 1, PieceLead(i + 1, lead, cont), width)
    {
      assert rest[i..] == segs[i + 1..];
    }
    if WellBroken(segs, lead, cont, width) {
      assert BrokenAt(segs, 0, PieceLead(0, lead, cont), width);
      forall i | 0 <= i < |rest| - 1
        ensures BrokenAt(rest, i, PieceLead(i, cont, cont), width)
      {
        assert BrokenAt(segs, i + 1, PieceLead(i + 1, lead, cont), width);
      }
    } else if BrokenAt(segs, 0, lead, width) && WellBroken(rest, cont, cont, width) {
      forall i | 0 <= i < |segs| - 1
        ensures BrokenAt(segs, i, PieceLead(i, lead, cont), width)
      {
        if i > 0 { assert BrokenAt(rest, i - 1, PieceLead(i - 1, cont, cont), width); }
      }
    }
  }

  lemma JoinCons(s: string, segs: seq<string>)
    requires |segs| > 0
    ensures Join([s] + segs, " ") == s + " " + Join(segs, " ")
  {
    assert ([s] + segs)[1..] == segs;
  }

  /** The writer's pieces are exactly the well-broken ones that spell the text. */
  lemma {:induction false} BreakChoice(segs: seq<string>, text: string, lead: nat, cont: nat, width: int)
    ensures segs == Segments(text, lead, cont, width) <==>
            Join(segs, " ") == text && WellBroken(segs, lead, cont, width)
    decreases |text|
  {
    var b := ChooseBreak(text, width - lead - 2);
    assert b >= 0 ==> text[b] == ' ';
    hide ChooseBreak;
    if lead + |text| <= width || b < 0 {
      SinglePiece(segs, text, lead, cont, width);
    } else {
      var rest := text[b + 1..];
      var more := Segments(rest, cont, cont, width);
      if segs == Segments(text, lead, cont, width) {
        assert segs == [text[..b]] + more;
        BreakChoice(more, rest, cont, cont, width);
        JoinCons(text[..b], more);
        assert text == text[..b] + " " + rest;
        assert segs[1..] == more && segs[0..] == segs;
        WellBrokenRest(segs, lead, cont, width);
      } else if Join(segs, " ") == text && WellBroken(segs, lead, cont, width) {
        OneWayToBreak(segs, text, lead, cont, width);
        BreakChoice(segs[1..], rest, cont, cont, width);
      }
    }
  }

  lemma SinglePiece(segs: seq<string>, text: string, lead: nat, cont: nat, width: int)
    requires Segments(text, lead, cont, width) == [text]
    requires lead + |text| <= width || ChooseBreak(text, width - lead - 2) < 0
    ensures segs == [text] <==> Join(segs, " ") == text && WellBroken(segs, lead, cont, width)
  {
    if |segs| > 1 {
      assert segs[0..] == segs;
      if Join(segs, " ") == text && WellBroken(segs, lead, cont, width) {
        WellBrokenRest(segs, lead, cont, width);
      }
    }
  }

  lemma OneWayToBreak(segs: seq<string>, text: string, lead: nat, cont: nat, width: int)
    requires Join(segs, " ") == text && WellBroken(segs, lead, cont, width)
    requires lead + |text| > width && ChooseBreak(text, width - lead - 2) >= 0
    ensures |segs| > 1
    ensures var b := ChooseBreak(text, width - lead - 2);
            segs[0] == text[..b] && Join(segs[1..], " ") == text[b + 1..]
    ensures WellBroken(segs[1..], cont, cont, width)
  {
    var b := ChooseBreak(text, width - lead - 2);
    assert segs[0..] == segs;
    if |segs| > 1 {
      WellBrokenRest(segs, lead, cont, width);
      assert BestBreak(text, |segs[0]|, width - lead - 2);
      assert text == segs[0] + " " + Join(segs[1..], " ");
      assert |segs[0]| == b;
    }
  }

  /** Nothing is lost or added between the pieces. */
  lemma SegmentsSpellText(text: string, lead: nat, cont: nat, width: int)
    ensures Join(Segments(text, lead, cont, width), " ") == text
  {
    BreakChoice(Segments(text, lead, cont, width), text, lead, cont, width);
  }

  /**
   * The width guarantee. A continued line, with its indentation and its ` $`,
   * stays below the width, unless the text it was cut from has no eligible
   * space early enough; then the break is at its first eligible space. The last
   * line is too long only if it has no eligible space.
   */
  lemma LinesFitWhenPossible(text: string, lead: nat, cont: nat, width: int, i: nat)
    requires lead <= cont && width >= cont + 2
    requires i < |Segments(text, lead, cont, width)|
    ensures var segs := Segments(text, lead, cont, width);
            var l := PieceLead(i, lead, cont);
            var t := Join(segs[i..], " ");
            if i + 1 < |segs| then
              Eligible(t, |segs[i]|) &&
              (l + |segs[i]| + 2 <= width - 1 ||
               forall j :: 0 <= j < |segs[i]| ==> !Eligible(t, j))
            else
              l + |segs[i]| <= width || forall j :: !Eligible(segs[i], j)
  {
    var segs := Segments(text, lead, cont, width);
    BreakChoice(segs, text, lead, cont, width);
    if i + 1 < |segs| { assert BrokenAt(segs, i, PieceLead(i, lead, cont), width); }
  }

  /** The physical lines of these pieces stay within the width, continued ones below it. */
  predicate Fits(segs: seq<string>, lead: nat, cont: nat, width: int)
  {
    |segs| > 0 &&
    if |segs| == 1 then lead + |segs[0]| <= width
    else lead + |segs[0]| + 2 <= width - 1 && Fits(segs[1..], cont, cont, width)
  }

  lemma {:induction false} PlainSpacesEligible(text: string, i: nat)
    requires '$' !in text && i < |text| && text[i] == ' '
    ensures Eligible(text, i)
  {
    assert i > 0 ==> text[i - 1] in text;
  }

  /** A fitting wrapping of a text gives one of every suffix that is no longer. */
  lemma {:induction false} FitSuffix(segs: seq<string>, k: nat, cont: nat, width: int) returns (r: seq<string>)
    requires Fits(segs, cont, cont, width)
    requires k <= |Join(segs, " ")|
    ensures Fits(r, cont, cont, width) && |r| <= |segs|
    ensures Join(r, " ") == Join(segs, " ")[k..]
    decreases |segs|
  {
    var rest := segs[1..];
    if k <= |segs[0]| {
      r := [segs[0][k..]] + rest;
      assert r[1..] == rest;
    } else {
      assert Join(segs, " ")[|segs[0]| + 1..] == Join(rest, " ");
      r := FitSuffix(rest, k - |segs[0]| - 1, cont, width);
    }
  }

  /**
   * Greedy wrapping is optimal: if the text can be wrapped within the width at
   * all, the writer's wrapping is within the width and has no more lines.
   */
  lemma {:induction false} GreedyIsOptimal(text: string, lead: nat, cont: nat, width: int, other: seq<string>)
    requires '$' !in text
    requires Join(other, " ") == text && Fits(other, lead, cont, width)
    ensures Fits(Segments(text, lead, cont, width), lead, cont, width)
    ensures |Segments(text, lead, cont, width)| <= |other|
    decreases |text|
  {
    if lead + |text| > width {
      var b, shorter := ShorterRest(text, lead, cont, width, other);
      var rest := text[b + 1..];
      GreedyIsOptimal(rest, cont, cont, width, shorter);
      var more := Segments(rest, cont, cont, width);
      assert Segments(text, lead, cont, width) == [text[..b]] + more;
      hide Segments, ChooseBreak, Join;
      assert ([text[..b]] + more)[1..] == more;
    }
  }

  /** The writer's first break is no earlier than any other one that fits, so the rest needs no more lines. */
  lemma ShorterRest(text: string, lead: nat, cont: nat, width: int, other: seq<string>) returns (b: nat, shorter: seq<string>)
    requires '$' !in text && lead + |text| > width
    requires Join(other, " ") == text && Fits(other, lead, cont, width)
    ensures b < |text| && b == ChooseBreak(text, width - lead - 2) && lead + b + 2 <= width - 1
    ensures Join(shorter, " ") == text[b + 1..] && Fits(shorter, cont, cont, width) && |shorter| < |other|
  {
    var first := |other[0]|;
    assert text[first + 1..] == Join(other[1..], " ");
    PlainSpacesEligible(text, first);
    b := ChooseBreak(text, width - lead - 2);
    assert first <= b;
    hide ChooseBreak, Join;
    shorter := FitSuffix(other[1..], b - first, cont, width);
    assert text[b + 1..] == text[first + 1..][b - first..];
  }
}
