/** What `Writer._line` computes: where it breaks a line and what it writes. */
module LineWrap {
  import opened PyStrings

  /**
   * The dollars right in front of `s[i]`, as the writer counts them: the scan
   * stops before index 0, so a run that reaches the start is one short.
   */
  function CountDollars(s: string, i: nat): (r: nat)
    requires i <= |s|
  {
    if i > 1 && s[i - 1] == '$' then 1 + CountDollars(s, i - 1) else 0
  }

  /** The dollars right in front of `s[i]`, all of them. */
  function DollarRun(s: string, i: nat): (r: nat)
    requires i <= |s|
    ensures r <= i
    ensures forall j :: i - r <= j < i ==> s[j] == '$'
    ensures r < i ==> s[i - r - 1] != '$'
  {
    if i > 0 && s[i - 1] == '$' then 1 + DollarRun(s, i - 1) else 0
  }

  lemma {:induction false} CountVersusRun(s: string, i: nat)
    requires i <= |s|
    ensures CountDollars(s, i) == if 0 < i == DollarRun(s, i) then i - 1 else DollarRun(s, i)
  {
    if i > 1 && s[i - 1] == '$' {
      CountVersusRun(s, i - 1);
    }
  }

  /** A space the writer considers unescaped. */
  predicate Eligible(s: string, i: int)
  {
    0 <= i < |s| && s[i] == ' ' && CountDollars(s, i) % 2 == 0
  }

  /** The rightmost eligible space before `end`, or -1. */
  function LastEligible(s: string, end: nat): (r: int)
    requires end <= |s|
    ensures -1 <= r < end
    ensures r >= 0 ==> Eligible(s, r)
    ensures forall i :: r < i < end ==> !Eligible(s, i)
  {
    if end == 0 then -1
    else if Eligible(s, end - 1) then end - 1
    else LastEligible(s, end - 1)
  }

  /** The leftmost eligible space at or after `start`, or -1. */
  function FirstEligible(s: string, start: nat): (r: int)
    requires start <= |s|
    ensures r == -1 || start <= r < |s|
    ensures r >= 0 ==> Eligible(s, r) && forall i :: start <= i < r ==> !Eligible(s, i)
    ensures r < 0 ==> forall i :: start <= i < |s| ==> !Eligible(s, i)
    decreases |s| - start
  {
    if start == |s| then -1
    else if Eligible(s, start) then start
    else FirstEligible(s, start + 1)
  }

  /** The space to break at when `available` columns are left, or -1. */
  function ChooseBreak(text: string, available: int): (r: int)
    ensures -1 <= r < |text|
    ensures r >= 0 ==> Eligible(text, r)
  {
    var e := Bound(available, |text|);
    var before := LastEligible(text, e);
    if before >= 0 then before else FirstEligible(text, e)
  }

  /** Which space is chosen: the last one in range, or the first one behind it. */
  lemma ChosenAt(text: string, available: int, k: nat)
    requires Eligible(text, k)
    requires if k < Bound(available, |text|) then forall i :: k < i < Bound(available, |text|) ==> !Eligible(text, i)
             else forall i :: 0 <= i < k ==> !Eligible(text, i)
    ensures ChooseBreak(text, available) == k
  {
  }

  /** The pieces of `text` that end up on separate physical lines. */
  function Segments(text: string, lead: nat, cont: nat, width: int): (r: seq<string>)
    ensures |r| > 0
    decreases |text|
  {
    if lead + |text| <= width then [text]
    else
      var b := ChooseBreak(text, width - lead - 2);
      if b < 0 then [text]
      else [text[..b]] + Segments(text[b + 1..], cont, cont, width)
  }

  /** The physical lines of the given pieces, after the first one's indentation. */
  function Body(segs: seq<string>, cont: nat): string
    requires |segs| > 0
  {
    if |segs| == 1 then segs[0] + "\n"
    else segs[0] + " $\n" + Spaces(cont) + Body(segs[1..], cont)
  }

  function Lead(indent: int): nat { if indent < 0 then 0 else 2 * indent }

  function Cont(indent: int): nat { Lead(indent + 2) }

  /** Everything `_line(text, indent)` writes. */
  function LineText(text: string, indent: int, width: int): string
  {
    Spaces(Lead(indent)) + Body(Segments(text, Lead(indent), Cont(indent), width), Cont(indent))
  }
}
