/** The Python string operations that the manifest writer is built from. */
module PyStrings {

  /** `' ' * n`: a non-positive count gives the empty string. */
  function Spaces(n: int): (r: string)
    ensures |r| == if n <= 0 then 0 else n
    ensures forall i :: 0 <= i < |r| ==> r[i] == ' '
    decreases if n <= 0 then 0 else n
  {
    if n <= 0 then "" else " " + Spaces(n - 1)
  }

  /** How Python reads a slice bound: negative bounds count from the end. */
  function Bound(i: int, n: nat): (r: nat)
    ensures r <= n
    ensures 0 <= i <= n ==> r == i
  {
    if i > n then n
    else if i >= 0 then i
    else if i + n >= 0 then i + n
    else 0
  }

  /** `s.rfind(c, 0, end)` for a one-character needle. */
  function RFind(s: string, c: char, end: int): (r: int)
    ensures -1 <= r < Bound(end, |s|)
    ensures r >= 0 ==> s[r] == c
    ensures forall i :: r < i < Bound(end, |s|) ==> s[i] != c
    decreases Bound(end, |s|)
  {
    var e := Bound(end, |s|);
    if e == 0 then -1
    else if s[e - 1] == c then e - 1
    else RFind(s, c, e - 1)
  }

  /** `s.find(c, start)` for a one-character needle. */
  function Find(s: string, c: char, start: int): (r: int)
    ensures r == -1 || Bound(start, |s|) <= r < |s|
    ensures r >= 0 ==> s[r] == c && forall i :: Bound(start, |s|) <= i < r ==> s[i] != c
    ensures r < 0 ==> forall i :: Bound(start, |s|) <= i < |s| ==> s[i] != c
    decreases |s| - Bound(start, |s|)
  {
    var b := Bound(start, |s|);
    if b == |s| then -1
    else if s[b] == c then b
    else Find(s, c, b + 1)
  }

  /** `sep.join(parts)`. */
  function Join(parts: seq<string>, sep: string): string
  {
    if |parts| == 0 then ""
    else if |parts| == 1 then parts[0]
    else parts[0] + sep + Join(parts[1..], sep)
  }

  function Concat(parts: seq<string>): string
  {
    if parts == [] then "" else parts[0] + Concat(parts[1..])
  }

  lemma {:induction false} ConcatAppend(a: seq<string>, b: seq<string>)
    ensures Concat(a + b) == Concat(a) + Concat(b)
  {
    if a == [] {
      assert a + b == b;
    } else {
      ConcatAppend(a[1..], b);
      assert (a + b)[1..] == a[1..] + b && (a + b)[0] == a[0];
      assert Concat(a + b) == a[0] + Concat(a[1..] + b) && Concat(a) == a[0] + Concat(a[1..]);
      hide Concat;
      Regroup(a[0], Concat(a[1..]), Concat(b));
    }
  }

  /** `s.replace(pat, rep)`: left to right, occurrences do not overlap. */
  function Replace(s: string, pat: string, rep: string): string
    requires |pat| > 0
  {
    if |s| < |pat| then s
    else if s[..|pat|] == pat then rep + Replace(s[|pat|..], pat, rep)
    else [s[0]] + Replace(s[1..], pat, rep)
  }

  /** Putting three sequences together, from either side. */
  lemma Regroup<T>(a: seq<T>, b: seq<T>, c: seq<T>)
    ensures a + b + c == a + (b + c)
  {
  }

  lemma SameSuffix<T>(a: seq<T>, b: seq<T>, c: seq<T>)
    ensures a + b == a + c <==> b == c
  {
    if a + b == a + c { assert b == (a + b)[|a|..] == (a + c)[|a|..] == c; }
  }
}
