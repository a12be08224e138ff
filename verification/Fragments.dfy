/**
 * Stretches of manifest text that can be put side by side and wrapped without
 * losing a space: every space that another one follows is an escaped one.
 */
module Fragments {
  import opened NinjaSyntax
  import opened LineWrap
  import opened LogicalLines
  import opened PathCodec

  /** At most `k` dollars in a row, and adjacent spaces only behind an escape. */
  ghost predicate Fragment(f: string, k: nat)
  {
    && Aligned(f) && '\n' !in f && '\r' !in f
    && (f != "" ==> f[|f| - 1] != '$')
    && (forall i :: 0 <= i <= |f| ==> DollarRun(f, i) <= k)
    && (forall p :: 0 <= p && p + 1 < |f| && f[p] == ' ' && f[p + 1] == ' ' ==> !Aligned(f[..p]))
    && (f != "" && f[|f| - 1] == ' ' ==> !Aligned(f[..|f| - 1]))
  }

  lemma {:induction false} RunOfPrefix(s: string, n: nat, i: nat)
    requires i <= n <= |s|
    ensures DollarRun(s[..n], i) == DollarRun(s, i)
    decreases i
  {
    if i > 0 && s[i - 1] == '$' { RunOfPrefix(s, n, i - 1); }
  }

  lemma {:induction false} RunStops(a: string, b: string, i: nat)
    requires i <= |b| && (a == "" || a[|a| - 1] != '$')
    ensures DollarRun(a + b, |a| + i) == DollarRun(b, i)
  {
    if i > 0 && b[i - 1] == '$' {
      RunStops(a, b, i - 1);
    }
  }

  /** A prefix ends inside an escape exactly when it ends in an odd run of dollars. */
  lemma {:induction false} AlignedParity(u: string)
    ensures Aligned(u) <==> DollarRun(u, |u|) % 2 == 0
    decreases |u|
  {
    if |u| >= 2 || (u != "" && u[0] != '$') {
      var k := if u[0] == '$' then 2 else 1;
      AlignedParity(u[k..]);
      RunOfSuffix(u, k, |u|);
    }
  }

  lemma RunStep(s: string, i: nat)
    requires 0 < i <= |s|
    ensures DollarRun(s, i) == if s[i - 1] == '$' then DollarRun(s, i - 1) + 1 else 0
  {
  }

  lemma {:induction false} RunOfSuffix(u: string, k: nat, i: nat)
    requires k <= i <= |u| && (k == 1 || k == 2)
    requires if k == 1 then u[0] != '$' else u[0] == '$'
    ensures DollarRun(u, i) % 2 == DollarRun(u[k..], i - k) % 2
    decreases i
  {
    if i > k {
      hide DollarRun;
      var v := u[k..];
      assert v[i - k - 1] == u[i - 1];
      RunStep(u, i);
      RunStep(v, i - k);
      RunOfSuffix(u, k, i - 1);
    } else if k == 2 {
      assert DollarRun(u, 1) == 1;
    }
  }

  lemma FragmentShielded(f: string, k: nat, a: int)
    requires Fragment(f, k) && k + 2 <= a
    ensures Shielded(f, a)
  {
    forall p | 0 <= p && p + 1 < |f| && f[p] == ' ' && f[p + 1] == ' '
      ensures DollarRun(f, p) % 2 == 1 && DollarRun(f, p) + 2 <= a
    {
      AlignedParity(f[..p]);
      RunOfPrefix(f, p, p);
    }
  }

  lemma ConcatRuns(a: string, b: string, k: nat)
    requires Fragment(a, k) && forall i :: 0 <= i <= |b| ==> DollarRun(b, i) <= k
    ensures forall i :: 0 <= i <= |a + b| ==> DollarRun(a + b, i) <= k
  {
    var f := a + b;
    forall i | 0 <= i <= |f|
      ensures DollarRun(f, i) <= k
    {
      if i <= |a| {
        assert f[..|a|] == a;
        RunOfPrefix(f, |a|, i);
      } else {
        RunStops(a, b, i - |a|);
      }
    }
  }

  lemma ConcatSpaces(a: string, b: string, k: nat)
    requires Fragment(a, k)
    requires forall p :: 0 <= p && p + 1 < |b| && b[p] == ' ' && b[p + 1] == ' ' ==> !Aligned(b[..p])
    ensures forall p :: 0 <= p && p + 1 < |a + b| && (a + b)[p] == ' ' && (a + b)[p + 1] == ' ' ==> !Aligned((a + b)[..p])
  {
    var f := a + b;
    forall p | 0 <= p && p + 1 < |f| && f[p] == ' ' && f[p + 1] == ' '
      ensures !Aligned(f[..p])
    {
      if p + 1 < |a| {
        assert f[..p] == a[..p] && a[p] == ' ' && a[p + 1] == ' ';
      } else if p + 1 == |a| {
        assert f[..p] == a[..p];
      } else {
        assert f[..p] == a + b[..p - |a|];
        assert b[p - |a|] == ' ' && b[p - |a| + 1] == ' ';
        AlignedSplit(a, b[..p - |a|]);
      }
    }
  }

  /** Fragments can be put side by side. */
  lemma FragmentConcat(a: string, b: string, k: nat)
    requires Fragment(a, k) && Fragment(b, k)
    ensures Fragment(a + b, k)
  {
    var f := a + b;
    AlignedSplit(a, b);
    ConcatRuns(a, b, k);
    ConcatSpaces(a, b, k);
    if b == "" {
      assert f == a;
    } else if f[|f| - 1] == ' ' {
      assert f[..|f| - 1] == a + b[..|b| - 1];
      AlignedSplit(a, b[..|b| - 1]);
    }
  }

  /** A separator and a word. */
  lemma SeparatedFragment(w: string, k: nat)
    requires Fragment(w, k) && w != "" && w[0] != ' '
    ensures Fragment(" " + w, k)
  {
    var f := " " + w;
    assert Aligned(" ");
    AlignedSplit(" ", w);
    forall i | 0 <= i <= |f|
      ensures DollarRun(f, i) <= k
    {
      if i > 0 { RunStops(" ", w, i - 1); }
    }
    forall p | 0 <= p && p + 1 < |f| && f[p] == ' ' && f[p + 1] == ' '
      ensures !Aligned(f[..p])
    {
      assert p > 0;
      assert w[p - 1] == ' ' && w[p] == ' ';
      assert f[..p] == " " + w[..p - 1];
      AlignedSplit(" ", w[..p - 1]);
    }
    assert f[..|f| - 1] == " " + w[..|w| - 1];
    AlignedSplit(" ", w[..|w| - 1]);
  }

  lemma {:induction false} PlainFragment(f: string, k: nat)
    requires forall i :: 0 <= i < |f| ==> f[i] != ' ' && f[i] != '$' && f[i] != '\n' && f[i] != '\r'
    ensures Fragment(f, k)
  {
    if f == "" {
    } else {
      PlainFragment(f[1..], k);
      CharFragment(f[0], k);
      FragmentConcat([f[0]], f[1..], k);
      assert f == [f[0]] + f[1..];
    }
  }

  lemma CharFragment(c: char, k: nat)
    requires c != ' ' && c != '$' && c != '\n' && c != '\r'
    ensures Fragment([c], k)
  {
    assert DollarRun([c], 1) == 0;
  }

  lemma EscapeFragments()
    ensures Fragment("$ ", 1) && Fragment("$:", 1) && Fragment("$ ", 3) && Fragment("$:", 3) && Fragment("$$$ ", 3)
  {
    assert Aligned("$ "[2..]) && Aligned("$:"[2..]);
    assert "$$$ "[2..] == "$ " && Aligned("$$$ "[2..][2..]);
    assert "$$$ "[..3][2..] == "$" && !Aligned("$$$ "[..3]);
    assert "$ "[..1] == "$" && !Aligned("$");
    EscapeRuns("$ ");
    EscapeRuns("$:");
    var s := "$$$ ";
    assert DollarRun(s, 0) == 0 && DollarRun(s, 1) == 1 && DollarRun(s, 2) == 2 && DollarRun(s, 3) == 3 && DollarRun(s, 4) == 0;
  }

  lemma EscapeRuns(s: string)
    requires |s| == 2 && s[0] == '$' && s[1] != '$'
    ensures forall i :: 0 <= i <= |s| ==> DollarRun(s, i) <= 1
  {
    assert DollarRun(s, 0) == 0 && DollarRun(s, 1) == 1 && DollarRun(s, 2) == 0;
  }

  /** An escaped path is a fragment; without dollars of its own, runs have length one. */
  lemma {:induction false} EncodedFragment(word: string)
    requires Escapable(word)
    ensures Fragment(EncodePath(word), 3)
    ensures '$' !in word ==> Fragment(EncodePath(word), 1)
    decreases |word|
  {
    if word == "" {
    } else {
      var k := PieceLength(word);
      EscapableByPieces(word);
      EncodedFragment(word[k..]);
      EncodeByPieces(word, "");
      var e := EncodePiece(word[..k]);
      assert EncodePath(word) + "" == EncodePath(word);
      assert EncodePath(word) == e + EncodePath(word[k..]);
      EscapeFragments();
      assert word[..1] == [word[0]];
      if k == 1 && word[0] != ' ' && word[0] != ':' {
        CharFragment(word[0], 1);
        CharFragment(word[0], 3);
      }
      FragmentConcat(e, EncodePath(word[k..]), 3);
      if '$' !in word {
        assert word[0] in word;
        FragmentConcat(e, EncodePath(word[k..]), 1);
      }
    }
  }

  /** Every space is the partner of a dollar. */
  ghost predicate Escaped(w: string)
  {
    forall i :: 0 <= i < |w| && w[i] == ' ' ==> !Aligned(w[..i])
  }

  lemma EscapedConcat(a: string, b: string)
    requires Escaped(a) && Escaped(b) && Aligned(a)
    ensures Escaped(a + b)
  {
    var f := a + b;
    forall i | 0 <= i < |f| && f[i] == ' ' ensures !Aligned(f[..i]) {
      hide Aligned;
      if i < |a| {
        assert f[..i] == a[..i];
      } else {
        assert f[..i] == a + b[..i - |a|] && b[i - |a|] == ' ';
        AlignedSplit(a, b[..i - |a|]);
      }
    }
  }

  lemma EscapedPieces()
    ensures Escaped("$ ") && Escaped("$:") && Escaped("$$$ ")
    ensures Aligned("$ ") && Aligned("$:") && Aligned("$$$ ")
  {
    assert "$ "[2..] == "" && "$:"[2..] == "" && "$$$ "[2..] == "$ ";
    assert "$ "[..1] == "$" && "$$$ "[..3] == "$$$" && "$$$"[2..] == "$";
  }

  lemma {:induction false} EncodedEscaped(word: string)
    requires Escapable(word)
    ensures Escaped(EncodePath(word))
    decreases |word|
  {
    if word != "" {
      var k := PieceLength(word);
      EscapableByPieces(word);
      EncodedEscaped(word[k..]);
      EncodeByPieces(word, "");
      var e := EncodePiece(word[..k]);
      assert EncodePath(word) + "" == EncodePath(word);
      assert EncodePath(word) == e + EncodePath(word[k..]);
      EscapedPieces();
      assert word[..1] == [word[0]];
      EscapedConcat(e, EncodePath(word[k..]));
    }
  }

  /** So no two of its spaces are adjacent. */
  lemma EscapedSingle(w: string)
    requires Escaped(w)
    ensures NoDoubleSpace(w) && (w != "" ==> w[0] != ' ')
  {
    forall p | 0 <= p && p + 1 < |w| && w[p] == ' ' ensures w[p + 1] != ' ' {
      AlignedThroughSpace(w[..p]);
      assert w[..p] + " " == w[..p + 1];
    }
    if w != "" { assert Aligned(w[..0]); }
  }
}
