/** The pure string functions of misc/ninja_syntax.py. */
module NinjaSyntax {
  import opened PyStrings

  datatype Option<+T> = None | Some(value: T)

  /** Three chained global replacements, in this order. */
  function EscapePath(word: string): string
  {
    Replace(Replace(Replace(word, "$ ", "$$ "), " ", "$ "), ":", "$:")
  }

  /** The same encoding in a single pass. */
  function EncodePath(word: string): string
  {
    if word == "" then ""
    else if |word| >= 2 && word[..2] == "$ " then "$$$ " + EncodePath(word[2..])
    else if word[0] == ' ' then "$ " + EncodePath(word[1..])
    else if word[0] == ':' then "$:" + EncodePath(word[1..])
    else [word[0]] + EncodePath(word[1..])
  }

  lemma ReplaceFirst(s: string, c: char, rep: string)
    requires s != ""
    ensures Replace(s, [c], rep) == (if s[0] == c then rep else [s[0]]) + Replace(s[1..], [c], rep)
  {
    assert s[..1] == [s[0]];
  }

  lemma {:induction false} ReplaceCharConcat(a: string, b: string, c: char, rep: string)
    ensures Replace(a + b, [c], rep) == Replace(a, [c], rep) + Replace(b, [c], rep)
  {
    if a == "" {
      assert a + b == b;
    } else {
      ReplaceCharConcat(a[1..], b, c, rep);
      ReplaceFirst(a, c, rep);
      ReplaceFirst(a + b, c, rep);
      hide Replace;
      assert (a + b)[1..] == a[1..] + b && (a + b)[0] == a[0];
      Regroup(if a[0] == c then rep else [a[0]], Replace(a[1..], [c], rep), Replace(b, [c], rep));
    }
  }

  lemma ReplaceOneChar(x: char, c: char, rep: string)
    ensures Replace([x], [c], rep) == if x == c then rep else [x]
  {
    assert [x][..1] == [x];
    assert [x][1..] == "";
    assert Replace("", [c], rep) == "";
  }

  /** The last two replacements work character by character. */
  function EscapeSpacesColons(s: string): string
  {
    Replace(Replace(s, " ", "$ "), ":", "$:")
  }

  lemma EscapeSpacesColonsCons(x: char, s: string)
    ensures EscapeSpacesColons([x] + s)
         == (if x == ' ' then "$ " else if x == ':' then "$:" else [x]) + EscapeSpacesColons(s)
  {
    ReplaceOneChar(x, ' ', "$ ");
    ReplaceCharConcat([x], s, ' ', "$ ");
    var y := Replace([x], " ", "$ ");
    ReplaceCharConcat(y, Replace(s, " ", "$ "), ':', "$:");
    if x == ' ' {
      assert y == ['$'] + [' '];
      ReplaceCharConcat(['$'], [' '], ':', "$:");
      ReplaceOneChar('$', ':', "$:");
      ReplaceOneChar(' ', ':', "$:");
    } else {
      ReplaceOneChar(x, ':', "$:");
    }
  }

  lemma ReplaceDollarSpace(word: string)
    requires word != ""
    ensures Replace(word, "$ ", "$$ ")
         == if |word| >= 2 && word[..2] == "$ " then "$$ " + Replace(word[2..], "$ ", "$$ ")
            else [word[0]] + Replace(word[1..], "$ ", "$$ ")
  {
    if |word| == 1 { assert word == [word[0]]; }
  }

  lemma EscapeDollarSpace(s: string)
    ensures EscapeSpacesColons("$$ " + s) == "$$$ " + EscapeSpacesColons(s)
  {
    assert "$$ " + s == ['$'] + (['$'] + ([' '] + s));
    EscapeSpacesColonsCons('$', ['$'] + ([' '] + s));
    EscapeSpacesColonsCons('$', [' '] + s);
    EscapeSpacesColonsCons(' ', s);
  }

  /** The chained replacements equal the single pass, on every word. */
  lemma {:induction false} EscapePathIsOnePass(word: string)
    ensures EscapePath(word) == EncodePath(word)
    decreases |word|
  {
    if word != "" {
      ReplaceDollarSpace(word);
      if |word| >= 2 && word[..2] == "$ " {
        EscapePathIsOnePass(word[2..]);
        EscapeDollarSpace(Replace(word[2..], "$ ", "$$ "));
      } else {
        EscapePathIsOnePass(word[1..]);
        EscapeSpacesColonsCons(word[0], Replace(word[1..], "$ ", "$$ "));
      }
    }
  }

  /** `None` is the failed assertion on text with a newline. */
  function Escape(s: string): Option<string>
  {
    if '\n' in s then None else Some(Replace(s, "$", "$$"))
  }

  /** The length of the longest prefix of word characters. */
  function WordLength(s: string, isWord: char -> bool): (n: nat)
    ensures n <= |s|
  {
    if s == "" || !isWord(s[0]) then 0 else 1 + WordLength(s[1..], isWord)
  }

  function Lookup(name: string, vars: map<string, string>, locals: map<string, string>): string
  {
    if name in locals then locals[name]
    else if name in vars then vars[name]
    else ""
  }

  /** `isWord` stands for the regular expression class `\w`. */
  function Expand(s: string, vars: map<string, string>, locals: map<string, string>, isWord: char -> bool): string
    decreases |s|
  {
    if s == "" then ""
    else if s[0] != '$' then [s[0]] + Expand(s[1..], vars, locals, isWord)
    else if |s| > 1 && s[1] == '$' then "$" + Expand(s[2..], vars, locals, isWord)
    else
      var n := WordLength(s[1..], isWord);
      Lookup(s[1..n + 1], vars, locals) + Expand(s[n + 1..], vars, locals, isWord)
  }

  lemma ReplaceDollar(s: string)
    requires s != ""
    ensures Replace(s, "$", "$$") == (if s[0] == '$' then "$$" else [s[0]]) + Replace(s[1..], "$", "$$")
  {
    assert s[..1] == [s[0]];
  }

  lemma ExpandOne(c: char, more: string, vars: map<string, string>,
                  locals: map<string, string>, isWord: char -> bool)
    ensures Expand((if c == '$' then "$$" else [c]) + more, vars, locals, isWord)
         == [c] + Expand(more, vars, locals, isWord)
  {
    var s := (if c == '$' then "$$" else [c]) + more;
    assert c == '$' ==> s[2..] == more;
    assert c != '$' ==> s[1..] == more;
  }

  lemma {:induction false} WordEnds(name: string, t: string, isWord: char -> bool)
    requires (forall i :: 0 <= i < |name| ==> isWord(name[i])) && (t == "" || !isWord(t[0]))
    ensures WordLength(name + t, isWord) == |name|
  {
    if name == "" {
      assert name + t == t;
    } else {
      WordEnds(name[1..], t, isWord);
      assert (name + t)[1..] == name[1..] + t;
    }
  }

  /** A reference is replaced by the local value of its name, else by the global one, else by nothing. */
  lemma ExpandReference(name: string, t: string, vars: map<string, string>, locals: map<string, string>, isWord: char -> bool)
    requires (forall i :: 0 <= i < |name| ==> isWord(name[i])) && (t == "" || !isWord(t[0]))
    requires !isWord('$') && (name == "" ==> t == "" || t[0] != '$')
    ensures Expand("$" + name + t, vars, locals, isWord)
         == (if name in locals then locals[name] else if name in vars then vars[name] else "") + Expand(t, vars, locals, isWord)
  {
    var s, n := "$" + name + t, |name|;
    assert s[1..] == name + t && s[1..n + 1] == name && s[n + 1..] == t;
    WordEnds(name, t, isWord);
    assert n > 0 ==> s[1] == name[0];
  }

  lemma {:induction false} EscapedPrefixExpands(s: string, t: string, vars: map<string, string>,
                                                locals: map<string, string>, isWord: char -> bool)
    ensures Expand(Replace(s, "$", "$$") + t, vars, locals, isWord) == s + Expand(t, vars, locals, isWord)
  {
    assert Replace("", "$", "$$") == "";
    hide Replace, Expand;
    if s == "" {
      assert "" + t == t && s + Expand(t, vars, locals, isWord) == Expand(t, vars, locals, isWord);
    } else {
      var more, after := Replace(s[1..], "$", "$$"), Expand(t, vars, locals, isWord);
      EscapedPrefixExpands(s[1..], t, vars, locals, isWord);
      ReplaceDollar(s);
      ExpandOne(s[0], more + t, vars, locals, isWord);
      Regroup(if s[0] == '$' then "$$" else [s[0]], more, t);
      Regroup([s[0]], s[1..], after);
      assert [s[0]] + s[1..] == s;
    }
  }

  /** Escaped text passes through expansion untouched, whatever follows it. */
  lemma EscapeThenExpand(s: string, t: string, vars: map<string, string>,
                         locals: map<string, string>, isWord: char -> bool)
    ensures Escape(s).Some? <==> '\n' !in s
    ensures Escape(s).Some? ==>
              Expand(Escape(s).value + t, vars, locals, isWord) == s + Expand(t, vars, locals, isWord)
    ensures Escape(s).Some? ==> Expand(Escape(s).value, vars, locals, isWord) == s
  {
    EscapedPrefixExpands(s, t, vars, locals, isWord);
    EscapedPrefixExpands(s, "", vars, locals, isWord);
    assert Replace(s, "$", "$$") + "" == Replace(s, "$", "$$");
  }
}
