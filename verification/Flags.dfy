/** The command-line splitting of cmd/reninja/reninja.go, done before flags are parsed. */
module Flags {
  import opened PyStrings

  datatype Kind = Positional | Terminator | Flag(name: string, hasInlineValue: bool)

  function ParseArg(arg: string): Kind
  {
    if |arg| < 2 || arg[0] != '-' then Positional
    else if arg == "--" then Terminator
    else
      var name := if arg[1] == '-' then arg[2..] else arg[1..];
      var equals := Find(name, '=', 0);
      if equals == 0 then Positional
      else if equals > 0 then Flag(name[..equals], true)
      else Flag(name, false)
  }

  /** An argument that spells a flag, with one dash or two and perhaps a value. */
  predicate SpellsFlag(arg: string, name: string, inline: bool, value: string)
  {
    var text := if inline then name + "=" + value else name;
    arg == "--" + text || (arg == "-" + text && text != "" && text[0] != '-')
  }

  /** The reading of an argument, by how the argument is spelled. */
  lemma ArgumentForms(arg: string, name: string, inline: bool)
    ensures ParseArg(arg) == Flag(name, inline) <==>
            name != "" && '=' !in name && exists value: string :: SpellsFlag(arg, name, inline, value)
    ensures ParseArg(arg).Terminator? <==> arg == "--"
  {
    if ParseArg(arg) == Flag(name, inline) {
      FlagIsSpelled(arg, name, inline);
    } else if name != "" && '=' !in name && exists value: string :: SpellsFlag(arg, name, inline, value) {
      var value: string :| SpellsFlag(arg, name, inline, value);
      SpelledFlagIsRead(arg, name, inline, value);
    }
  }

  lemma FlagIsSpelled(arg: string, name: string, inline: bool)
    requires ParseArg(arg) == Flag(name, inline)
    ensures name != "" && '=' !in name && exists value: string :: SpellsFlag(arg, name, inline, value)
  {
    hide Find, Bound, SpellsFlag;
    var text := if arg[1] == '-' then arg[2..] else arg[1..];
    var equals := Find(text, '=', 0);
    assert inline == (equals > 0) && equals != 0 && text != "";
    assert name == if inline then text[..equals] else text;
    hide ParseArg;
    NameBeforeEquals(text, equals);
    var value := if inline then text[equals + 1..] else "";
    assert text == if inline then name + "=" + value else name;
    Dashes(arg, text);
    SpelledWith(arg, name, inline, value, text);
  }

  lemma Dashes(arg: string, text: string)
    requires |arg| >= 2 && arg[0] == '-' && text == if arg[1] == '-' then arg[2..] else arg[1..]
    ensures arg == (if arg[1] == '-' then "--" else "-") + text
  {
  }

  lemma SpelledWith(arg: string, name: string, inline: bool, value: string, text: string)
    requires text == (if inline then name + "=" + value else name) && text != ""
    requires arg == "--" + text || (arg == "-" + text && text[0] != '-')
    ensures SpellsFlag(arg, name, inline, value)
  {
  }

  lemma NameBeforeEquals(text: string, equals: int)
    requires equals == Find(text, '=', 0)
    ensures equals >= 0 ==> equals < |text| && text[equals] == '=' && '=' !in text[..equals]
    ensures equals < 0 ==> '=' !in text
  {
    hide Find;
    assert Bound(0, |text|) == 0;
  }

  lemma SpelledFlagIsRead(arg: string, name: string, inline: bool, value: string)
    requires name != "" && '=' !in name && SpellsFlag(arg, name, inline, value)
    ensures ParseArg(arg) == Flag(name, inline)
  {
    hide Find;
    var text := if inline then name + "=" + value else name;
    assert forall i :: 0 <= i < |name| ==> text[i] == name[i];
    assert (if arg[1] == '-' then arg[2..] else arg[1..]) == text;
    if inline {
      assert text[|name|] == '=';
      assert text[..|name|] == name;
    }
  }

  /** The flag that selects a tool; what follows its value is for the tool. */
  predicate IsTool(arg: string) { arg == "-t" }

  /** Flag names, each with whether it is a boolean flag. */
  type Table = map<string, bool>

  /** The argument is a flag whose value is the next argument. */
  predicate TakesNext(table: Table, arg: string)
  {
    var kind := ParseArg(arg);
    kind.Flag? && !kind.hasInlineValue && !(kind.name in table && table[kind.name])
  }

  predicate Known(table: Table, arg: string)
  {
    var kind := ParseArg(arg);
    kind.Flag? ==> kind.name in table
  }

  function Repeat(b: bool, n: nat): (r: seq<bool>)
    ensures |r| == n && forall i :: 0 <= i < n ==> r[i] == b
  {
    if n == 0 then [] else [b] + Repeat(b, n - 1)
  }

  /** For each argument, whether it is kept. */
  function Sides(table: Table, args: seq<string>): (r: seq<bool>)
    ensures |r| == |args|
    decreases |args|
  {
    if args == [] then []
    else
      var arg := args[0];
      var kept := Known(table, arg);
      if ParseArg(arg).Terminator? then Repeat(true, |args|)
      else if !TakesNext(table, arg) then [kept] + Sides(table, args[1..])
      else if |args| == 1 then [kept]
      else if IsTool(arg) then [kept, kept] + Repeat(false, |args| - 2)
      else [kept, kept] + Sides(table, args[2..])
  }

  /** The arguments on one side, in order. */
  function Select(args: seq<string>, sides: seq<bool>, side: bool): seq<string>
    requires |args| == |sides|
  {
    if args == [] then []
    else (if sides[0] == side then [args[0]] else []) + Select(args[1..], sides[1..], side)
  }

  function Kept(table: Table, args: seq<string>): seq<string>
  {
    Select(args, Sides(table, args), true)
  }

  function Stripped(table: Table, args: seq<string>): seq<string>
  {
    Select(args, Sides(table, args), false)
  }

  lemma {:induction false} SelectAll(args: seq<string>, side: bool, other: bool)
    ensures Select(args, Repeat(side, |args|), other) == if side == other then args else []
  {
    if args != [] {
      SelectAll(args[1..], side, other);
      assert Repeat(side, |args|)[1..] == Repeat(side, |args| - 1);
    }
  }

  lemma SelectTwo(a: string, b: string, more: seq<string>, kept: bool, sides: seq<bool>, side: bool)
    requires |more| == |sides|
    ensures Select([a, b] + more, [kept, kept] + sides, side) == (if kept == side then [a, b] else []) + Select(more, sides, side)
  {
    assert ([a, b] + more)[1..] == [b] + more && ([kept, kept] + sides)[1..] == [kept] + sides;
    assert ([b] + more)[1..] == more && ([kept] + sides)[1..] == sides;
  }

  lemma TerminatorStep(table: Table, args: seq<string>)
    requires args != [] && ParseArg(args[0]).Terminator?
    ensures Kept(table, args) == args && Stripped(table, args) == []
  {
    SelectAll(args, true, true);
    SelectAll(args, true, false);
  }

  lemma PlainStep(table: Table, args: seq<string>)
    requires args != [] && !ParseArg(args[0]).Terminator? && !TakesNext(table, args[0])
    ensures Kept(table, args) == (if Known(table, args[0]) then [args[0]] else []) + Kept(table, args[1..])
    ensures Stripped(table, args) == (if Known(table, args[0]) then [] else [args[0]]) + Stripped(table, args[1..])
  {
  }

  lemma LastStep(table: Table, args: seq<string>)
    requires |args| == 1 && TakesNext(table, args[0])
    ensures Kept(table, args) == if Known(table, args[0]) then args else []
    ensures Stripped(table, args) == if Known(table, args[0]) then [] else args
  {
    var sides := [Known(table, args[0])];
    assert Sides(table, args) == sides;
    assert args[1..] == [] && sides[1..] == [] && args == [args[0]];
    assert Select(args, sides, true) == (if sides[0] then [args[0]] else []) + Select([], [], true);
    assert Select(args, sides, false) == (if sides[0] then [] else [args[0]]) + Select([], [], false);
  }

  lemma PairStep(table: Table, args: seq<string>)
    requires |args| > 1 && TakesNext(table, args[0]) && !IsTool(args[0])
    ensures Kept(table, args) == (if Known(table, args[0]) then args[..2] else []) + Kept(table, args[2..])
    ensures Stripped(table, args) == (if Known(table, args[0]) then [] else args[..2]) + Stripped(table, args[2..])
  {
    var more := args[2..];
    SelectTwo(args[0], args[1], more, Known(table, args[0]), Sides(table, more), true);
    SelectTwo(args[0], args[1], more, Known(table, args[0]), Sides(table, more), false);
    assert args == [args[0], args[1]] + more && args[..2] == [args[0], args[1]];
  }

  lemma ToolStep(table: Table, args: seq<string>)
    requires |args| > 1 && TakesNext(table, args[0]) && IsTool(args[0])
    ensures Kept(table, args) == if Known(table, args[0]) then args[..2] else []
    ensures Stripped(table, args) == if Known(table, args[0]) then args[2..] else args
  {
    var more := args[2..];
    var sides := Repeat(false, |args| - 2);
    SelectTwo(args[0], args[1], more, Known(table, args[0]), sides, true);
    SelectTwo(args[0], args[1], more, Known(table, args[0]), sides, false);
    assert args == [args[0], args[1]] + more && args[..2] == [args[0], args[1]];
    SelectAll(more, false, true);
    SelectAll(more, false, false);
  }

  /** The argument spells the flag of this name, with or without a value of its own. */
  ghost predicate Spells(arg: string, name: string, inline: bool)
  {
    name != "" && '=' !in name && exists value: string :: SpellsFlag(arg, name, inline, value)
  }

  /** A flag with a value of its own, and a boolean flag, goes alone: known ones are kept, unknown ones stripped. */
  lemma FlagsAlone(table: Table, arg: string, name: string, inline: bool, more: seq<string>)
    requires Spells(arg, name, inline) && (inline || (name in table && table[name]))
    ensures Kept(table, [arg] + more) == (if name in table then [arg] else []) + Kept(table, more)
    ensures Stripped(table, [arg] + more) == (if name in table then [] else [arg]) + Stripped(table, more)
  {
    hide SpellsFlag, Kept, Stripped;
    ArgumentForms(arg, name, inline);
    var args := [arg] + more;
    assert args[1..] == more;
    PlainStep(table, args);
  }

  /** A value flag, or one that is not known, takes the next argument along, if there is one. */
  lemma FlagsWithValues(table: Table, arg: string, name: string, value: string, more: seq<string>)
    requires Spells(arg, name, false) && (name in table ==> !table[name])
    ensures arg != "-t" ==> Kept(table, [arg, value] + more) == (if name in table then [arg, value] else []) + Kept(table, more)
    ensures arg != "-t" ==>
              Stripped(table, [arg, value] + more) == (if name in table then [] else [arg, value]) + Stripped(table, more)
    ensures Kept(table, [arg]) == (if name in table then [arg] else [])
    ensures Stripped(table, [arg]) == (if name in table then [] else [arg])
  {
    hide SpellsFlag, Kept, Stripped;
    ArgumentForms(arg, name, false);
    var args := [arg, value] + more;
    assert args[2..] == more && args[..2] == [arg, value];
    if arg != "-t" { PairStep(table, args); }
    LastStep(table, [arg]);
  }

  /** Behind the tool's name everything is for the tool. */
  lemma ToolSplits(table: Table, tool: string, more: seq<string>)
    requires "t" in table ==> !table["t"]
    ensures Kept(table, ["-t", tool] + more) == if "t" in table then ["-t", tool] else []
    ensures Stripped(table, ["-t", tool] + more) == if "t" in table then more else ["-t", tool] + more
  {
    hide Kept, Stripped;
    var args := ["-t", tool] + more;
    assert args[2..] == more && args[..2] == ["-t", tool];
    SpelledFlagIsRead("-t", "t", false, "");
    ToolStep(table, args);
  }

  lemma ReadFlagsAreSpelled(arg: string)
    requires ParseArg(arg).Flag?
    ensures Spells(arg, ParseArg(arg).name, ParseArg(arg).hasInlineValue)
  {
    hide SpellsFlag;
    ArgumentForms(arg, ParseArg(arg).name, ParseArg(arg).hasInlineValue);
  }

  /** What spells no flag is kept, and everything behind a terminator with it. */
  lemma OthersKept(table: Table, arg: string, more: seq<string>)
    requires forall name: string, inline: bool :: !Spells(arg, name, inline)
    ensures Kept(table, [arg] + more) == if arg == "--" then [arg] + more else [arg] + Kept(table, more)
    ensures Stripped(table, [arg] + more) == if arg == "--" then [] else Stripped(table, more)
    ensures Kept(table, []) == [] && Stripped(table, []) == []
  {
    hide Kept, Stripped, SpellsFlag;
    var args := [arg] + more;
    assert args[1..] == more;
    ArgumentForms(arg, "", false);
    NothingLeft(table, []);
    if arg == "--" {
      TerminatorStep(table, args);
    } else {
      if ParseArg(arg).Flag? { ReadFlagsAreSpelled(arg); }
      PlainStep(table, args);
    }
  }

  /** What the loop has to do still, and what it has done. */
  ghost predicate SoFar(table: Table, args: seq<string>, i: nat, res: seq<string>, stripped: seq<string>)
    requires i <= |args|
  {
    res + Kept(table, args[i..]) == Kept(table, args) && stripped + Stripped(table, args[i..]) == Stripped(table, args)
  }

  lemma Advance(table: Table, args: seq<string>, i: nat, k: nat, res: seq<string>, stripped: seq<string>,
                moreRes: seq<string>, moreStripped: seq<string>)
    requires i + k <= |args| && SoFar(table, args, i, res, stripped)
    requires Kept(table, args[i..]) == moreRes + Kept(table, args[i + k..])
    requires Stripped(table, args[i..]) == moreStripped + Stripped(table, args[i + k..])
    ensures SoFar(table, args, i + k, res + moreRes, stripped + moreStripped)
  {
    Regroup(res, moreRes, Kept(table, args[i + k..]));
    Regroup(stripped, moreStripped, Stripped(table, args[i + k..]));
  }

  /** How one argument is treated. */
  method Classify(table: Table, arg: string) returns (isTerminator: bool, known: bool, takesNext: bool)
    ensures isTerminator == ParseArg(arg).Terminator?
    ensures known == Known(table, arg) && takesNext == TakesNext(table, arg)
  {
    var kind := ParseArg(arg);
    isTerminator := kind.Terminator?;
    if !kind.Flag? { return isTerminator, true, false; }
    var isBoolFlag := kind.name in table && table[kind.name];
    known := kind.name in table;
    takesNext := !kind.hasInlineValue && !isBoolFlag;
  }

  /** The splitter. Both results keep the order of the arguments, and together they are all of them. */
  method StripUnknownFlags(table: Table, args: seq<string>) returns (res: seq<string>, stripped: seq<string>)
    ensures res == Kept(table, args) && stripped == Stripped(table, args)
    ensures Subsequence(res, args) && Subsequence(stripped, args) && multiset(args) == multiset(res) + multiset(stripped)
  {
    SplittingPartitions(table, args);
    res, stripped := Split(table, args);
  }

  method Split(table: Table, args: seq<string>) returns (res: seq<string>, stripped: seq<string>)
    ensures res == Kept(table, args) && stripped == Stripped(table, args)
  {
    res, stripped := [], [];
    var i := 0;
    assert args[0..] == args;
    assert SoFar(table, args, 0, res, stripped);
    hide IsTool, ParseArg, TakesNext, Known, Kept, Stripped, SoFar;
    while i < |args|
      invariant 0 <= i <= |args|
      invariant SoFar(table, args, i, res, stripped)
    {
      var arg := args[i];
      var isTerminator, known, takesNext := Classify(table, arg);
      if isTerminator {
        TerminatorEnds(table, args, i, res, stripped);
        res := res + args[i..];
        return;
      }
      if !takesNext {
        PlainAdvance(table, args, i, res, stripped);
        if known { res := res + [arg]; } else { stripped := stripped + [arg]; }
        i := i + 1;
        continue;
      }
      if IsTool(arg) || i + 1 == |args| {
        res, stripped := LastFlag(table, args, i, known, res, stripped);
        return;
      }
      PairAdvance(table, args, i, res, stripped);
      if known { res := res + args[i..i + 2]; } else { stripped := stripped + args[i..i + 2]; }
      i := i + 2;
    }
    NothingLeft(table, args[i..]);
    SoFarEnds(table, args, i, res, stripped);
  }

  lemma TerminatorEnds(table: Table, args: seq<string>, i: nat, res: seq<string>, stripped: seq<string>)
    requires i < |args| && ParseArg(args[i]).Terminator? && SoFar(table, args, i, res, stripped)
    ensures res + args[i..] == Kept(table, args) && stripped == Stripped(table, args)
  {
    hide ParseArg, Kept, Stripped;
    assert args[i..][0] == args[i];
    TerminatorStep(table, args[i..]);
    SoFarEnds(table, args, i, res, stripped);
  }

  lemma PlainAdvance(table: Table, args: seq<string>, i: nat, res: seq<string>, stripped: seq<string>)
    requires i < |args| && !ParseArg(args[i]).Terminator? && !TakesNext(table, args[i]) && SoFar(table, args, i, res, stripped)
    ensures if Known(table, args[i]) then SoFar(table, args, i + 1, res + [args[i]], stripped)
            else SoFar(table, args, i + 1, res, stripped + [args[i]])
  {
    hide IsTool, ParseArg, TakesNext, Known, Kept, Stripped, SoFar;
    var left, known := args[i..], Known(table, args[i]);
    assert left[0] == args[i] && left[1..] == args[i + 1..];
    PlainStep(table, left);
    Advance(table, args, i, 1, res, stripped, if known then [args[i]] else [], if known then [] else [args[i]]);
    assert res + [] == res && stripped + [] == stripped;
  }

  lemma PairAdvance(table: Table, args: seq<string>, i: nat, res: seq<string>, stripped: seq<string>)
    requires i + 1 < |args| && TakesNext(table, args[i]) && !IsTool(args[i]) && SoFar(table, args, i, res, stripped)
    ensures if Known(table, args[i]) then SoFar(table, args, i + 2, res + args[i..i + 2], stripped)
            else SoFar(table, args, i + 2, res, stripped + args[i..i + 2])
  {
    hide IsTool, ParseArg, TakesNext, Known, Kept, Stripped, SoFar;
    var left, pair, known := args[i..], args[i..i + 2], Known(table, args[i]);
    assert left[0] == args[i] && left[..2] == pair && left[2..] == args[i + 2..];
    PairStep(table, left);
    Advance(table, args, i, 2, res, stripped, if known then pair else [], if known then [] else pair);
    assert res + [] == res && stripped + [] == stripped;
  }

  lemma NothingLeft(table: Table, args: seq<string>)
    requires args == []
    ensures Kept(table, args) == [] && Stripped(table, args) == []
  {
  }

  lemma SoFarEnds(table: Table, args: seq<string>, i: nat, res: seq<string>, stripped: seq<string>)
    requires i <= |args| && SoFar(table, args, i, res, stripped) && Stripped(table, args[i..]) == []
    ensures stripped == Stripped(table, args) && res + Kept(table, args[i..]) == Kept(table, args)
    ensures Kept(table, args[i..]) == [] ==> res == Kept(table, args)
  {
    hide Kept, Stripped;
    assert stripped + [] == stripped && res + [] == res;
  }

  /** A flag behind which no more flags are read: the last argument, or `-t` with its value. */
  method LastFlag(table: Table, args: seq<string>, i: nat, known: bool, res0: seq<string>, stripped0: seq<string>)
    returns (res: seq<string>, stripped: seq<string>)
    requires i < |args| && TakesNext(table, args[i]) && known == Known(table, args[i])
    requires IsTool(args[i]) || i + 1 == |args|
    requires SoFar(table, args, i, res0, stripped0)
    ensures res == Kept(table, args) && stripped == Stripped(table, args)
  {
    res, stripped := res0, stripped0;
    ghost var left := args[i..];
    var taken := if i + 1 < |args| then [args[i], args[i + 1]] else [args[i]];
    if known { res := res + taken; } else { stripped := stripped + taken; }
    if i + 1 < |args| {
      assert left[..2] == taken && left[2..] == args[i + 2..] && left == taken + args[i + 2..];
      ToolStep(table, left);
      stripped := stripped + args[i + 2..];
    } else {
      assert left == taken;
      LastStep(table, left);
    }
  }

  /** `sub` is `all` with some elements left out. */
  ghost predicate Subsequence(sub: seq<string>, all: seq<string>)
    decreases |all|
  {
    if sub == [] then true
    else if all == [] then false
    else (sub[0] == all[0] && Subsequence(sub[1..], all[1..])) || Subsequence(sub, all[1..])
  }

  lemma {:induction false} SelectIsSubsequence(args: seq<string>, sides: seq<bool>, side: bool)
    requires |args| == |sides|
    ensures Subsequence(Select(args, sides, side), args)
  {
    if args != [] {
      SelectIsSubsequence(args[1..], sides[1..], side);
      if sides[0] == side {
        assert Select(args, sides, side)[1..] == Select(args[1..], sides[1..], side);
      } else {
        assert Select(args, sides, side) == Select(args[1..], sides[1..], side);
      }
    }
  }

  lemma OneMore(x: string, all: seq<string>, a: seq<string>, b: seq<string>)
    requires multiset(all) == multiset(a) + multiset(b)
    ensures multiset([x] + all) == multiset([x] + a) + multiset(b) == multiset(a) + multiset([x] + b)
  {
    assert multiset([x] + all) == multiset{x} + multiset(all);
    assert multiset([x] + a) == multiset{x} + multiset(a) && multiset([x] + b) == multiset{x} + multiset(b);
  }

  lemma {:induction false} SelectPartitions(args: seq<string>, sides: seq<bool>)
    requires |args| == |sides|
    ensures multiset(args) == multiset(Select(args, sides, true)) + multiset(Select(args, sides, false))
  {
    if args != [] {
      var x, more, rest := args[0], args[1..], sides[1..];
      SelectPartitions(more, rest);
      assert args == [x] + more;
      var a, b := Select(more, rest, true), Select(more, rest, false);
      assert Select(args, sides, true) == if sides[0] then [x] + a else a;
      assert Select(args, sides, false) == if sides[0] then b else [x] + b;
      hide Select;
      OneMore(x, more, a, b);
    }
  }

  /**
   * Splitting is a partition that keeps the order: both results are
   * subsequences of the arguments, and together they are all of them.
   */
  lemma SplittingPartitions(table: Table, args: seq<string>)
    ensures Subsequence(Kept(table, args), args) && Subsequence(Stripped(table, args), args)
    ensures multiset(args) == multiset(Kept(table, args)) + multiset(Stripped(table, args))
  {
    SelectIsSubsequence(args, Sides(table, args), true);
    SelectIsSubsequence(args, Sides(table, args), false);
    SelectPartitions(args, Sides(table, args));
  }

  /** The positions where the splitter looks at an argument itself, not as a value. */
  predicate Scanned(table: Table, args: seq<string>, i: nat)
    decreases |args|
  {
    if i >= |args| then false
    else if i == 0 then true
    else if ParseArg(args[0]).Terminator? then false
    else if !TakesNext(table, args[0]) then Scanned(table, args[1..], i - 1)
    else i >= 2 && !IsTool(args[0]) && Scanned(table, args[2..], i - 2)
  }

  lemma TerminatorTakesNothing(table: Table, arg: string)
    ensures TakesNext(table, arg) ==> !ParseArg(arg).Terminator?
  {
  }

  lemma StepOne(table: Table, args: seq<string>, j: nat)
    requires 0 < j < |args| && !ParseArg(args[0]).Terminator? && !TakesNext(table, args[0])
    ensures Sides(table, args)[j] == Sides(table, args[1..])[j - 1]
    ensures Scanned(table, args, j) <==> Scanned(table, args[1..], j - 1)
  {
    hide ParseArg, Known, TakesNext, IsTool;
  }

  lemma StepTwo(table: Table, args: seq<string>, j: nat)
    requires 1 < j < |args| && TakesNext(table, args[0]) && !IsTool(args[0])
    ensures Sides(table, args)[j] == Sides(table, args[2..])[j - 2]
    ensures Scanned(table, args, j) <==> Scanned(table, args[2..], j - 2)
  {
    TerminatorTakesNothing(table, args[0]);
    hide ParseArg, Known, TakesNext, IsTool;
  }

  lemma ScannedLater(table: Table, args: seq<string>, i: nat)
    requires 0 < i && Scanned(table, args, i)
    ensures !ParseArg(args[0]).Terminator? && (TakesNext(table, args[0]) ==> i >= 2 && !IsTool(args[0]))
  {
    hide ParseArg, Known, TakesNext, IsTool;
  }

  lemma Dropped<T>(s: seq<T>, k: nat, i: nat)
    requires k <= i <= |s|
    ensures s[k..][i - k..] == s[i..] && s[0..] == s
  {
  }

  /** From a scanned argument on, splitting goes on as if nothing had been there before. */
  lemma {:induction false} FromThere(table: Table, args: seq<string>, i: nat, j: nat)
    requires Scanned(table, args, i) && i <= j < |args|
    ensures Sides(table, args)[j] == Sides(table, args[i..])[j - i]
    ensures Scanned(table, args, j) <==> Scanned(table, args[i..], j - i)
    decreases |args|
  {
    hide Scanned, Sides, TakesNext, ParseArg, IsTool, Known, Repeat;
    if i == 0 {
      Dropped(args, 0, 0);
    } else {
      ScannedLater(table, args, i);
      if TakesNext(table, args[0]) {
        StepTwo(table, args, i);
        StepTwo(table, args, j);
        Dropped(args, 2, i);
        FromThere(table, args[2..], i - 2, j - 2);
      } else {
        StepOne(table, args, i);
        StepOne(table, args, j);
        Dropped(args, 1, i);
        FromThere(table, args[1..], i - 1, j - 1);
      }
    }
  }

  /**
   * A flag is never separated from its value: where the splitter takes the next
   * argument as a value, both end up on the same side, and the value is not
   * looked at as an argument of its own.
   */
  lemma ValuesStayWithFlags(table: Table, args: seq<string>, i: nat)
    requires Scanned(table, args, i) && TakesNext(table, args[i]) && i + 1 < |args|
    ensures Sides(table, args)[i] == Sides(table, args)[i + 1] == Known(table, args[i])
    ensures !Scanned(table, args, i + 1)
  {
    FromThere(table, args, i, i);
    FromThere(table, args, i, i + 1);
    hide Scanned, Sides, TakesNext, Known;
    assert args[i..][0] == args[i];
    ValueAtStart(table, args[i..]);
  }

  lemma ValueAtStart(table: Table, args: seq<string>)
    requires |args| > 1 && TakesNext(table, args[0])
    ensures Sides(table, args)[0] == Sides(table, args)[1] == Known(table, args[0]) && !Scanned(table, args, 1)
  {
    TerminatorTakesNothing(table, args[0]);
    hide ParseArg, Known, TakesNext, IsTool;
  }

  /** Everything from a scanned `--` on is kept, and none of it is looked at. */
  lemma KeptBehindTerminator(table: Table, args: seq<string>, i: nat, j: nat)
    requires Scanned(table, args, i) && ParseArg(args[i]).Terminator? && i <= j < |args|
    ensures Sides(table, args)[j] && (j > i ==> !Scanned(table, args, j))
  {
    FromThere(table, args, i, j);
    hide ParseArg, Known, TakesNext, IsTool;
    assert args[i..][0] == args[i];
    assert Sides(table, args[i..]) == Repeat(true, |args| - i);
  }

  /** Everything behind a scanned `-t` and its value is stripped, and none of it is looked at. */
  lemma StrippedBehindTool(table: Table, args: seq<string>, i: nat, j: nat)
    requires Scanned(table, args, i) && TakesNext(table, args[i]) && IsTool(args[i]) && i + 1 < j < |args|
    ensures !Sides(table, args)[j] && !Scanned(table, args, j)
  {
    FromThere(table, args, i, j);
    hide Scanned, Sides, TakesNext, IsTool;
    assert args[i..][0] == args[i];
    ToolAtStart(table, args[i..], j - i);
  }

  lemma ToolAtStart(table: Table, args: seq<string>, j: nat)
    requires 1 < j < |args| && TakesNext(table, args[0]) && IsTool(args[0])
    ensures !Sides(table, args)[j] && !Scanned(table, args, j)
  {
    TerminatorTakesNothing(table, args[0]);
    hide ParseArg, Known, TakesNext, IsTool;
    assert Sides(table, args) == [Known(table, args[0]), Known(table, args[0])] + Repeat(false, |args| - 2);
  }

  predicate Behind(table: Table, args: seq<string>, j: nat)
  {
    exists i :: 0 <= i < j <= |args| && Scanned(table, args, i) &&
      (ParseArg(args[i]).Terminator? || (i + 1 < j && TakesNext(table, args[i]) && IsTool(args[i])))
  }

  /** Every argument is looked at, or is a value, or comes behind one of these. */
  lemma {:induction false} EveryArgumentPlaced(table: Table, args: seq<string>, j: nat)
    requires j < |args|
    ensures Scanned(table, args, j) || (j > 0 && Scanned(table, args, j - 1) && TakesNext(table, args[j - 1])) ||
            Behind(table, args, j)
    decreases |args|
  {
    if j > 0 && !ParseArg(args[0]).Terminator? {
      hide ParseArg, Known;
      var k := if TakesNext(table, args[0]) then 2 else 1;
      if j >= k && !(k == 2 && IsTool(args[0])) {
        EveryArgumentPlaced(table, args[k..], j - k);
        assert j > k ==> args[k..][j - k - 1] == args[j - 1];
        if Behind(table, args[k..], j - k) { BehindLater(table, args, j, k); }
      } else if j >= k {
        assert Scanned(table, args, 0);
      }
    } else if j > 0 {
      assert Scanned(table, args, 0);
    }
  }

  lemma BehindLater(table: Table, args: seq<string>, j: nat, k: nat)
    requires args != [] && k <= j <= |args| && k == if TakesNext(table, args[0]) then 2 else 1
    requires !ParseArg(args[0]).Terminator? && !(k == 2 && IsTool(args[0]))
    requires Behind(table, args[k..], j - k)
    ensures Behind(table, args, j)
  {
    hide ParseArg, Known, TakesNext, IsTool;
    var i :| 0 <= i < j - k && Scanned(table, args[k..], i) &&
             (ParseArg(args[k..][i]).Terminator? || (i + 1 < j - k && TakesNext(table, args[k..][i]) && IsTool(args[k..][i])));
    assert args[k..][i] == args[i + k];
    assert Scanned(table, args, i + k);
  }

  /** Splitting is idempotent: what was kept is kept again, all of it. */
  lemma {:induction false} SplittingIsIdempotent(table: Table, args: seq<string>)
    ensures Kept(table, Kept(table, args)) == Kept(table, args)
    ensures Stripped(table, Kept(table, args)) == []
    decreases |args|
  {
    if args == [] {
    } else if ParseArg(args[0]).Terminator? {
      TerminatorStep(table, args);
    } else if !TakesNext(table, args[0]) {
      PlainStep(table, args);
      SplittingIsIdempotent(table, args[1..]);
      if Known(table, args[0]) {
        var k := Kept(table, args);
        assert k[1..] == Kept(table, args[1..]);
        PlainStep(table, k);
      } else {
        assert Kept(table, args) == Kept(table, args[1..]);
      }
    } else if |args| == 1 {
      LastStep(table, args);
    } else if IsTool(args[0]) {
      ToolStep(table, args);
      if Known(table, args[0]) {
        ToolStep(table, args[..2]);
        assert args[..2][..2] == args[..2] && args[..2][2..] == [];
      }
    } else {
      PairStep(table, args);
      SplittingIsIdempotent(table, args[2..]);
      if Known(table, args[0]) {
        var k := Kept(table, args);
        assert k[2..] == Kept(table, args[2..]) && k[..2] == args[..2];
        assert k[0] == args[..2][0];
        PairStep(table, k);
        assert Stripped(table, k) == [] + Stripped(table, k[2..]);
      } else {
        assert Kept(table, args) == Kept(table, args[2..]);
      }
    }
  }

  /** A one-letter value flag with its value glued on, and no equals sign. */
  predicate Glued(arg: string, valueFlags: set<string>)
  {
    |arg| > 2 && arg[0] == '-' && arg[1] != '-' && '=' !in arg && [arg[1]] in valueFlags
  }

  function Unglue(arg: string, valueFlags: set<string>): string
  {
    if Glued(arg, valueFlags) then "-" + [arg[1]] + "=" + arg[2..] else arg
  }

  /** Every argument, with glued values split off by an equals sign. */
  function UnglueAll(args: seq<string>, valueFlags: set<string>): (r: seq<string>)
    ensures |r| == |args|
    ensures forall i :: 0 <= i < |r| ==> r[i] == Unglue(args[i], valueFlags)
  {
    seq(|args|, i requires 0 <= i < |args| => Unglue(args[i], valueFlags))
  }

  method PreprocessGetoptStyleFlags(args: seq<string>, valueFlags: set<string>) returns (result: seq<string>)
    ensures result == UnglueAll(args, valueFlags)
  {
    result := [];
    for i := 0 to |args|
      invariant |result| == i && forall k :: 0 <= k < i ==> result[k] == Unglue(args[k], valueFlags)
    {
      var arg := args[i];
      if |arg| > 2 && arg[0] == '-' && arg[1] != '-' && '=' !in arg {
        var flagName := [arg[1]];
        if flagName in valueFlags {
          result := result + ["-" + flagName + "=" + arg[2..]];
          continue;
        }
      }
      result := result + [arg];
    }
  }

  /**
   * What is rewritten, and into what: a dash, the letter of a value flag and a
   * value without equals sign get an equals sign in between, and nothing else is
   * touched.
   */
  lemma UngluedForms(arg: string, valueFlags: set<string>)
    ensures forall c, value: string ::
              arg == "-" + [c] + value && c != '-' && c != '=' && value != "" && '=' !in value && [c] in valueFlags ==>
                Unglue(arg, valueFlags) == "-" + [c] + "=" + value
    ensures (forall c, value: string ::
              arg == "-" + [c] + value ==> c == '-' || c == '=' || value == "" || '=' in value || [c] !in valueFlags) ==>
              Unglue(arg, valueFlags) == arg
  {
    forall c, value: string
      | arg == "-" + [c] + value && c != '-' && c != '=' && value != "" && '=' !in value && [c] in valueFlags
      ensures Unglue(arg, valueFlags) == "-" + [c] + "=" + value
    {
      assert arg[1] == c && arg[2..] == value && arg[0] == '-';
    }
    if Glued(arg, valueFlags) {
      assert arg == "-" + [arg[1]] + arg[2..];
      assert arg[1] in arg && forall c :: c in arg[2..] ==> c in arg;
    }
  }

  /** A glued value flag is read as that flag with an inline value, so it takes no other argument. */
  lemma UngluedIsInline(arg: string, valueFlags: set<string>, table: Table)
    requires Glued(arg, valueFlags)
    ensures ParseArg(Unglue(arg, valueFlags)) == Flag([arg[1]], true)
    ensures !TakesNext(table, Unglue(arg, valueFlags))
  {
    var r := Unglue(arg, valueFlags);
    assert arg[1] in arg;
    var name := r[1..];
    assert name == [arg[1]] + "=" + arg[2..];
    assert name[0] != '=' && name[1] == '=';
    assert Find(name, '=', 0) == 1;
    assert name[..1] == [arg[1]];
  }

  /** Doing it again changes nothing. */
  lemma UngluingIsIdempotent(args: seq<string>, valueFlags: set<string>)
    ensures UnglueAll(UnglueAll(args, valueFlags), valueFlags) == UnglueAll(args, valueFlags)
  {
    var once := UnglueAll(args, valueFlags);
    forall i | 0 <= i < |args| ensures Unglue(once[i], valueFlags) == once[i] {
      if Glued(args[i], valueFlags) { assert once[i][2] == '='; }
    }
  }

  lemma OthersStandAlone(table: Table, args: seq<string>, i: nat)
    requires Scanned(table, args, i) && !TakesNext(table, args[i]) && !ParseArg(args[i]).Terminator?
    ensures Sides(table, args)[i] == Known(table, args[i])
    ensures i + 1 < |args| ==> Scanned(table, args, i + 1)
  {
    FromThere(table, args, i, i);
    if i + 1 < |args| { FromThere(table, args, i, i + 1); }
    hide ParseArg, Known, TakesNext, IsTool;
    assert args[i..][0] == args[i];
  }

  /**
   * After preprocessing, a glued value flag that the splitter looks at goes to
   * its side alone, and the argument behind it is looked at in its own right.
   */
  lemma GluedFlagsStandAlone(table: Table, args: seq<string>, valueFlags: set<string>, i: nat)
    requires Scanned(table, UnglueAll(args, valueFlags), i) && Glued(args[i], valueFlags)
    ensures Sides(table, UnglueAll(args, valueFlags))[i] == ([args[i][1]] in table)
    ensures i + 1 < |args| ==> Scanned(table, UnglueAll(args, valueFlags), i + 1)
  {
    UngluedIsInline(args[i], valueFlags, table);
    OthersStandAlone(table, UnglueAll(args, valueFlags), i);
  }
}
