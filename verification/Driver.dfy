/**
 * The main loop of cmd/reninja/reninja.go: load the manifest, perhaps run a
 * tool, bring the manifest up to date, build the targets. What the environment
 * answers in each cycle is arbitrary.
 */
module Driver {
  import opened PyStrings
  import opened NinjaSyntax
  import opened Building

  datatype ToolTime = AfterFlags | AfterLoad | AfterLogs

  datatype Options = Options(inputFile: string, tool: Option<ToolTime>, dryRun: bool)

  /** Everything the environment decides in one cycle. `None` is a build with nothing to do. */
  datatype Answers = Answers(
    parses: bool,
    buildDirExists: bool,
    logsOpen: bool,
    toolExit: int,
    manifestIsTarget: bool,
    manifestAdded: bool,
    manifestError: bool,
    manifestBuild: Option<BuildResult>,
    manifestDirty: bool,
    targetsOk: bool,
    targetsBuild: Option<BuildResult>)

  datatype Event =
    | Parsed(cycle: nat)
    | ToolRan
    | ManifestBuilt(cycle: nat)
    | ManifestChanged(cycle: nat)
    | TargetsBuilt(cycle: nat)
    | Exited(code: int)
    | Panicked

  /** Whether the manifest changed, an error, and whether a build ran at all. */
  datatype Rebuild = Rebuild(changed: bool, failed: bool, ran: bool)

  function RebuildManifest(inputFile: string, a: Answers): Rebuild
  {
    if inputFile == "" then Rebuild(false, true, false)
    else if !a.manifestIsTarget then Rebuild(false, false, false)
    else if a.manifestError || !a.manifestAdded then Rebuild(false, a.manifestError, false)
    else if a.manifestBuild.None? then Rebuild(false, false, false)
    else
      var result := a.manifestBuild.value;
      if result.Failed() then Rebuild(false, result.error.Some?, true)
      else Rebuild(a.manifestDirty, false, true)
  }

  /** The exit of a build of the user's targets; a failure without an error is dereferenced. */
  function RunBuild(a: Answers): Event
  {
    if !a.targetsOk then Exited(1)
    else if a.targetsBuild.None? then Exited(0)
    else
      var result := a.targetsBuild.value;
      if result.Failed() && result.error.None? then Panicked
      else if result.error == Some(Interrupted) then Exited(130)
      else Exited(result.exitCode)
  }

  /** The events of one cycle, and whether another one follows. */
  datatype Cycle = Cycle(events: seq<Event>, again: bool)

  function OneCycle(o: Options, a: Answers, c: nat): Cycle
  {
    if !a.parses then Cycle([Exited(1)], false)
    else if o.tool == Some(AfterLoad) then Cycle([Parsed(c), ToolRan, Exited(a.toolExit)], false)
    else if !a.buildDirExists || !a.logsOpen then Cycle([Parsed(c), Exited(1)], false)
    else if o.tool == Some(AfterLogs) then Cycle([Parsed(c), ToolRan, Exited(a.toolExit)], false)
    else
      var r := RebuildManifest(o.inputFile, a);
      var built := [Parsed(c)] + if r.ran then [ManifestBuilt(c)] else [];
      if r.changed then
        if o.dryRun then Cycle(built + [ManifestChanged(c), Exited(0)], false)
        else Cycle(built + [ManifestChanged(c)], true)
      else if r.failed then Cycle(built + [Exited(1)], false)
      else Cycle(built + [TargetsBuilt(c), RunBuild(a)], false)
  }

  /** What each cycle does, given what the environment answers in it. */
  function Steps(o: Options, env: nat -> Answers): nat -> Cycle
  {
    (c: nat) => OneCycle(o, env(c), c)
  }

  /** The loop from cycle `c` on, with the exit behind it. */
  function Cycles(limit: nat, steps: nat -> Cycle, c: nat): seq<Event>
    requires 1 <= c <= limit + 1
    decreases limit + 1 - c
  {
    if c > limit then [Exited(1)]
    else if steps(c).again then steps(c).events + Cycles(limit, steps, c + 1)
    else steps(c).events
  }

  function Run(o: Options, limit: nat, env: nat -> Answers): seq<Event>
  {
    if o.tool == Some(AfterFlags) then [ToolRan, Exited(env(0).toolExit)] else Cycles(limit, Steps(o, env), 1)
  }

  /** The body of the loop, up to the exit or the next cycle. */
  method LoopBody(o: Options, a: Answers, cycle: nat) returns (events: seq<Event>, again: bool)
    ensures Cycle(events, again) == OneCycle(o, a, cycle)
  {
    events, again := [], false;
    if !a.parses { return [Exited(1)], false; }
    events := [Parsed(cycle)];
    if o.tool == Some(AfterLoad) { return events + [ToolRan, Exited(a.toolExit)], false; }
    if !a.buildDirExists || !a.logsOpen { return events + [Exited(1)], false; }
    if o.tool == Some(AfterLogs) { return events + [ToolRan, Exited(a.toolExit)], false; }
    var rebuild := RebuildManifest(o.inputFile, a);
    if rebuild.ran { events := events + [ManifestBuilt(cycle)]; }
    if rebuild.changed {
      if o.dryRun { return events + [ManifestChanged(cycle), Exited(0)], false; }
      return events + [ManifestChanged(cycle)], true;
    }
    if rebuild.failed { return events + [Exited(1)], false; }
    events := events + [TargetsBuilt(cycle), RunBuild(a)];
  }

  method Loop(o: Options, cycleLimit: nat, env: nat -> Answers) returns (trace: seq<Event>)
    ensures trace == Cycles(cycleLimit, Steps(o, env), 1)
  {
    trace := [];
    ghost var steps := Steps(o, env);
    ghost var all := Cycles(cycleLimit, steps, 1);
    var cycle := 1;
    while cycle <= cycleLimit
      invariant 1 <= cycle <= cycleLimit + 1
      invariant trace + Cycles(cycleLimit, steps, cycle) == all
    {
      var events, again := LoopBody(o, env(cycle), cycle);
      assert steps(cycle) == Cycle(events, again);
      Regroup(trace, events, if again then Cycles(cycleLimit, steps, cycle + 1) else []);
      trace := trace + events;
      if !again { return; }
      cycle := cycle + 1;
    }
    trace := trace + [Exited(1)];
  }

  method RunMain(o: Options, cycleLimit: nat, env: nat -> Answers) returns (trace: seq<Event>)
    ensures trace == Run(o, cycleLimit, env)
    ensures EndsOnce(trace) && Parses(trace) <= cycleLimit
    ensures forall k :: 0 <= k < |trace| && trace[k].TargetsBuilt? ==> BuiltFresh(trace, k)
  {
    RunIsSafe(o, cycleLimit, env);
    hide EndsOnce, Parses, BuiltFresh;
    if o.tool == Some(AfterFlags) {
      return [ToolRan, Exited(env(0).toolExit)];
    }
    trace := Loop(o, cycleLimit, env);
  }

  predicate IsExit(e: Event) { e.Exited? || e.Panicked? }

  predicate IsBuild(e: Event) { e.ManifestBuilt? || e.ManifestChanged? || e.TargetsBuilt? }

  predicate NoExit(t: seq<Event>) { forall k :: 0 <= k < |t| ==> !IsExit(t[k]) }

  /** The trace ends with an exit and has no other. */
  predicate EndsOnce(t: seq<Event>)
  {
    t != [] && IsExit(t[|t| - 1]) && NoExit(t[..|t| - 1])
  }

  function Parses(t: seq<Event>): nat
  {
    if t == [] then 0 else (if t[0].Parsed? then 1 else 0) + Parses(t[1..])
  }

  lemma {:induction false} ParsesConcat(a: seq<Event>, b: seq<Event>)
    ensures Parses(a + b) == Parses(a) + Parses(b)
  {
    if a == [] {
      assert a + b == b;
    } else {
      ParsesConcat(a[1..], b);
      assert (a + b)[1..] == a[1..] + b;
    }
  }

  /**
   * Where the targets are built: the event stands right before the exit, the
   * manifest was loaded earlier in the same cycle, and it has not changed since.
   */
  ghost predicate BuiltFresh(t: seq<Event>, k: nat)
    requires k < |t| && t[k].TargetsBuilt?
  {
    && k + 2 == |t| && IsExit(t[k + 1])
    && exists j: nat :: LoadedAt(t, j, t[k].cycle) && j < k
  }

  predicate LoadedAt(t: seq<Event>, j: nat, c: nat)
  {
    j < |t| && t[j] == Parsed(c) && forall m :: j <= m < |t| ==> !t[m].ManifestChanged?
  }

  /** What is true of every cycle. */
  ghost predicate Orderly(cycle: Cycle, c: nat)
  {
    var t := cycle.events;
    && (if cycle.again then NoExit(t) && ManifestChanged(c) in t && (forall k :: 0 <= k < |t| ==> !t[k].TargetsBuilt?)
        else EndsOnce(t))
    && Parses(t) <= 1
    && (forall k :: 0 <= k < |t| && t[k].TargetsBuilt? ==> t[k].cycle == c && BuiltFresh(t, k))
  }

  /** The shapes that a cycle's events can have. */
  lemma CycleShapes(o: Options, a: Answers, c: nat)
    ensures var t := OneCycle(o, a, c).events;
            || t == [Exited(1)]
            || (exists code :: t == [Parsed(c), ToolRan, Exited(code)])
            || t == [Parsed(c), Exited(1)]
            || t == [Parsed(c), ManifestBuilt(c), Exited(1)]
            || t == [Parsed(c), ManifestBuilt(c), ManifestChanged(c), Exited(0)]
            || (OneCycle(o, a, c).again && t == [Parsed(c), ManifestBuilt(c), ManifestChanged(c)])
            || t == [Parsed(c), TargetsBuilt(c), RunBuild(a)]
            || t == [Parsed(c), ManifestBuilt(c), TargetsBuilt(c), RunBuild(a)]
    ensures OneCycle(o, a, c).again ==> OneCycle(o, a, c).events == [Parsed(c), ManifestBuilt(c), ManifestChanged(c)]
  {
  }

  lemma ShapesOrderly(t: seq<Event>, again: bool, c: nat, exit: Event)
    requires IsExit(exit)
    requires if again then t == [Parsed(c), ManifestBuilt(c), ManifestChanged(c)] else
             || t == [exit]
             || t == [Parsed(c), ToolRan, exit]
             || t == [Parsed(c), exit]
             || t == [Parsed(c), ManifestBuilt(c), exit]
             || t == [Parsed(c), ManifestBuilt(c), ManifestChanged(c), exit]
             || t == [Parsed(c), TargetsBuilt(c), exit]
             || t == [Parsed(c), ManifestBuilt(c), TargetsBuilt(c), exit]
    ensures Orderly(Cycle(t, again), c)
  {
    assert Parses(t) <= 1 by { NoMoreParses(t[1..]); }
    hide Parses;
    forall k | 0 <= k < |t| && t[k].TargetsBuilt? ensures BuiltFresh(t, k) { assert LoadedAt(t, 0, c); }
    hide LoadedAt, BuiltFresh;
  }

  lemma {:induction false} NoMoreParses(t: seq<Event>)
    requires forall k :: 0 <= k < |t| ==> !t[k].Parsed?
    ensures Parses(t) == 0
  {
    if t != [] { NoMoreParses(t[1..]); }
  }

  lemma CyclesAreOrderly(o: Options, env: nat -> Answers, c: nat)
    ensures Orderly(Steps(o, env)(c), c)
  {
    var cycle := OneCycle(o, env(c), c);
    CycleShapes(o, env(c), c);
    var t := cycle.events;
    ShapesOrderly(t, cycle.again, c, if cycle.again then Exited(1) else t[|t| - 1]);
  }

  lemma EndsConcat(t: seq<Event>, rest: seq<Event>)
    requires NoExit(t) && EndsOnce(rest)
    ensures EndsOnce(t + rest)
  {
    assert (t + rest)[..|t + rest| - 1] == t + rest[..|rest| - 1];
  }

  /** Every run ends, once, after at most as many loads of the manifest as the limit allows. */
  lemma {:induction false} CyclesEnd(limit: nat, steps: nat -> Cycle, c: nat)
    requires 1 <= c <= limit + 1 && forall i: nat :: Orderly(steps(i), i)
    ensures var t := Cycles(limit, steps, c); EndsOnce(t) && Parses(t) <= limit + 1 - c
    decreases limit + 1 - c
  {
    if c <= limit {
      assert Orderly(steps(c), c);
      if steps(c).again {
        CyclesEnd(limit, steps, c + 1);
        var t, rest := steps(c).events, Cycles(limit, steps, c + 1);
        hide Parses, EndsOnce, NoExit;
        ParsesConcat(t, rest);
        EndsConcat(t, rest);
      }
    } else {
      assert [Exited(1)][1..] == [] && [Exited(1)][..0] == [];
    }
  }

  lemma {:induction false} CyclesBuildFresh(limit: nat, steps: nat -> Cycle, c: nat, k: nat)
    requires 1 <= c <= limit + 1 && forall i: nat :: Orderly(steps(i), i)
    requires var t := Cycles(limit, steps, c); k < |t| && t[k].TargetsBuilt?
    ensures BuiltFresh(Cycles(limit, steps, c), k)
    ensures var b := Cycles(limit, steps, c)[k].cycle;
            c <= b <= limit && !steps(b).again && exists m :: 0 <= m < |steps(b).events| && steps(b).events[m] == TargetsBuilt(b)
    decreases limit + 1 - c
  {
    assert Orderly(steps(c), c);
    hide Parses, EndsOnce, NoExit, LoadedAt;
    if steps(c).again {
      var t, rest, n := Cycles(limit, steps, c), Cycles(limit, steps, c + 1), |steps(c).events|;
      assert t == steps(c).events + rest;
      assert k >= n && t[k] == rest[k - n];
      hide Orderly, Cycles, BuiltFresh;
      CyclesBuildFresh(limit, steps, c + 1, k - n);
      FreshLater(steps(c).events, rest, k - n);
    }
  }

  lemma FreshLater(before: seq<Event>, t: seq<Event>, k: nat)
    requires k < |t| && t[k].TargetsBuilt? && BuiltFresh(t, k)
    ensures BuiltFresh(before + t, |before| + k)
  {
    var n, all, c := |before|, before + t, t[k].cycle;
    var j: nat :| LoadedAt(t, j, c) && j < k;
    LoadedLater(before, t, j, c);
    hide LoadedAt;
    assert all[k + n] == t[k] && all[k + 1 + n] == t[k + 1];
  }

  lemma LoadedLater(before: seq<Event>, t: seq<Event>, j: nat, c: nat)
    requires LoadedAt(t, j, c)
    ensures LoadedAt(before + t, |before| + j, c)
  {
    var n, all := |before|, before + t;
    assert all[n + j] == t[j];
    forall m | n + j <= m < |all| ensures !all[m].ManifestChanged? { assert all[m] == t[m - n]; }
  }

  /**
   * Driver safety, for every environment and every limit. The run ends once, and
   * loads the manifest at most as often as the limit says. The user's targets
   * are built at most once, right before the exit, and from a manifest that was
   * loaded after its last regeneration.
   */
  lemma RunIsSafe(o: Options, limit: nat, env: nat -> Answers)
    ensures var t := Run(o, limit, env);
            EndsOnce(t) && Parses(t) <= limit && forall k :: 0 <= k < |t| && t[k].TargetsBuilt? ==> BuiltFresh(t, k)
  {
    var t := Run(o, limit, env);
    if o.tool == Some(AfterFlags) {
      NoMoreParses(t);
    } else {
      var steps := Steps(o, env);
      forall i: nat ensures Orderly(steps(i), i) { CyclesAreOrderly(o, env, i); }
      CyclesEnd(limit, steps, 1);
      forall k | 0 <= k < |t| && t[k].TargetsBuilt? ensures BuiltFresh(t, k) { CyclesBuildFresh(limit, steps, 1, k); }
    }
  }

  predicate NoBuildIn(t: seq<Event>) { forall k :: 0 <= k < |t| ==> !IsBuild(t[k]) }

  lemma ToolCycle(o: Options, a: Answers, c: nat)
    requires o.tool.Some? && o.tool != Some(AfterFlags)
    ensures NoBuildIn(OneCycle(o, a, c).events)
  {
    assert o.tool.value == AfterLoad || o.tool.value == AfterLogs;
  }

  lemma {:induction false} NoBuilds(limit: nat, steps: nat -> Cycle, c: nat)
    requires 1 <= c <= limit + 1
    requires forall i: nat :: NoBuildIn(steps(i).events)
    ensures NoBuildIn(Cycles(limit, steps, c))
    decreases limit + 1 - c
  {
    if c <= limit && steps(c).again {
      NoBuilds(limit, steps, c + 1);
      assert steps(c).events + Cycles(limit, steps, c + 1) == Cycles(limit, steps, c);
    }
  }

  /** A selected tool excludes every build, of the manifest as well as of targets. */
  lemma ToolsExcludeBuilds(o: Options, limit: nat, env: nat -> Answers)
    requires o.tool.Some?
    ensures NoBuildIn(Run(o, limit, env))
  {
    if o.tool != Some(AfterFlags) {
      forall i: nat ensures NoBuildIn(Steps(o, env)(i).events) { ToolCycle(o, env(i), i); }
      NoBuilds(limit, Steps(o, env), 1);
    }
  }

  /** A dry run never starts a second cycle, so it regenerates the manifest at most once. */
  lemma DryRunIsOneCycle(o: Options, limit: nat, env: nat -> Answers)
    requires o.dryRun && o.tool != Some(AfterFlags) && limit > 0
    ensures Run(o, limit, env) == OneCycle(o, env(1), 1).events
    ensures Parses(Run(o, limit, env)) <= 1
    ensures var t := Run(o, limit, env);
            forall i, j :: 0 <= i < j < |t| && t[i].ManifestChanged? ==> !t[j].ManifestChanged?
  {
    assert Run(o, limit, env) == OneCycle(o, env(1), 1).events;
    CyclesAreOrderly(o, env, 1);
    CycleShapes(o, env(1), 1);
  }

  /** The manifest can be loaded, and there is a place for the logs. */
  predicate Ready(a: Answers) { a.parses && a.buildDirExists && a.logsOpen }

  /** The manifest is a target that can be built and has work to do. */
  predicate BuildsItself(o: Options, a: Answers)
  {
    o.inputFile != "" && a.manifestIsTarget && !a.manifestError && a.manifestAdded && a.manifestBuild.Some?
  }

  /** Its build succeeds, and it is not up to date afterwards with what was loaded. */
  predicate Regenerates(o: Options, a: Answers)
  {
    BuildsItself(o, a) && a.manifestBuild == Some(BuildResult(0, None)) && a.manifestDirty
  }

  /** There is no manifest, it cannot be a target, or its build returns an error. */
  predicate ManifestError(o: Options, a: Answers)
  {
    o.inputFile == "" || (a.manifestIsTarget && a.manifestError) || (BuildsItself(o, a) && a.manifestBuild.value.error.Some?)
  }

  /** The run gets as far as cycle `c`: every earlier cycle regenerated the manifest. */
  ghost predicate Comes(o: Options, limit: nat, env: nat -> Answers, c: nat)
  {
    && o.tool != Some(AfterFlags) && 1 <= c <= limit
    && forall i: nat :: 1 <= i < c ==> GoesOn(o, env(i))
  }

  /** Another cycle follows. */
  predicate GoesOn(o: Options, a: Answers) { o.tool.None? && !o.dryRun && Ready(a) && Regenerates(o, a) }

  /** Events that say which cycle they belong to. */
  predicate InCycle(e: Event, c: nat)
  {
    e == Parsed(c) || e == ManifestBuilt(c) || e == ManifestChanged(c) || e == TargetsBuilt(c)
  }

  lemma EventsOfCycle(o: Options, a: Answers, c: nat)
    requires o.tool != Some(AfterFlags)
    ensures var cycle := OneCycle(o, a, c);
            && (Parsed(c) in cycle.events <==> a.parses)
            && (ManifestBuilt(c) in cycle.events <==> o.tool.None? && Ready(a) && BuildsItself(o, a))
            && (ManifestChanged(c) in cycle.events <==> o.tool.None? && Ready(a) && Regenerates(o, a))
            && (TargetsBuilt(c) in cycle.events <==> o.tool.None? && Ready(a) && !ManifestError(o, a) && !Regenerates(o, a))
            && (cycle.again <==> GoesOn(o, a))
  {
    var r, t := RebuildManifest(o.inputFile, a), OneCycle(o, a, c).events;
    assert r.ran <==> BuildsItself(o, a);
    assert r.changed <==> Regenerates(o, a);
    assert r.failed <==> ManifestError(o, a);
    assert o.tool.None? || o.tool.value == AfterLoad || o.tool.value == AfterLogs;
    hide RebuildManifest, BuildsItself, Regenerates, ManifestError;
    if a.parses { assert t[0] == Parsed(c); }
    if o.tool.None? && Ready(a) {
      if r.ran { assert t[1] == ManifestBuilt(c); }
      if r.changed {
        assert t[if r.ran then 2 else 1] == ManifestChanged(c);
      } else if !r.failed {
        assert t[if r.ran then 2 else 1] == TargetsBuilt(c);
      }
    }
  }

  lemma OnlyItsOwn(o: Options, a: Answers, i: nat, e: Event, c: nat)
    requires e in OneCycle(o, a, i).events && InCycle(e, c)
    ensures c == i
  {
    CycleShapes(o, a, i);
  }

  /** Each cycle from `c` to `b` is followed by another one. */
  ghost predicate LeadsTo(steps: nat -> Cycle, c: nat, b: nat)
  {
    c <= b && forall i: nat :: c <= i < b ==> steps(i).again
  }

  lemma LeadsOn(steps: nat -> Cycle, c: nat, next: nat, b: nat)
    requires next == c + 1 && c < b
    ensures LeadsTo(steps, c, b) <==> steps(c).again && LeadsTo(steps, next, b)
  {
  }

  ghost predicate OwnEvents(steps: nat -> Cycle)
  {
    forall i: nat, e, c: nat :: e in steps(i).events && InCycle(e, c) ==> c == i
  }

  /** An event happens if its cycle comes and has it. */
  lemma {:induction false} HappensExactlyWhen(limit: nat, steps: nat -> Cycle, c: nat, b: nat, e: Event)
    requires 1 <= c <= limit + 1 && InCycle(e, b) && OwnEvents(steps)
    ensures e in Cycles(limit, steps, c) <==> LeadsTo(steps, c, b) && b <= limit && e in steps(b).events
    decreases limit + 1 - c
  {
    hide LeadsTo;
    if c > limit {
      assert LeadsTo(steps, c, b) ==> c <= b by { if LeadsTo(steps, c, b) { NotBefore(steps, c, b); } }
    } else {
      FirstStep(limit, steps, c, e);
      if b <= c {
        if b < c && LeadsTo(steps, c, b) { NotBefore(steps, c, b); }
        if b == c { LeadsTrivially(steps, c); }
        if steps(c).again { HappensExactlyWhen(limit, steps, c + 1, b, e); }
        if LeadsTo(steps, c + 1, b) { NotBefore(steps, c + 1, b); }
      } else {
        LeadsOn(steps, c, c + 1, b);
        if steps(c).again { HappensExactlyWhen(limit, steps, c + 1, b, e); }
      }
    }
  }

  lemma NotBefore(steps: nat -> Cycle, c: nat, b: nat)
    requires LeadsTo(steps, c, b)
    ensures c <= b
  {
  }

  lemma LeadsTrivially(steps: nat -> Cycle, c: nat)
    ensures LeadsTo(steps, c, c)
  {
  }

  lemma FirstStep(limit: nat, steps: nat -> Cycle, c: nat, e: Event)
    requires 1 <= c <= limit
    ensures e in Cycles(limit, steps, c) <==>
            e in steps(c).events || (steps(c).again && e in Cycles(limit, steps, c + 1))
  {
  }

  lemma StepsOwn(o: Options, env: nat -> Answers)
    ensures OwnEvents(Steps(o, env))
  {
    forall i: nat, e, c: nat | e in Steps(o, env)(i).events && InCycle(e, c) ensures c == i { OnlyItsOwn(o, env(i), i, e, c); }
  }

  lemma ComesExactlyWhen(o: Options, limit: nat, env: nat -> Answers, c: nat)
    requires o.tool != Some(AfterFlags)
    ensures Comes(o, limit, env, c) <==> LeadsTo(Steps(o, env), 1, c) && c <= limit
  {
    var steps := Steps(o, env);
    forall i: nat ensures steps(i).again <==> GoesOn(o, env(i)) { EventsOfCycle(o, env(i), i); }
    hide GoesOn, Steps;
  }

  /**
   * What happens in a run, in terms of what the environment answers. The manifest
   * is regenerated in a cycle exactly if the cycle comes, the manifest is a
   * target, its build succeeds and leaves it dirty; and the targets are built
   * exactly if the cycle comes and this is not so, without an error before.
   */
  lemma EventsExactlyWhen(o: Options, limit: nat, env: nat -> Answers, c: nat)
    ensures var t, comes, a := Run(o, limit, env), Comes(o, limit, env, c), env(c);
            && (Parsed(c) in t <==> comes && a.parses)
            && (ManifestBuilt(c) in t <==> comes && o.tool.None? && Ready(a) && BuildsItself(o, a))
            && (ManifestChanged(c) in t <==> comes && o.tool.None? && Ready(a) && Regenerates(o, a))
            && (TargetsBuilt(c) in t <==> comes && o.tool.None? && Ready(a) && !ManifestError(o, a) && !Regenerates(o, a))
  {
    if o.tool != Some(AfterFlags) {
      var steps := Steps(o, env);
      EventsOfCycle(o, env(c), c);
      assert steps(c) == OneCycle(o, env(c), c);
      hide OneCycle, Comes, LeadsTo, Cycles, BuildsItself, Regenerates, ManifestError, Ready, OwnEvents;
      ComesExactlyWhen(o, limit, env, c);
      StepsOwn(o, env);
      HappensExactlyWhen(limit, steps, 1, c, Parsed(c));
      HappensExactlyWhen(limit, steps, 1, c, ManifestBuilt(c));
      HappensExactlyWhen(limit, steps, 1, c, ManifestChanged(c));
      HappensExactlyWhen(limit, steps, 1, c, TargetsBuilt(c));
    }
  }

  /** The exit behind a build of targets: the build's own code, unless it was interrupted or failed without an error. */
  lemma ExitsWithTheBuild(o: Options, limit: nat, env: nat -> Answers, b: nat)
    requires TargetsBuilt(b) in Run(o, limit, env)
    ensures var t, a := Run(o, limit, env), env(b);
            && t != [] && var last := t[|t| - 1];
            && (!a.targetsOk ==> last == Exited(1))
            && (a.targetsOk && a.targetsBuild.None? ==> last == Exited(0))
            && (forall code: int, error :: a.targetsOk && a.targetsBuild == Some(BuildResult(code, error)) ==>
                  && (error == Some(Interrupted) ==> last == Exited(130))
                  && (error == Some(OtherError) || (code == 0 && error == None) ==> last == Exited(code))
                  && (code != 0 && error == None ==> last == Panicked))
  {
    var steps := Steps(o, env);
    assert steps(b) == OneCycle(o, env(b), b);
    EventsExactlyWhen(o, limit, env, b);
    hide OneCycle, LeadsTo, Steps, RunBuild, Ready, BuildsItself, ManifestError, Regenerates;
    ComesExactlyWhen(o, limit, env, b);
    EventsOfCycle(o, env(b), b);
    BuildEnds(o, env(b), b);
    LastOfCycles(limit, steps, 1, b);
    BuildExits(env(b));
  }

  lemma BuildEnds(o: Options, a: Answers, c: nat)
    requires TargetsBuilt(c) in OneCycle(o, a, c).events
    ensures var t := OneCycle(o, a, c).events; !OneCycle(o, a, c).again && t != [] && t[|t| - 1] == RunBuild(a)
  {
    hide RunBuild, RebuildManifest;
  }

  lemma BuildExits(a: Answers)
    ensures var last := RunBuild(a);
            && (!a.targetsOk ==> last == Exited(1))
            && (a.targetsOk && a.targetsBuild.None? ==> last == Exited(0))
            && (forall code: int, error :: a.targetsOk && a.targetsBuild == Some(BuildResult(code, error)) ==>
                  && (error == Some(Interrupted) ==> last == Exited(130))
                  && (error == Some(OtherError) || (code == 0 && error == None) ==> last == Exited(code))
                  && (code != 0 && error == None ==> last == Panicked))
  {
  }

  lemma {:induction false} LastOfCycles(limit: nat, steps: nat -> Cycle, c: nat, b: nat)
    requires 1 <= c && b <= limit && LeadsTo(steps, c, b) && !steps(b).again && steps(b).events != []
    ensures var t, last := Cycles(limit, steps, c), steps(b).events; t != [] && t[|t| - 1] == last[|last| - 1]
    decreases limit + 1 - c
  {
    if c < b {
      LeadsOn(steps, c, c + 1, b);
      hide LeadsTo;
      LastOfCycles(limit, steps, c + 1, b);
    }
  }

  /** A run in which every cycle regenerates the manifest gives up after the last one. */
  lemma GivesUpAtTheLimit(o: Options, limit: nat, env: nat -> Answers)
    requires forall c: nat :: 1 <= c <= limit ==> GoesOn(o, env(c))
    requires o.tool.None?
    ensures var t := Run(o, limit, env); t != [] && t[|t| - 1] == Exited(1) && forall c: nat :: TargetsBuilt(c) !in t
  {
    var steps := Steps(o, env);
    forall c: nat | 1 <= c <= limit ensures steps(c).again { EventsOfCycle(o, env(c), c); }
    LimitExit(limit, steps, 1);
    forall c: nat ensures TargetsBuilt(c) !in Run(o, limit, env) { EventsExactlyWhen(o, limit, env, c); }
  }

  lemma {:induction false} LimitExit(limit: nat, steps: nat -> Cycle, c: nat)
    requires 1 <= c <= limit + 1 && forall i: nat :: c <= i <= limit ==> steps(i).again
    ensures var t := Cycles(limit, steps, c); t != [] && t[|t| - 1] == Exited(1)
    decreases limit + 1 - c
  {
    if c <= limit {
      assert steps(c).again;
      LimitExit(limit, steps, c + 1);
    }
  }

  /** A tool runs when its time comes, and its code is the exit code. */
  lemma ToolsDecideTheExit(o: Options, limit: nat, env: nat -> Answers)
    requires o.tool.Some? && limit > 0
    ensures var t, a := Run(o, limit, env), env(1);
            && (o.tool == Some(AfterFlags) ==> t == [ToolRan, Exited(env(0).toolExit)])
            && (ToolRan in t <==> o.tool == Some(AfterFlags) || (a.parses && (o.tool == Some(AfterLoad) || Ready(a))))
            && (o.tool != Some(AfterFlags) && ToolRan in t ==> t == [Parsed(1), ToolRan, Exited(a.toolExit)])
  {
    assert o.tool.value == AfterFlags || o.tool.value == AfterLoad || o.tool.value == AfterLogs;
    if o.tool == Some(AfterFlags) {
      assert Run(o, limit, env)[0] == ToolRan;
    } else {
      var t := OneCycle(o, env(1), 1).events;
      assert Steps(o, env)(1) == OneCycle(o, env(1), 1);
      assert Run(o, limit, env) == t;
      if |t| == 3 { assert t[1] == ToolRan; }
    }
  }

  /** A cycle that finds the manifest up to date and builds the targets without a failing code or an interruption. */
  predicate CleanCycle(o: Options, a: Answers)
  {
    && Ready(a) && !ManifestError(o, a) && !Regenerates(o, a) && a.targetsOk
    && (a.targetsBuild.Some? ==> a.targetsBuild.value.exitCode == 0 && a.targetsBuild.value.error != Some(Interrupted))
  }

  /** Cycle `b` is clean, and each one before it, from `c` on, regenerated the manifest. */
  ghost predicate SuccessAt(o: Options, env: nat -> Answers, c: nat, b: nat)
  {
    c <= b && CleanCycle(o, env(b)) && forall i: nat :: c <= i < b ==> Ready(env(i)) && Regenerates(o, env(i))
  }

  lemma CleanExit(o: Options, a: Answers, c: nat)
    requires o.tool.None? && !o.dryRun
    ensures var t := OneCycle(o, a, c).events;
            t != [] && (t[|t| - 1] == Exited(0) <==> CleanCycle(o, a))
    ensures OneCycle(o, a, c).again <==> Ready(a) && Regenerates(o, a)
    ensures OneCycle(o, a, c).again ==> !CleanCycle(o, a)
  {
    EventsOfCycle(o, a, c);
    CycleShapes(o, a, c);
    if CleanCycle(o, a) { assert RunBuild(a) == Exited(0); }
  }

  lemma {:induction false} CyclesExit(o: Options, limit: nat, env: nat -> Answers, c: nat)
    requires 1 <= c <= limit + 1 && o.tool.None? && !o.dryRun
    ensures var t := Cycles(limit, Steps(o, env), c);
            t != [] && (t[|t| - 1] == Exited(0) <==> exists b: nat :: b <= limit && SuccessAt(o, env, c, b))
    decreases limit + 1 - c
  {
    hide OneCycle, CleanCycle, Ready, Regenerates, SuccessAt;
    if c <= limit {
      CleanExit(o, env(c), c);
      var step := Steps(o, env)(c);
      assert step == OneCycle(o, env(c), c);
      if step.again {
        CyclesExit(o, limit, env, c + 1);
        var t, rest := Cycles(limit, Steps(o, env), c), Cycles(limit, Steps(o, env), c + 1);
        assert t == step.events + rest && t[|t| - 1] == rest[|rest| - 1];
        LaterSuccess(o, limit, env, c, c + 1);
      } else {
        NowOrNever(o, limit, env, c);
      }
    } else {
      TooLate(o, limit, env, c);
    }
  }

  lemma TooLate(o: Options, limit: nat, env: nat -> Answers, c: nat)
    requires c > limit
    ensures forall b: nat :: b <= limit ==> !SuccessAt(o, env, c, b)
  {
  }

  lemma NowOrNever(o: Options, limit: nat, env: nat -> Answers, c: nat)
    requires !(Ready(env(c)) && Regenerates(o, env(c))) && c <= limit
    ensures (exists b: nat :: b <= limit && SuccessAt(o, env, c, b)) <==> CleanCycle(o, env(c))
  {
    hide CleanCycle, Ready, Regenerates;
    assert forall b: nat :: SuccessAt(o, env, c, b) ==> b == c;
    assert CleanCycle(o, env(c)) ==> SuccessAt(o, env, c, c);
  }

  lemma LaterSuccess(o: Options, limit: nat, env: nat -> Answers, c: nat, next: nat)
    requires Ready(env(c)) && Regenerates(o, env(c)) && !CleanCycle(o, env(c)) && next == c + 1
    ensures (exists b: nat :: b <= limit && SuccessAt(o, env, c, b)) <==>
            exists b: nat :: b <= limit && SuccessAt(o, env, next, b)
  {
    hide CleanCycle, Ready, Regenerates;
    forall b: nat ensures SuccessAt(o, env, c, b) <==> SuccessAt(o, env, next, b) { }
  }

  /**
   * A run without a tool exits with success if and only if, within the limit,
   * the cycles go on changing the manifest until one of them is clean.
   */
  lemma SuccessExactlyWhen(o: Options, limit: nat, env: nat -> Answers)
    requires o.tool.None? && !o.dryRun
    ensures var t := Run(o, limit, env);
            t != [] && (t[|t| - 1] == Exited(0) <==> exists b: nat :: b <= limit && SuccessAt(o, env, 1, b))
  {
    CyclesExit(o, limit, env, 1);
  }

  /** The manifest's own build ran in this cycle and failed. */
  predicate ManifestFailed(o: Options, a: Answers)
  {
    BuildsItself(o, a) && a.manifestBuild.value.Failed()
  }

  /**
   * The targets are built from a manifest whose own build failed only if that
   * build did not say why.
   */
  lemma SilentFailuresOnly(o: Options, limit: nat, env: nat -> Answers, k: nat)
    requires k < |Run(o, limit, env)| && Run(o, limit, env)[k].TargetsBuilt?
    ensures var a := env(Run(o, limit, env)[k].cycle); ManifestFailed(o, a) ==> !a.manifestBuild.value.Reported()
  {
    hide Run;
    EventsExactlyWhen(o, limit, env, Run(o, limit, env)[k].cycle);
  }

  /** Every cycle before `b` changed the manifest, and `b` gets as far as building it. */
  ghost predicate BuildsManifest(o: Options, limit: nat, env: nat -> Answers, b: nat)
  {
    o.tool.None? && Comes(o, limit, env, b) && Ready(env(b)) && BuildsItself(o, env(b))
  }

  /**
   * In every run that builds the manifest in some cycle, that build fails and the
   * targets are built all the same if and only if it failed without an error.
   */
  lemma GoesOnExactlyWhen(o: Options, limit: nat, env: nat -> Answers, b: nat)
    requires BuildsManifest(o, limit, env, b)
    ensures TargetsBuilt(b) in Run(o, limit, env) && ManifestFailed(o, env(b)) <==> !env(b).manifestBuild.value.Reported()
  {
    EventsExactlyWhen(o, limit, env, b);
  }

  /**
   * If that build is a run of the build loop, this happens exactly when it comes
   * to a turn in which an output has the time that is taken for a failed `Stat`.
   */
  lemma BuiltFromFailedManifest(o: Options, limit: nat, env: nat -> Answers, b: nat, rounds: seq<Round>, config: Config)
    requires BuildsManifest(o, limit, env, b)
    requires env(b).manifestBuild == Rounds(rounds, Begin(config), config)
    ensures TargetsBuilt(b) in Run(o, limit, env) && ManifestFailed(o, env(b)) <==>
            exists k: nat, last :: Reaches(rounds, Begin(config), config, k, last) && StrangeTurn(rounds[k], last, config)
  {
    GoesOnExactlyWhen(o, limit, env, b);
    SilentExactlyWhen(rounds, config);
    hide Rounds, StrangeTurn;
    assert Rounds(rounds, Begin(config), config) == Some(env(b).manifestBuild.value);
  }

  /** So if the manifest's builds are builds whose files have ordinary times, that never happens. */
  lemma FailedManifestsStop(o: Options, limit: nat, env: nat -> Answers, k: nat)
    requires forall i: nat :: env(i).manifestBuild.Some? ==> Returned(env(i).manifestBuild.value)
    requires k < |Run(o, limit, env)| && Run(o, limit, env)[k].TargetsBuilt?
    ensures !ManifestFailed(o, env(Run(o, limit, env)[k].cycle))
  {
    SilentFailuresOnly(o, limit, env, k);
    var a := env(Run(o, limit, env)[k].cycle);
    if ManifestFailed(o, a) { ReturnedIsReported(a.manifestBuild.value); }
  }

  /** With a strange time on the manifest itself it does. */
  lemma StrangeManifest(env: nat -> Answers, config: Config)
    requires config.failuresAllowed > 0 && !config.dryRun
    requires env(1) == Answers(true, true, true, 0, true, true, false, Rounds(StrangeRun(), Begin(config), config), true, true, None)
    ensures ManifestFailed(Options("build.ninja", None, false), env(1))
    ensures Run(Options("build.ninja", None, false), 100, env) == [Parsed(1), ManifestBuilt(1), TargetsBuilt(1), Exited(0)]
  {
    StrangeRunIsSilent(config);
    hide Rounds;
    var o := Options("build.ninja", None, false);
    assert RebuildManifest(o.inputFile, env(1)) == Rebuild(false, false, true);
    assert Steps(o, env)(1) == OneCycle(o, env(1), 1);
  }
}
