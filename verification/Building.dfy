/**
 * The exits of `Builder.Build` in internal/build/build.go: which code and which
 * error each of them returns. What the plan, the disk and the commands answer
 * on the way is arbitrary.
 */
module Building {
  import opened NinjaSyntax

  const EXIT_SUCCESS := 0
  const EXIT_FAILURE := 1
  const EXIT_INTERRUPTED := 130

  datatype BuildError = Interrupted | OtherError

  /** A code and an error that are returned together. */
  datatype BuildResult = BuildResult(exitCode: int, error: Option<BuildError>) {

    predicate Failed() { exitCode != EXIT_SUCCESS || error.Some? }

    /** A failure comes with an error, as the callers expect. */
    predicate Reported() { exitCode != EXIT_SUCCESS ==> error.Some? }
  }

  /** A boolean and an error that are returned together. */
  datatype Outcome = Outcome(done: bool, error: Option<BuildError>) {

    /** The caller stops without being told why. */
    predicate Silent() { !done && error.None? }
  }

  /** What the plan meets when a node is finished: a dyndep file to load, or edges that wait for it. */
  datatype NodeWork = DyndepNode(loadError: Option<BuildError>) | PlainNode(outEdges: seq<EdgeWork>)

  datatype EdgeWork = NotInPlan | InputsMissing | ToSchedule | NothingToDo(outputs: seq<NodeWork>)

  function EdgeFinished(succeeded: bool, outputs: seq<NodeWork>): Outcome
    decreases outputs, 1
  {
    if !succeeded then Outcome(true, None) else NodesFinished(outputs)
  }

  function NodesFinished(nodes: seq<NodeWork>): Outcome
    decreases nodes, 0
  {
    if nodes == [] then Outcome(true, None) else
    var first := NodeFinished(nodes[0]);
    if first.error.Some? then Outcome(false, first.error)
    else if !first.done then Outcome(false, None)
    else NodesFinished(nodes[1..])
  }

  function NodeFinished(node: NodeWork): Outcome
    decreases node, 0
  {
    match node
    case DyndepNode(loadError) => if loadError.Some? then Outcome(false, loadError) else Outcome(true, None)
    case PlainNode(outEdges) => EdgesMaybeReady(outEdges)
  }

  function EdgesMaybeReady(edges: seq<EdgeWork>): Outcome
    decreases edges, 0
  {
    if edges == [] then Outcome(true, None) else
    var first := EdgeMaybeReady(edges[0]);
    if first.error.Some? || !first.done then Outcome(false, first.error) else EdgesMaybeReady(edges[1..])
  }

  function EdgeMaybeReady(edge: EdgeWork): Outcome
    decreases edge, 0
  {
    match edge
    case NotInPlan => Outcome(true, None)
    case InputsMissing => Outcome(true, None)
    case ToSchedule => Outcome(true, None)
    case NothingToDo(outputs) =>
      var finished := EdgeFinished(true, outputs);
      if finished.error.Some? || !finished.done then Outcome(false, finished.error) else Outcome(true, None)
  }

  /** However far the plan follows finished edges, it never gives up without an error. */
  lemma {:induction false} NodesReport(nodes: seq<NodeWork>)
    ensures !NodesFinished(nodes).Silent()
    decreases nodes, 0
  {
    if nodes != [] {
      NodeReports(nodes[0]);
      NodesReport(nodes[1..]);
    }
  }

  lemma {:induction false} NodeReports(node: NodeWork)
    ensures !NodeFinished(node).Silent()
    decreases node, 0
  {
    if node.PlainNode? { EdgesReport(node.outEdges); }
  }

  lemma {:induction false} EdgesReport(edges: seq<EdgeWork>)
    ensures !EdgesMaybeReady(edges).Silent()
    decreases edges, 0
  {
    if edges != [] {
      EdgeReports(edges[0]);
      EdgesReport(edges[1..]);
    }
  }

  lemma {:induction false} EdgeReports(edge: EdgeWork)
    ensures !EdgeMaybeReady(edge).Silent()
    decreases edge, 0
  {
    if edge.NothingToDo? { NodesReport(edge.outputs); }
  }

  /** No dyndep file that the plan comes to load has an error. */
  predicate AllLoad(nodes: seq<NodeWork>)
    decreases nodes, 1
  {
    forall i :: 0 <= i < |nodes| ==> Loads(nodes[i])
  }

  predicate Loads(node: NodeWork)
    decreases node, 0
  {
    match node
    case DyndepNode(loadError) => loadError == None
    case PlainNode(outEdges) => forall i :: 0 <= i < |outEdges| && outEdges[i].NothingToDo? ==> AllLoad(outEdges[i].outputs)
  }

  lemma {:induction false} NodesDoneExactlyWhen(nodes: seq<NodeWork>)
    ensures NodesFinished(nodes).done <==> AllLoad(nodes)
    decreases nodes, 0
  {
    if nodes != [] {
      NodeDoneExactlyWhen(nodes[0]);
      NodesDoneExactlyWhen(nodes[1..]);
      DoneWithoutError(nodes);
      assert forall i :: 1 <= i < |nodes| ==> nodes[i] == nodes[1..][i - 1];
    }
  }

  lemma {:induction false} NodeDoneExactlyWhen(node: NodeWork)
    ensures NodeFinished(node).done && NodeFinished(node).error.None? <==> Loads(node)
    decreases node, 0
  {
    if node.PlainNode? { EdgesDoneExactlyWhen(node.outEdges); }
  }

  lemma {:induction false} EdgesDoneExactlyWhen(edges: seq<EdgeWork>)
    ensures var r := EdgesMaybeReady(edges);
            r.done && r.error.None? <==> forall i :: 0 <= i < |edges| && edges[i].NothingToDo? ==> AllLoad(edges[i].outputs)
    decreases edges, 0
  {
    if edges != [] {
      EdgeDoneExactlyWhen(edges[0]);
      EdgesDoneExactlyWhen(edges[1..]);
      assert forall i :: 1 <= i < |edges| ==> edges[i] == edges[1..][i - 1];
    }
  }

  lemma {:induction false} EdgeDoneExactlyWhen(edge: EdgeWork)
    ensures var r := EdgeMaybeReady(edge); r.done && r.error.None? <==> (edge.NothingToDo? ==> AllLoad(edge.outputs))
    decreases edge, 0
  {
    if edge.NothingToDo? {
      NodesDoneExactlyWhen(edge.outputs);
      DoneWithoutError(edge.outputs);
    }
  }

  lemma {:induction false} DoneWithoutError(nodes: seq<NodeWork>)
    ensures NodesFinished(nodes).done ==> NodesFinished(nodes).error.None?
    decreases |nodes|
  {
    if nodes != [] { DoneWithoutError(nodes[1..]); }
  }

  /** A file as `os.Stat` finds it; times are in nanoseconds. */
  datatype File = Missing | Unreadable | Modified(ns: int)

  const TIMESTAMP_UNKNOWN := -1
  const TIMESTAMP_MISSING := 0

  function Stat(file: File): (int, Option<BuildError>)
  {
    match file
    case Missing => (TIMESTAMP_MISSING, None)
    case Unreadable => (TIMESTAMP_UNKNOWN, Some(OtherError))
    case Modified(ns) => (ns, None)
  }

  /** What cleaning a node meets: edges to skip, or edges whose outputs are looked at again. */
  datatype CleanWork = Skipped | LookedAt(dirty: seq<bool>, outputs: seq<CleanedNode>)

  datatype CleanedNode = CleanedNode(outEdges: seq<CleanWork>)

  /** Whether it went well, and whether some output is dirty. */
  function RecomputeOutputsDirty(dirty: seq<bool>): (bool, bool)
  {
    if dirty == [] then (true, false)
    else if dirty[0] then (true, true)
    else RecomputeOutputsDirty(dirty[1..])
  }

  predicate CleanNode(outEdges: seq<CleanWork>)
    decreases outEdges, 0
  {
    outEdges == [] || (CleanEdge(outEdges[0]) && CleanNode(outEdges[1..]))
  }

  predicate CleanEdge(edge: CleanWork)
    decreases edge, 0
  {
    match edge
    case Skipped => true
    case LookedAt(dirty, outputs) =>
      var (ok, outputsDirty) := RecomputeOutputsDirty(dirty);
      ok && (outputsDirty || CleanNodes(outputs))
  }

  predicate CleanNodes(nodes: seq<CleanedNode>)
    decreases nodes, 0
  {
    nodes == [] || (CleanNode(nodes[0].outEdges) && CleanNodes(nodes[1..]))
  }

  /** Cleaning always goes well. */
  lemma {:induction false} CleaningSucceeds(outEdges: seq<CleanWork>)
    ensures CleanNode(outEdges)
    decreases outEdges, 0
  {
    if outEdges != [] {
      CleanEdgeSucceeds(outEdges[0]);
      CleaningSucceeds(outEdges[1..]);
    }
  }

  lemma {:induction false} CleanEdgeSucceeds(edge: CleanWork)
    ensures CleanEdge(edge)
    decreases edge, 0
  {
    if edge.LookedAt? {
      RecomputingSucceeds(edge.dirty);
      CleanNodesSucceed(edge.outputs);
    }
  }

  lemma {:induction false} CleanNodesSucceed(nodes: seq<CleanedNode>)
    ensures CleanNodes(nodes)
    decreases nodes, 0
  {
    if nodes != [] {
      CleaningSucceeds(nodes[0].outEdges);
      CleanNodesSucceed(nodes[1..]);
    }
  }

  lemma {:induction false} RecomputingSucceeds(dirty: seq<bool>)
    ensures RecomputeOutputsDirty(dirty).0
  {
    if dirty != [] && !dirty[0] { RecomputingSucceeds(dirty[1..]); }
  }

  /** An output of a command: how it looks when restatted and when its dependencies are recorded. */
  datatype Output = Output(known: int, restatted: File, clean: seq<CleanWork>, recorded: File, recordError: bool)

  /** A finished command and everything that matters about its edge. */
  datatype Command = Command(
    status: int,
    deps: bool,
    depsError: bool,
    restat: bool,
    generator: bool,
    startTime: int,
    outputs: seq<Output>,
    successors: seq<NodeWork>,
    logError: bool)

  function RestatOutputs(outputs: seq<Output>, restat: bool): Outcome
  {
    if outputs == [] then Outcome(true, None) else
    var o := outputs[0];
    var (mtime, error) := Stat(o.restatted);
    if error.Some? || mtime == TIMESTAMP_UNKNOWN then Outcome(false, error)
    else if o.known == mtime && restat && !CleanNode(o.clean) then Outcome(false, None)
    else RestatOutputs(outputs[1..], restat)
  }

  function RecordOutputs(outputs: seq<Output>): Outcome
  {
    if outputs == [] then Outcome(true, None) else
    var o := outputs[0];
    var (mtime, error) := Stat(o.recorded);
    if error.Some? || mtime == TIMESTAMP_UNKNOWN then Outcome(false, error)
    else if o.recordError then Outcome(false, Some(OtherError))
    else RecordOutputs(outputs[1..])
  }

  /** The status once dependencies have been extracted. */
  function FinalStatus(c: Command): int
  {
    if c.deps && c.depsError && c.status == EXIT_SUCCESS then EXIT_FAILURE else c.status
  }

  predicate Restats(c: Command, dryRun: bool)
  {
    !dryRun && (c.startTime == 0 || c.restat || c.generator)
  }

  function FinishCommand(c: Command, dryRun: bool): Outcome
  {
    if FinalStatus(c) != EXIT_SUCCESS then EdgeFinished(false, c.successors) else
    var restatted := if Restats(c, dryRun) then RestatOutputs(c.outputs, c.restat) else Outcome(true, None);
    if !restatted.done then restatted else
    var finished := EdgeFinished(true, c.successors);
    if finished.error.Some? || !finished.done then finished
    else if c.logError then Outcome(false, Some(OtherError))
    else if c.deps && !dryRun then RecordOutputs(c.outputs)
    else Outcome(true, None)
  }

  /** The status once dependencies have been extracted is not that of a success. */
  predicate CommandFailed(c: Command) { c.status != 0 || (c.deps && c.depsError) }

  /** A file that is there or not, and whose time is not taken for an error. */
  predicate Fine(file: File) { file == Missing || (file.Modified? && file.ns != -1) }

  /** Restat and generator rules, and commands without a start time, have their outputs looked at again. */
  predicate OutputsLookedAt(c: Command, dryRun: bool) { !dryRun && (c.restat || c.generator || c.startTime == 0) }

  /** The first output that stops a loop is a file last modified one nanosecond before 1970. */
  predicate StrangeRestat(outputs: seq<Output>)
  {
    outputs != [] &&
    (outputs[0].restatted == Modified(-1) || (!outputs[0].restatted.Unreadable? && StrangeRestat(outputs[1..])))
  }

  predicate StrangeRecord(outputs: seq<Output>)
  {
    outputs != [] &&
    (outputs[0].recorded == Modified(-1) ||
     (!outputs[0].recorded.Unreadable? && !outputs[0].recordError && StrangeRecord(outputs[1..])))
  }

  lemma {:induction false} RestatSilentExactlyWhen(outputs: seq<Output>, restat: bool)
    ensures RestatOutputs(outputs, restat).Silent() <==> StrangeRestat(outputs)
    ensures RestatOutputs(outputs, restat).done ==> RestatOutputs(outputs, restat).error.None?
    ensures RestatOutputs(outputs, restat).done <==> forall i :: 0 <= i < |outputs| ==> Fine(outputs[i].restatted)
  {
    if outputs != [] {
      CleaningSucceeds(outputs[0].clean);
      RestatSilentExactlyWhen(outputs[1..], restat);
      assert forall i :: 1 <= i < |outputs| ==> outputs[i] == outputs[1..][i - 1];
    }
  }

  lemma {:induction false} RecordSilentExactlyWhen(outputs: seq<Output>)
    ensures RecordOutputs(outputs).Silent() <==> StrangeRecord(outputs)
    ensures RecordOutputs(outputs).done <==>
            forall i :: 0 <= i < |outputs| ==> Fine(outputs[i].recorded) && !outputs[i].recordError
  {
    if outputs != [] {
      RecordSilentExactlyWhen(outputs[1..]);
      assert forall i :: 1 <= i < |outputs| ==> outputs[i] == outputs[1..][i - 1];
    }
  }

  /** A successful command some output of which has that time at the wrong moment. */
  predicate StrangeCommand(c: Command, dryRun: bool)
  {
    && !CommandFailed(c) && !dryRun
    && var looked := OutputsLookedAt(c, dryRun);
    && ((looked && StrangeRestat(c.outputs)) ||
        ((looked ==> forall i :: 0 <= i < |c.outputs| ==> Fine(c.outputs[i].restatted))
         && AllLoad(c.successors) && !c.logError && c.deps && StrangeRecord(c.outputs)))
  }

  /** Nothing goes wrong after a successful command. */
  predicate WellFinished(c: Command, dryRun: bool)
  {
    && (OutputsLookedAt(c, dryRun) ==> forall i :: 0 <= i < |c.outputs| ==> Fine(c.outputs[i].restatted))
    && AllLoad(c.successors) && !c.logError
    && (c.deps && !dryRun ==> forall i :: 0 <= i < |c.outputs| ==> Fine(c.outputs[i].recorded) && !c.outputs[i].recordError)
  }

  /** Finishing a command goes well if it failed or nothing goes wrong, and gives up without an error for strange files only. */
  lemma FinishSilentExactlyWhen(c: Command, dryRun: bool)
    ensures FinishCommand(c, dryRun).Silent() <==> StrangeCommand(c, dryRun)
    ensures FinishCommand(c, dryRun).done <==> CommandFailed(c) || WellFinished(c, dryRun)
  {
    RestatSilentExactlyWhen(c.outputs, c.restat);
    RecordSilentExactlyWhen(c.outputs);
    NodesReport(c.successors);
    NodesDoneExactlyWhen(c.successors);
    DoneWithoutError(c.successors);
    StrangeIsNotFine(c.outputs);
  }

  lemma {:induction false} StrangeIsNotFine(outputs: seq<Output>)
    ensures StrangeRestat(outputs) ==> exists i :: 0 <= i < |outputs| && !Fine(outputs[i].restatted)
  {
    if outputs != [] && StrangeRestat(outputs) {
      if outputs[0].restatted == Modified(-1) {
        assert !Fine(outputs[0].restatted);
      } else {
        StrangeIsNotFine(outputs[1..]);
        var i :| 0 <= i < |outputs[1..]| && !Fine(outputs[1..][i].restatted);
        assert !Fine(outputs[i + 1].restatted);
      }
    }
  }

  /** An edge that the plan hands out: what starting it meets, and what a phony one leads to. */
  datatype Work = Work(phony: bool, startSteps: seq<Option<BuildError>>, successors: seq<NodeWork>, capacity: int)

  /** Directories, response file and command, in order; the first that fails ends it. */
  function StartEdge(steps: seq<Option<BuildError>>): Outcome
  {
    if steps == [] then Outcome(true, None)
    else if steps[0].Some? then Outcome(false, steps[0])
    else StartEdge(steps[1..])
  }

  lemma {:induction false} StartReports(steps: seq<Option<BuildError>>)
    ensures !StartEdge(steps).Silent()
  {
    if steps != [] { StartReports(steps[1..]); }
  }

  /** One turn of the main loop, as the environment answers in it. */
  datatype Round = Round(more: bool, capacity: int, work: seq<Work>, moreAfter: bool, result: Option<Command>)

  datatype Started = Started(pending: nat) | Stopped(result: BuildResult)

  /** Starting edges until the plan has none left or the runner is full. */
  function StartWork(capacity: int, work: seq<Work>, pending: nat): Started
    decreases |work|
  {
    if capacity <= 0 || work == [] then Started(pending) else
    var w := work[0];
    var start := if w.phony then Outcome(true, None) else StartEdge(w.startSteps);
    if start.error.Some? || !start.done then Stopped(BuildResult(EXIT_FAILURE, start.error))
    else if w.phony then
      var finished := EdgeFinished(true, w.successors);
      if finished.error.Some? || !finished.done then Stopped(BuildResult(EXIT_FAILURE, finished.error))
      else StartWork(capacity, work[1..], pending)
    else
      StartWork(if w.capacity < capacity - 1 then w.capacity else capacity - 1, work[1..], pending + 1)
  }

  lemma {:induction false} WorkReports(capacity: int, work: seq<Work>, pending: nat)
    ensures var r := StartWork(capacity, work, pending);
            r.Stopped? ==> r.result.exitCode == EXIT_FAILURE && r.result.error.Some?
    decreases |work|
  {
    if capacity > 0 && work != [] {
      var w := work[0];
      StartReports(w.startSteps);
      NodesReport(w.successors);
      WorkReports(capacity, work[1..], pending);
      WorkReports(if w.capacity < capacity - 1 then w.capacity else capacity - 1, work[1..], pending + 1);
    }
  }

  /** Starting this edge, or following it if it is phony, meets no error. */
  predicate CanStart(w: Work)
  {
    if w.phony then AllLoad(w.successors) else forall i :: 0 <= i < |w.startSteps| ==> w.startSteps[i] == None
  }

  /** The room that is left after the first `m` edges: each command takes some, and the runner may have less. */
  function RoomAfter(capacity: int, work: seq<Work>, m: nat): int
    requires m <= |work|
  {
    if m == 0 then capacity
    else
      var before, w := RoomAfter(capacity, work, m - 1), work[m - 1];
      if w.phony then before else if w.capacity <= before - 1 then w.capacity else before - 1
  }

  function CommandsIn(work: seq<Work>, m: nat): nat
    requires m <= |work|
  {
    if m == 0 then 0 else CommandsIn(work, m - 1) + if work[m - 1].phony then 0 else 1
  }

  /** The first `m` edges are started one after the other, while there is room. */
  predicate StartsUpTo(capacity: int, work: seq<Work>, m: nat)
  {
    m <= |work| && forall i :: 0 <= i < m ==> RoomAfter(capacity, work, i) > 0 && CanStart(work[i])
  }

  lemma {:induction false} RoomFromFirst(capacity: int, work: seq<Work>, m: nat)
    requires 0 < m <= |work|
    ensures RoomAfter(capacity, work, m) == RoomAfter(RoomAfter(capacity, work, 1), work[1..], m - 1)
    ensures CommandsIn(work, m) == CommandsIn(work, 1) + CommandsIn(work[1..], m - 1)
  {
    if m > 1 {
      RoomFromFirst(capacity, work, m - 1);
      assert work[1..][m - 2] == work[m - 1];
    }
  }

  lemma StartsOneMore(capacity: int, work: seq<Work>, m: nat)
    requires work != [] && capacity > 0 && CanStart(work[0]) && StartsUpTo(RoomAfter(capacity, work, 1), work[1..], m)
    ensures StartsUpTo(capacity, work, m + 1)
  {
    forall i | 0 <= i < m + 1 ensures RoomAfter(capacity, work, i) > 0 && CanStart(work[i]) {
      if i > 0 {
        RoomFromFirst(capacity, work, i);
        assert work[1..][i - 1] == work[i];
      }
    }
  }

  lemma {:induction false} StartExactlyWhen(steps: seq<Option<BuildError>>)
    ensures StartEdge(steps).done <==> forall i :: 0 <= i < |steps| ==> steps[i] == None
    ensures StartEdge(steps).done ==> StartEdge(steps).error.None?
  {
    if steps != [] {
      StartExactlyWhen(steps[1..]);
      assert forall i :: 1 <= i < |steps| ==> steps[i] == steps[1..][i - 1];
    }
  }

  /** The edges that are started are the first ones, until one meets an error, there is no more room or no more work. */
  lemma {:induction false} WorkStarted(capacity: int, work: seq<Work>, pending: nat) returns (m: nat)
    ensures StartsUpTo(capacity, work, m)
    ensures match StartWork(capacity, work, pending)
            case Started(n) => n == pending + CommandsIn(work, m) && (m == |work| || RoomAfter(capacity, work, m) <= 0)
            case Stopped(result) =>
              && m < |work| && RoomAfter(capacity, work, m) > 0 && !CanStart(work[m])
              && result.exitCode == 1 && result.error.Some?
    decreases |work|
  {
    m := 0;
    hide AllLoad, CanStart, StartsUpTo, RoomAfter, CommandsIn, StartWork;
    NothingStarted(capacity, work, pending);
    if capacity > 0 && work != [] {
      FirstWork(capacity, work, pending);
      if CanStart(work[0]) {
        var room := RoomAfter(capacity, work, 1);
        var m' := WorkStarted(room, work[1..], pending + CommandsIn(work, 1));
        m := m' + 1;
        StartsOneMore(capacity, work, m');
        WithinWork(room, work[1..], m');
        RoomFromFirst(capacity, work, m);
        assert m' < |work[1..]| ==> work[1..][m'] == work[m];
      }
    }
  }

  lemma WithinWork(capacity: int, work: seq<Work>, m: nat)
    requires StartsUpTo(capacity, work, m)
    ensures m <= |work|
  {
  }

  lemma NothingStarted(capacity: int, work: seq<Work>, pending: nat)
    ensures StartsUpTo(capacity, work, 0) && RoomAfter(capacity, work, 0) == capacity && CommandsIn(work, 0) == 0
    ensures capacity <= 0 || work == [] ==> StartWork(capacity, work, pending) == Started(pending)
  {
  }

  lemma FirstWork(capacity: int, work: seq<Work>, pending: nat)
    requires capacity > 0 && work != []
    ensures var r := StartWork(capacity, work, pending);
            if CanStart(work[0])
            then r == StartWork(RoomAfter(capacity, work, 1), work[1..], pending + CommandsIn(work, 1))
            else r.Stopped? && r.result.exitCode == 1 && r.result.error.Some?
  {
    var w := work[0];
    StartExactlyWhen(w.startSteps);
    StartReports(w.startSteps);
    NodesDoneExactlyWhen(w.successors);
    NodesReport(w.successors);
    DoneWithoutError(w.successors);
    hide AllLoad, StartEdge, NodesFinished;
    assert RoomAfter(capacity, work, 0) == capacity && CommandsIn(work, 0) == 0;
  }

  /** So no more commands are started than there is room for. */
  lemma {:induction false} CommandsWithinRoom(capacity: int, work: seq<Work>, m: nat)
    requires StartsUpTo(capacity, work, m)
    ensures RoomAfter(capacity, work, m) <= capacity - CommandsIn(work, m) && (m > 0 ==> CommandsIn(work, m) <= capacity)
  {
    if m > 0 {
      CommandsWithinRoom(capacity, work, m - 1);
      assert RoomAfter(capacity, work, m - 1) > 0;
    }
  }

  datatype Config = Config(failuresAllowed: int, dryRun: bool, uploadError: Option<BuildError>)

  /** What the loop carries along. */
  datatype State = State(pending: nat, failuresAllowed: int, exitCode: int)

  function Uploaded(config: Config): BuildResult
  {
    if config.uploadError.Some? then BuildResult(EXIT_FAILURE, config.uploadError) else BuildResult(EXIT_SUCCESS, None)
  }

  /** A turn ends the build, or leads to the next one. */
  datatype Turn = Next(state: State) | Ends(result: BuildResult)

  /** A command has finished with this status. */
  function Reap(c: Command, st: State, dryRun: bool): Turn
    requires st.pending > 0
  {
    var finished, status := FinishCommand(c, dryRun), FinalStatus(c);
    var code := if status != EXIT_SUCCESS then status else st.exitCode;
    if !finished.done then
      Ends(BuildResult(if status == EXIT_SUCCESS then EXIT_FAILURE else status, finished.error))
    else
      Next(State(st.pending - 1,
                 if status != EXIT_SUCCESS && st.failuresAllowed > 0 then st.failuresAllowed - 1 else st.failuresAllowed,
                 code))
  }

  function OneTurn(r: Round, st: State, config: Config): Turn
  {
    if !r.more then Ends(Uploaded(config)) else
    var started := if st.failuresAllowed > 0 then StartWork(r.capacity, r.work, st.pending) else Started(st.pending);
    if started.Stopped? then Ends(started.result)
    else if st.failuresAllowed > 0 && started.pending == 0 && !r.moreAfter then Ends(Uploaded(config))
    else if started.pending > 0 then
      if r.result.None? || r.result.value.status == EXIT_INTERRUPTED then Ends(BuildResult(EXIT_INTERRUPTED, Some(Interrupted)))
      else Reap(r.result.value, st.(pending := started.pending), config.dryRun)
    else Ends(BuildResult(st.exitCode, Some(OtherError)))
  }

  /** The whole loop; no result if it is still going on after these turns. */
  function Rounds(rounds: seq<Round>, st: State, config: Config): Option<BuildResult>
    decreases |rounds|
  {
    if rounds == [] then None else
    var turn := OneTurn(rounds[0], st, config);
    if turn.Ends? then Some(turn.result) else Rounds(rounds[1..], turn.state, config)
  }

  function Begin(config: Config): State { State(0, config.failuresAllowed, EXIT_SUCCESS) }

  method StartAll(capacity0: int, work: seq<Work>, pending0: nat) returns (pending: nat, stopped: Option<BuildResult>)
    ensures match StartWork(capacity0, work, pending0)
            case Started(n) => stopped == None && pending == n
            case Stopped(result) => stopped == Some(result)
  {
    pending, stopped := pending0, None;
    var capacity, i := capacity0, 0;
    while capacity > 0 && i < |work|
      invariant 0 <= i <= |work|
      invariant StartWork(capacity, work[i..], pending) == StartWork(capacity0, work, pending0)
    {
      var w := work[i];
      assert work[i..][0] == w && work[i..][1..] == work[i + 1..];
      var start := if w.phony then Outcome(true, None) else StartEdge(w.startSteps);
      if start.error.Some? || !start.done { return pending, Some(BuildResult(EXIT_FAILURE, start.error)); }
      if w.phony {
        var finished := EdgeFinished(true, w.successors);
        if finished.error.Some? || !finished.done { return pending, Some(BuildResult(EXIT_FAILURE, finished.error)); }
      } else {
        pending := pending + 1;
        capacity := capacity - 1;
        if w.capacity < capacity { capacity := w.capacity; }
      }
      i := i + 1;
    }
  }

  /** The main loop. */
  method Build(rounds: seq<Round>, config: Config) returns (result: Option<BuildResult>)
    ensures result == Rounds(rounds, Begin(config), config)
  {
    var pendingCommands, failuresAllowed, exitCode := 0, config.failuresAllowed, EXIT_SUCCESS;
    var i := 0;
    while i < |rounds|
      invariant 0 <= i <= |rounds| && pendingCommands >= 0
      invariant Rounds(rounds[i..], State(pendingCommands, failuresAllowed, exitCode), config) == Rounds(rounds, Begin(config), config)
    {
      var r := rounds[i];
      ghost var st := State(pendingCommands, failuresAllowed, exitCode);
      assert rounds[i..][0] == r && rounds[i..][1..] == rounds[i + 1..];
      if !r.more { return Some(Uploaded(config)); }
      if failuresAllowed > 0 {
        var pending, stopped := StartAll(r.capacity, r.work, pendingCommands);
        if stopped.Some? { return stopped; }
        pendingCommands := pending;
        if pendingCommands == 0 && !r.moreAfter { return Some(Uploaded(config)); }
      }
      if pendingCommands > 0 {
        if r.result.None? || r.result.value.status == EXIT_INTERRUPTED {
          return Some(BuildResult(EXIT_INTERRUPTED, Some(Interrupted)));
        }
        var c := r.result.value;
        pendingCommands := pendingCommands - 1;
        var finished := FinishCommand(c, config.dryRun);
        var status := FinalStatus(c);
        if status != EXIT_SUCCESS { exitCode := status; }
        if !finished.done {
          return Some(BuildResult(if status == EXIT_SUCCESS then EXIT_FAILURE else status, finished.error));
        }
        if status != EXIT_SUCCESS && failuresAllowed > 0 { failuresAllowed := failuresAllowed - 1; }
        assert OneTurn(r, st, config) == Next(State(pendingCommands, failuresAllowed, exitCode));
        i := i + 1;
        continue;
      }
      return Some(BuildResult(exitCode, Some(OtherError)));
    }
    assert rounds[i..] == [];
    return None;
  }

  /** The commands that run in a turn once everything has been started that can be, unless that fails. */
  function Running(r: Round, st: State): Started
  {
    if st.failuresAllowed > 0 then StartWork(r.capacity, r.work, st.pending) else Started(st.pending)
  }

  /** There is nothing more to do: at once, or once everything has been started. */
  predicate DoneTurn(r: Round, st: State)
  {
    !r.more || (st.failuresAllowed > 0 && Running(r, st) == Started(0) && !r.moreAfter)
  }

  /** There is more to do, but nothing runs. */
  predicate IdleTurn(r: Round, st: State)
  {
    r.more && Running(r, st) == Started(0) && (st.failuresAllowed > 0 ==> r.moreAfter)
  }

  /** Some command runs, and the runner waits for it. */
  predicate WaitingTurn(r: Round, st: State)
  {
    r.more && Running(r, st).Started? && Running(r, st).pending > 0
  }

  /** A turn in which a strange file makes the build give up. */
  predicate StrangeTurn(r: Round, st: State, config: Config)
  {
    && WaitingTurn(r, st) && r.result.Some? && r.result.value.status != EXIT_INTERRUPTED
    && StrangeCommand(r.result.value, config.dryRun)
  }

  lemma TurnSilentExactlyWhen(r: Round, st: State, config: Config)
    ensures var turn := OneTurn(r, st, config);
            turn.Ends? && !turn.result.Reported() <==> StrangeTurn(r, st, config)
  {
    WorkReports(r.capacity, r.work, st.pending);
    if r.result.Some? { FinishSilentExactlyWhen(r.result.value, config.dryRun); }
  }

  /** The build gets as far as turn `k`, in this state. */
  ghost predicate Reaches(rounds: seq<Round>, st: State, config: Config, k: nat, last: State)
    decreases |rounds|
  {
    k < |rounds| &&
    if k == 0 then last == st
    else
      var turn := OneTurn(rounds[0], st, config);
      turn.Next? && Reaches(rounds[1..], turn.state, config, k - 1, last)
  }

  ghost predicate EndsAt(rounds: seq<Round>, st: State, config: Config, k: nat, last: State, r: BuildResult)
  {
    Reaches(rounds, st, config, k, last) && OneTurn(rounds[k], last, config) == Ends(r)
  }

  /** A build returns what the turn returns that it ends in. */
  lemma {:induction false} EndsInATurn(rounds: seq<Round>, st: State, config: Config, r: BuildResult)
    ensures Rounds(rounds, st, config) == Some(r) <==> exists k: nat, last :: EndsAt(rounds, st, config, k, last, r)
    decreases |rounds|
  {
    if rounds != [] {
      var turn := OneTurn(rounds[0], st, config);
      if turn.Next? {
        EndsInATurn(rounds[1..], turn.state, config, r);
        if k: nat, last :| EndsAt(rounds, st, config, k, last, r) {
          assert EndsAt(rounds[1..], turn.state, config, k - 1, last, r);
        }
        if k: nat, last :| EndsAt(rounds[1..], turn.state, config, k, last, r) {
          assert EndsAt(rounds, st, config, k + 1, last, r);
        }
      } else if Rounds(rounds, st, config) == Some(r) {
        assert EndsAt(rounds, st, config, 0, st, r);
      }
    }
  }

  /**
   * A build fails without an error if and only if it comes to a turn in which a
   * successful command's output, looked at because of `restat`, a generator, a
   * missing start time or its dependencies, was last modified exactly one
   * nanosecond before 1970: the code takes that time for a failed `Stat`.
   */
  lemma SilentExactlyWhen(rounds: seq<Round>, config: Config)
    ensures (exists r :: Rounds(rounds, Begin(config), config) == Some(r) && !r.Reported()) <==>
            exists k: nat, last :: Reaches(rounds, Begin(config), config, k, last) && StrangeTurn(rounds[k], last, config)
  {
    hide Rounds, OneTurn, StrangeTurn;
    var st := Begin(config);
    if r :| Rounds(rounds, st, config) == Some(r) && !r.Reported() {
      EndsInATurn(rounds, st, config, r);
      var k: nat, last :| EndsAt(rounds, st, config, k, last, r);
      TurnSilentExactlyWhen(rounds[k], last, config);
    }
    if k: nat, last :| Reaches(rounds, st, config, k, last) && StrangeTurn(rounds[k], last, config) {
      TurnSilentExactlyWhen(rounds[k], last, config);
      var r := OneTurn(rounds[k], last, config).result;
      assert EndsAt(rounds, st, config, k, last, r);
      EndsInATurn(rounds, st, config, r);
    }
  }

  /** Nothing runs, nothing can be started, and no command has failed so far. */
  predicate StuckTurn(r: Round, st: State, config: Config)
  {
    IdleTurn(r, st) && st.exitCode == EXIT_SUCCESS
  }

  lemma TurnStuckExactlyWhen(r: Round, st: State, config: Config)
    ensures var turn := OneTurn(r, st, config);
            turn.Ends? && turn.result.exitCode == EXIT_SUCCESS && turn.result.error.Some? <==> StuckTurn(r, st, config)
  {
    WorkReports(r.capacity, r.work, st.pending);
  }

  /** The other way round, an error comes with the code for success if and only if the build gets stuck. */
  lemma StuckExactlyWhen(rounds: seq<Round>, config: Config)
    ensures (exists r :: Rounds(rounds, Begin(config), config) == Some(r) && r.exitCode == EXIT_SUCCESS && r.error.Some?) <==>
            exists k: nat, last :: Reaches(rounds, Begin(config), config, k, last) && StuckTurn(rounds[k], last, config)
  {
    hide Rounds, OneTurn, StuckTurn;
    var st := Begin(config);
    if r :| Rounds(rounds, st, config) == Some(r) && r.exitCode == EXIT_SUCCESS && r.error.Some? {
      EndsInATurn(rounds, st, config, r);
      var k: nat, last :| EndsAt(rounds, st, config, k, last, r);
      TurnStuckExactlyWhen(rounds[k], last, config);
    }
    if k: nat, last :| Reaches(rounds, st, config, k, last) && StuckTurn(rounds[k], last, config) {
      TurnStuckExactlyWhen(rounds[k], last, config);
      var r := OneTurn(rounds[k], last, config).result;
      assert EndsAt(rounds, st, config, k, last, r);
      EndsInATurn(rounds, st, config, r);
    }
  }

  lemma TurnSucceedsExactlyWhen(r: Round, st: State, config: Config)
    ensures OneTurn(r, st, config) == Ends(BuildResult(0, None)) <==> DoneTurn(r, st) && config.uploadError == None
    ensures DoneTurn(r, st) && config.uploadError.Some? ==> OneTurn(r, st, config) == Ends(BuildResult(1, config.uploadError))
  {
    WorkReports(r.capacity, r.work, st.pending);
  }

  /**
   * A build succeeds if and only if it comes to a turn in which there is nothing
   * more to do, and the uploads it waits for then went well.
   */
  lemma SucceedsExactlyWhen(rounds: seq<Round>, config: Config)
    ensures Rounds(rounds, Begin(config), config) == Some(BuildResult(0, None)) <==>
            config.uploadError == None &&
            exists k: nat, last :: Reaches(rounds, Begin(config), config, k, last) && DoneTurn(rounds[k], last)
  {
    hide Rounds, OneTurn, DoneTurn;
    var st, r := Begin(config), BuildResult(0, None);
    EndsInATurn(rounds, st, config, r);
    if Rounds(rounds, st, config) == Some(r) {
      var k: nat, last :| EndsAt(rounds, st, config, k, last, r);
      TurnSucceedsExactlyWhen(rounds[k], last, config);
    }
    if config.uploadError == None {
      if k: nat, last :| Reaches(rounds, st, config, k, last) && DoneTurn(rounds[k], last) {
        TurnSucceedsExactlyWhen(rounds[k], last, config);
        assert EndsAt(rounds, st, config, k, last, r);
      }
    }
  }

  /** No output has that time whenever it is looked at. */
  predicate NoStrangeFiles(rounds: seq<Round>)
  {
    forall i :: 0 <= i < |rounds| && rounds[i].result.Some? ==> NoStrangeOutputs(rounds[i].result.value.outputs)
  }

  predicate NoStrangeOutputs(outputs: seq<Output>)
  {
    forall i :: 0 <= i < |outputs| ==> outputs[i].restatted != Modified(-1) && outputs[i].recorded != Modified(-1)
  }

  lemma {:induction false} NotStrange(outputs: seq<Output>)
    requires NoStrangeOutputs(outputs)
    ensures !StrangeRestat(outputs) && !StrangeRecord(outputs)
  {
    if outputs != [] { NotStrange(outputs[1..]); }
  }

  /** Otherwise every failure comes with an error. */
  lemma FailuresAreReported(rounds: seq<Round>, config: Config)
    requires NoStrangeFiles(rounds)
    ensures var r := Rounds(rounds, Begin(config), config); r.Some? ==> r.value.Reported()
  {
    SilentExactlyWhen(rounds, config);
    forall k: nat, last | Reaches(rounds, Begin(config), config, k, last) ensures !StrangeTurn(rounds[k], last, config) {
      if rounds[k].result.Some? { NotStrange(rounds[k].result.value.outputs); }
    }
  }

  /** Failures are remembered: the status of the last one as a code, and how many more are allowed. */
  ghost predicate Counted(st: State, config: Config, failures: nat, code: int)
  {
    && st.exitCode == code && (code == EXIT_SUCCESS <==> failures == 0)
    && st.failuresAllowed == if failures <= config.failuresAllowed then config.failuresAllowed - failures
                             else if config.failuresAllowed > 0 then 0 else config.failuresAllowed
  }

  predicate FailedRound(r: Round) { r.result.Some? && CommandFailed(r.result.value) }

  /** The failed commands among those reaped before turn `k`. */
  function Failures(rounds: seq<Round>, k: nat): nat
    requires k <= |rounds|
  {
    if k == 0 then 0 else Failures(rounds, k - 1) + if FailedRound(rounds[k - 1]) then 1 else 0
  }

  /** The status of the last of them; commands that fail only because of their dependencies count as 1. */
  function FailureCode(rounds: seq<Round>, k: nat, code: int): int
    requires k <= |rounds|
  {
    if k == 0 then code
    else if FailedRound(rounds[k - 1]) then
      var status := rounds[k - 1].result.value.status;
      if status != 0 then status else 1
    else FailureCode(rounds, k - 1, code)
  }

  lemma {:induction false} FailuresFromFirst(rounds: seq<Round>, k: nat, code: int)
    requires 0 < k <= |rounds|
    ensures Failures(rounds, k) == Failures(rounds[1..], k - 1) + Failures(rounds, 1)
    ensures FailureCode(rounds, k, code) == FailureCode(rounds[1..], k - 1, FailureCode(rounds, 1, code))
  {
    if k > 1 {
      FailuresFromFirst(rounds, k - 1, code);
      assert rounds[1..][k - 2] == rounds[k - 1];
    }
  }

  lemma TurnCounts(r: Round, st: State, config: Config, failures: nat, code: int)
    requires Counted(st, config, failures, code) && OneTurn(r, st, config).Next?
    ensures Counted(OneTurn(r, st, config).state, config, failures + Failures([r], 1), FailureCode([r], 1, code))
  {
  }

  lemma {:induction false} FailuresAreCounted(rounds: seq<Round>, st: State, config: Config, k: nat, last: State,
                                              before: nat, code: int)
    requires Counted(st, config, before, code) && Reaches(rounds, st, config, k, last)
    ensures Counted(last, config, before + Failures(rounds, k), FailureCode(rounds, k, code))
    decreases k
  {
    if k > 0 {
      hide OneTurn;
      TurnCounts(rounds[0], st, config, before, code);
      assert Failures(rounds, 1) == Failures([rounds[0]], 1) && FailureCode(rounds, 1, code) == FailureCode([rounds[0]], 1, code);
      FailuresAreCounted(rounds[1..], OneTurn(rounds[0], st, config).state, config, k - 1, last,
                         before + Failures(rounds, 1), FailureCode(rounds, 1, code));
      FailuresFromFirst(rounds, k, code);
    }
  }

  /** A build that cannot make progress returns the status of the last failed command, or 0 if none has failed. */
  lemma CannotProgress(rounds: seq<Round>, config: Config, k: nat, last: State)
    requires Reaches(rounds, Begin(config), config, k, last) && IdleTurn(rounds[k], last)
    ensures Rounds(rounds, Begin(config), config) == Some(BuildResult(FailureCode(rounds, k, 0), Some(OtherError)))
  {
    FailuresAreCounted(rounds, Begin(config), config, k, last, 0, 0);
    hide Rounds;
    var r := BuildResult(FailureCode(rounds, k, 0), Some(OtherError));
    assert EndsAt(rounds, Begin(config), config, k, last, r);
    EndsInATurn(rounds, Begin(config), config, r);
  }

  /** A build that is interrupted while it waits says so. */
  lemma Interruption(rounds: seq<Round>, config: Config, k: nat, last: State)
    requires Reaches(rounds, Begin(config), config, k, last) && WaitingTurn(rounds[k], last)
    requires rounds[k].result.Some? ==> rounds[k].result.value.status == 130
    ensures Rounds(rounds, Begin(config), config) == Some(BuildResult(130, Some(Interrupted)))
  {
    hide Rounds;
    var r := BuildResult(130, Some(Interrupted));
    assert EndsAt(rounds, Begin(config), config, k, last, r);
    EndsInATurn(rounds, Begin(config), config, r);
  }

  /** Otherwise it goes on with one command less, unless something goes wrong in finishing it. */
  lemma GoesOn(rounds: seq<Round>, config: Config, k: nat, last: State, c: Command)
    requires Reaches(rounds, Begin(config), config, k, last) && WaitingTurn(rounds[k], last)
    requires rounds[k].result == Some(c) && c.status != 130
    ensures var turn := OneTurn(rounds[k], last, config);
            if CommandFailed(c) || WellFinished(c, config.dryRun)
            then turn.Next? && turn.state.pending == Running(rounds[k], last).pending - 1
            else turn.Ends? && turn.result.exitCode == 1
  {
    FinishSilentExactlyWhen(c, config.dryRun);
  }

  /** Once as many commands have failed as are allowed, it does not matter any more what could be started. */
  lemma NothingStartsAfterFailures(rounds: seq<Round>, config: Config, k: nat, last: State, r: Round)
    requires Reaches(rounds, Begin(config), config, k, last) && Failures(rounds, k) >= config.failuresAllowed
    requires r == rounds[k].(work := r.work, capacity := r.capacity, moreAfter := r.moreAfter)
    ensures OneTurn(r, last, config) == OneTurn(rounds[k], last, config)
  {
    FailuresAreCounted(rounds, Begin(config), config, k, last, 0, 0);
  }

  /** What a build returns whose files have ordinary times. */
  ghost predicate Returned(r: BuildResult)
  {
    exists rounds, config :: NoStrangeFiles(rounds) && Rounds(rounds, Begin(config), config) == Some(r)
  }

  lemma ReturnedIsReported(r: BuildResult)
    requires Returned(r)
    ensures r.Reported()
  {
    var rounds, config :| NoStrangeFiles(rounds) && Rounds(rounds, Begin(config), config) == Some(r);
    FailuresAreReported(rounds, config);
  }

  /** A single command that leaves such a file behind. */
  function StrangeRun(): seq<Round>
  {
    var output := Output(0, Modified(-1), [], Missing, false);
    [Round(true, 1, [Work(false, [], [], 0)], true, Some(Command(EXIT_SUCCESS, false, false, true, false, 1, [output], [], false)))]
  }

  lemma StrangeRunIsSilent(config: Config)
    requires config.failuresAllowed > 0 && !config.dryRun
    ensures Rounds(StrangeRun(), Begin(config), config) == Some(BuildResult(EXIT_FAILURE, None))
  {
    var r := StrangeRun()[0];
    assert r.work[1..] == [];
    assert StartWork(1, r.work, 0) == Started(1);
    assert RestatOutputs(r.result.value.outputs, true) == Outcome(false, None);
  }
}
