/** The Posix side of misc/jobserver_pool.py: filling the pool, running a command, auditing the pool. */
module JobserverPool {
  import opened Jobserver
  import opened JobserverProofs

  /** The byte `x` that the pool is filled with. */
  const X: Token := 'x' as int

  datatype ReadResult = Byte(token: Token) | EndOfPipe | WouldBlock

  /** A pipe or FIFO whose read end does not block. */
  class Pipe {
    var content: seq<Token>
    var writerOpen: bool

    constructor ()
      ensures content == [] && writerOpen
    {
      content, writerOpen := [], true;
    }

    method Write(tokens: seq<Token>)
      modifies this`content
      ensures content == old(content) + tokens
    {
      content := content + tokens;
    }

    method ReadOne() returns (r: ReadResult)
      modifies this`content
      ensures old(content) != [] ==> r == Byte(old(content)[0]) && content == old(content)[1..]
      ensures old(content) == [] ==> !r.Byte? && content == []
    {
      if content == [] {
        return if writerOpen then WouldBlock else EndOfPipe;
      }
      r := Byte(content[0]);
      content := content[1..];
    }
  }

  function Filled(n: nat): (r: seq<Token>)
    ensures |r| == n && forall i :: 0 <= i < n ==> r[i] == 'x' as int
  {
    if n == 0 then [] else [X] + Filled(n - 1)
  }

  /** Shared by the pipe and the FIFO; `ok` is false when the assertion on the count fails. */
  method Fill(pipe: Pipe, jobsCount: int) returns (ok: bool)
    modifies pipe`content
    ensures ok <==> jobsCount > 0
    ensures pipe.content == old(pipe.content) + if ok then Filled(jobsCount - 1) else []
  {
    ok := jobsCount > 0;
    if ok { pipe.Write(Filled(jobsCount - 1)); }
  }

  datatype Report = Silent | Missing(count: int, got: nat, expected: int) | Extra(count: int, got: nat, expected: int)

  /** Drains the pipe and says how far its content was off. */
  method CheckPipeTokens(pipe: Pipe, jobsCount: int) returns (code: int, report: Report)
    modifies pipe`content
    ensures jobsCount <= 1 ==> code == 0 && report == Silent && pipe.content == old(pipe.content)
    ensures jobsCount > 1 ==> pipe.content == []
    ensures jobsCount > 1 ==> (code == 0 <==> |old(pipe.content)| == jobsCount - 1) && (code == 0 || code == 1)
    ensures jobsCount > 1 ==> (report == Silent <==> code == 0)
    ensures report.Missing? ==> report.expected == jobsCount - 1 && report.got == |old(pipe.content)|
                                && report.count == jobsCount - 1 - |old(pipe.content)| > 0
    ensures report.Extra? ==> report.expected == jobsCount - 1 && report.got == |old(pipe.content)|
                              && report.count == |old(pipe.content)| - (jobsCount - 1) > 0
  {
    if jobsCount <= 1 { return 0, Silent; }
    var expectedCount := jobsCount - 1;
    var readCount := 0;
    while true
      invariant readCount + |pipe.content| == |old(pipe.content)|
      decreases |pipe.content|
    {
      var token := pipe.ReadOne();
      if !token.Byte? { break; }
      readCount := readCount + 1;
    }
    if readCount < expectedCount { return 1, Missing(expectedCount - readCount, readCount, expectedCount); }
    if readCount > expectedCount { return 1, Extra(readCount - expectedCount, readCount, expectedCount); }
    return 0, Silent;
  }

  /** The pool at the end of a command whose clients took these steps. */
  function FinalState(jobsCount: int, steps: seq<Step>): System
    requires jobsCount > 0
  {
    Perform(Start(Filled(jobsCount - 1)), steps)
  }

  /** The script around a command that takes the given steps and returns the given code. */
  method RunWithPool(jobsCount: int, noCheck: bool, steps: seq<Step>, returnCode: int)
    returns (exitCode: int, report: Report)
    ensures jobsCount <= 0 || returnCode != 0 || noCheck ==> exitCode == returnCode && report == Silent
    ensures jobsCount > 0 && returnCode == 0 && !noCheck ==>
              (exitCode == 0 <==> jobsCount == 1 || |FinalState(jobsCount, steps).pipe| == jobsCount - 1)
    ensures report.Missing? ==> jobsCount > 0 && report.count == jobsCount - 1 - |FinalState(jobsCount, steps).pipe|
    ensures report.Extra? ==> jobsCount > 0 && report.count == |FinalState(jobsCount, steps).pipe| - (jobsCount - 1)
  {
    report := Silent;
    if jobsCount <= 0 { return returnCode, Silent; }
    var pipe := new Pipe();
    var ok := Fill(pipe, jobsCount);
    assert pipe.content == Filled(jobsCount - 1);
    pipe.content := Perform(Start(pipe.content), steps).pipe;
    exitCode := returnCode;
    if exitCode == 0 && !noCheck {
      exitCode, report := CheckPipeTokens(pipe, jobsCount);
    }
  }

  /** Only the first client is left, and it holds nothing. */
  predicate Quiet(s: System)
  {
    |s.clients| == 1 && s.clients[0].Held() == []
  }

  lemma NothingElse(a: multiset<Token>, b: multiset<Token>, held: multiset<Token>, lost: multiset<Token>, forged: multiset<Token>)
    requires a + held + lost == b + forged && |held| == |lost| == |forged| == 0
    ensures a == b
  {
    forall t: Token ensures a[t] == b[t] { assert (a + held + lost)[t] == (b + forged)[t]; }
  }

  /**
   * The audit: when all clients are done, the pool is short by exactly the
   * tokens lost less those forged. With neither, it holds the very tokens it
   * was filled with.
   */
  lemma AuditAtRest(jobsCount: int, steps: seq<Step>)
    requires jobsCount > 0 && Quiet(FinalState(jobsCount, steps))
    ensures var s := FinalState(jobsCount, steps);
            && |s.pipe| + |s.lost| == jobsCount - 1 + |s.forged|
            && (s.lost == multiset{} && s.forged == multiset{} ==> s.pipe == Filled(jobsCount - 1))
  {
    var pipe := Filled(jobsCount - 1);
    var s := FinalState(jobsCount, steps);
    JobsNeverExceedSlots(pipe, steps);
    StartConserved(pipe);
    RunKeeps(Start(pipe), steps, multiset(pipe));
    var c := s.clients[0];
    assert s.clients == [c] && ClientOk(c);
    OneClient(c);
    assert |c.running| == 0 by { assert |c.Held()| == |c.running| + |c.hosting|; }
    if s.lost == multiset{} && s.forged == multiset{} {
      NothingElse(multiset(s.pipe), multiset(pipe), HeldTokens(s.clients), s.lost, s.forged);
      forall i | 0 <= i < |s.pipe| ensures s.pipe[i] == 'x' as int {
        assert s.pipe[i] in multiset(s.pipe);
        assert s.pipe[i] in multiset(pipe);
      }
    }
  }
}
