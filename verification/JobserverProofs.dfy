/** Conservation of job slots over every run. */
module JobserverProofs {
  import opened PyStrings
  import opened Jobserver

  lemma Associate(a: multiset<Token>, b: multiset<Token>, c: multiset<Token>)
    ensures a + (b + c) == a + b + c
  {
  }

  lemma NothingAdded(a: multiset<Token>)
    ensures multiset{} + a == a
  {
  }

  /** The token of one slot. */
  function First(slot: Slot): multiset<Token> { if slot.Explicit? then multiset{slot.token} else multiset{} }

  lemma TokensSplit(x: Slot, rest: seq<Slot>)
    ensures Tokens([x] + rest) == First(x) + Tokens(rest)
  {
    assert ([x] + rest)[1..] == rest;
  }

  lemma NoTokens()
    ensures Tokens([]) == multiset{}
  {
  }

  lemma {:induction false} TokensConcat(a: seq<Slot>, b: seq<Slot>)
    ensures Tokens(a + b) == Tokens(a) + Tokens(b)
  {
    hide Tokens, First;
    if a == [] {
      assert a + b == b;
      NoTokens();
      NothingAdded(Tokens(b));
    } else {
      var x, rest := a[0], a[1..];
      TokensConcat(rest, b);
      assert a == [x] + rest && a + b == [x] + (rest + b);
      TokensSplit(x, rest);
      TokensSplit(x, rest + b);
      Associate(First(x), Tokens(rest), Tokens(b));
    }
  }

  lemma {:induction false} ImplicitsConcat(a: seq<Slot>, b: seq<Slot>)
    ensures Implicits(a + b) == Implicits(a) + Implicits(b)
  {
    if a == [] {
      assert a + b == b;
    } else {
      ImplicitsConcat(a[1..], b);
      assert (a + b)[1..] == a[1..] + b && (a + b)[0] == a[0];
    }
  }

  lemma SlotsConcat(a: seq<Slot>, b: seq<Slot>)
    ensures Tokens(a + b) == Tokens(a) + Tokens(b)
    ensures Implicits(a + b) == Implicits(a) + Implicits(b)
  {
    TokensConcat(a, b);
    ImplicitsConcat(a, b);
  }

  lemma OneSlot(x: Slot)
    ensures Tokens([x]) == if x.Explicit? then multiset{x.token} else multiset{}
    ensures Implicits([x]) == if x.Implicit? then 1 else 0
  {
    assert [x][1..] == [];
  }

  lemma SlotRemoved(a: seq<Slot>, k: nat)
    requires k < |a|
    ensures Tokens(a) == Tokens(Without(a, k)) + Tokens([a[k]])
    ensures Implicits(a) == Implicits(Without(a, k)) + Implicits([a[k]])
    ensures forall x :: x in Without(a, k) ==> x in a
  {
    assert a == a[..k] + [a[k]] + a[k + 1..];
    SlotsConcat(a[..k] + [a[k]], a[k + 1..]);
    SlotsConcat(a[..k], [a[k]]);
    SlotsConcat(a[..k], a[k + 1..]);
  }

  /** Sums over clients, split at one of them. */
  lemma {:induction false} AllHeldConcat(a: seq<Client>, b: seq<Client>)
    ensures AllHeld(a + b) == AllHeld(a) + AllHeld(b)
  {
    if a == [] {
      assert a + b == b;
    } else {
      AllHeldConcat(a[1..], b);
      assert (a + b)[1..] == a[1..] + b && (a + b)[0] == a[0];
      Regroup(a[0].Held(), AllHeld(a[1..]), AllHeld(b));
    }
  }

  lemma HeldConcat(a: seq<Client>, b: seq<Client>)
    ensures HeldTokens(a + b) == HeldTokens(a) + HeldTokens(b)
  {
    AllHeldConcat(a, b);
    TokensConcat(AllHeld(a), AllHeld(b));
  }

  lemma {:induction false} JobsConcat(a: seq<Client>, b: seq<Client>)
    ensures Running(a + b) == Running(a) + Running(b)
    ensures Hosting(a + b) == Hosting(a) + Hosting(b)
    ensures IdleImplicit(a + b) == IdleImplicit(a) + IdleImplicit(b)
  {
    if a == [] {
      assert a + b == b;
    } else {
      JobsConcat(a[1..], b);
      assert (a + b)[1..] == a[1..] + b && (a + b)[0] == a[0];
    }
  }

  lemma ClientsConcat(a: seq<Client>, b: seq<Client>)
    ensures HeldTokens(a + b) == HeldTokens(a) + HeldTokens(b)
    ensures Running(a + b) == Running(a) + Running(b)
    ensures Hosting(a + b) == Hosting(a) + Hosting(b)
    ensures IdleImplicit(a + b) == IdleImplicit(a) + IdleImplicit(b)
  {
    HeldConcat(a, b);
    JobsConcat(a, b);
  }

  lemma OneClient(c: Client)
    ensures HeldTokens([c]) == Tokens(c.Held()) && Running([c]) == |c.running|
    ensures Hosting([c]) == |c.hosting| && IdleImplicit([c]) == if c.hasImplicitSlot then 1 else 0
  {
    assert [c][1..] == [] && AllHeld([]) == [];
    assert AllHeld([c]) == c.Held() + [] == c.Held();
  }

  /** The sums with one client left out. */
  lemma ClientOut(cs: seq<Client>, i: nat)
    requires i < |cs|
    ensures HeldTokens(cs) == HeldTokens(Without(cs, i)) + Tokens(cs[i].Held())
    ensures Running(cs) == Running(Without(cs, i)) + |cs[i].running|
    ensures Hosting(cs) == Hosting(Without(cs, i)) + |cs[i].hosting|
    ensures IdleImplicit(cs) == IdleImplicit(Without(cs, i)) + if cs[i].hasImplicitSlot then 1 else 0
  {
    assert cs == cs[..i] + [cs[i]] + cs[i + 1..];
    ClientsConcat(cs[..i] + [cs[i]], cs[i + 1..]);
    ClientsConcat(cs[..i], [cs[i]]);
    ClientsConcat(cs[..i], cs[i + 1..]);
    OneClient(cs[i]);
  }

  lemma ClientReplaced(cs: seq<Client>, i: nat, c: Client)
    requires i < |cs|
    ensures HeldTokens(cs[i := c]) + Tokens(cs[i].Held()) == HeldTokens(cs) + Tokens(c.Held())
    ensures Hosting(cs[i := c]) + |cs[i].hosting| == Hosting(cs) + |c.hosting|
  {
    ClientOut(cs, i);
    ClientOut(cs[i := c], i);
    assert Without(cs[i := c], i) == Without(cs, i);
  }

  /** The slots of a client before and after each thing that can happen to it. */
  lemma SlotsGained(c: Client, slot: Slot)
    ensures var after := c.(running := c.running + [slot]);
            Tokens(after.Held()) == Tokens(c.Held()) + Tokens([slot]) &&
            Implicits(after.Held()) == Implicits(c.Held()) + Implicits([slot])
  {
    SlotsConcat(c.running, c.hosting);
    SlotsConcat(c.running + [slot], c.hosting);
    SlotsConcat(c.running, [slot]);
  }

  lemma SlotsGiven(c: Client, k: nat)
    requires k < |c.running|
    ensures var after := c.(running := Without(c.running, k));
            Tokens(c.Held()) == Tokens(after.Held()) + Tokens([c.running[k]]) &&
            Implicits(c.Held()) == Implicits(after.Held()) + Implicits([c.running[k]]) &&
            forall x :: x in after.Held() ==> x in c.Held()
  {
    SlotRemoved(c.running, k);
    SlotsConcat(c.running, c.hosting);
    SlotsConcat(Without(c.running, k), c.hosting);
  }

  lemma SlotsLent(c: Client, k: nat)
    requires k < |c.running|
    ensures var after := c.(running := Without(c.running, k), hosting := c.hosting + [c.running[k]]);
            Tokens(c.Held()) == Tokens(after.Held()) && (ClientOk(c) ==> ClientOk(after))
  {
    SlotRemoved(c.running, k);
    SlotsConcat(c.running, c.hosting);
    SlotsConcat(Without(c.running, k), c.hosting + [c.running[k]]);
    SlotsConcat(c.hosting, [c.running[k]]);
    assert c.running[k] in c.Held();
  }

  lemma SlotsBack(c: Client, k: nat)
    requires k < |c.hosting|
    ensures var after := c.(running := c.running + [c.hosting[k]], hosting := Without(c.hosting, k));
            Tokens(c.Held()) == Tokens(after.Held()) && (ClientOk(c) ==> ClientOk(after))
  {
    SlotRemoved(c.hosting, k);
    SlotsConcat(c.running, c.hosting);
    SlotsConcat(c.running + [c.hosting[k]], Without(c.hosting, k));
    SlotsConcat(c.running, [c.hosting[k]]);
    assert c.hosting[k] in c.Held();
  }

  /** Tokens that move between one client and the pipe are conserved. */
  lemma ExchangeKeeps(s: System, c: nat, client: Client, pipe: seq<Token>, initial: multiset<Token>)
    requires Conserved(s, initial) && c < |s.clients|
    requires ClientOk(client) && |client.hosting| == |s.clients[c].hosting|
    requires multiset(pipe) + Tokens(client.Held()) == multiset(s.pipe) + Tokens(s.clients[c].Held())
    ensures Conserved(s.(pipe := pipe, clients := s.clients[c := client]), initial)
  {
    ClientReplaced(s.clients, c, client);
    var x, y := HeldTokens(s.clients), HeldTokens(s.clients[c := client]);
    Cancel(multiset(pipe), y, multiset(s.pipe), x, Tokens(client.Held()), Tokens(s.clients[c].Held()));
  }

  lemma Cancel(p: multiset<Token>, y: multiset<Token>, q: multiset<Token>, x: multiset<Token>, new_: multiset<Token>, old_: multiset<Token>)
    requires p + new_ == q + old_ && y + old_ == x + new_
    ensures p + y == q + x
  {
    forall t: Token ensures (p + y)[t] == (q + x)[t] {
      assert (p + new_)[t] == (q + old_)[t] && (y + old_)[t] == (x + new_)[t];
    }
  }

  lemma CancelOne(a: multiset<Token>, b: multiset<Token>, c: multiset<Token>)
    requires a + c == b + c
    ensures a == b
  {
    forall t: Token ensures a[t] == b[t] { assert (a + c)[t] == (b + c)[t]; }
  }

  lemma ClientAcquires(c: Client, pipe: seq<Token>)
    requires ClientOk(c) && TryAcquire(c, pipe).0 != Invalid
    ensures var (slot, client, rest) := TryAcquire(c, pipe);
            var after := client.(running := client.running + [slot]);
            ClientOk(after) && |after.hosting| == |c.hosting| &&
            multiset(rest) + Tokens(after.Held()) == multiset(pipe) + Tokens(c.Held())
  {
    var (slot, client, rest) := TryAcquire(c, pipe);
    SlotsGained(client, slot);
    OneSlot(slot);
    assert client.Held() == c.Held();
    var after := client.(running := client.running + [slot]);
    assert forall x :: x in after.Held() ==> x in client.Held() || x == slot;
    if slot.Explicit? { assert pipe == [pipe[0]] + rest; }
  }

  lemma AcquireKeeps(s: System, c: nat, initial: multiset<Token>)
    requires Conserved(s, initial) && c < |s.clients|
    ensures Conserved(Apply(s, Acquire(c)), initial)
  {
    var (slot, client, pipe) := TryAcquire(s.clients[c], s.pipe);
    if slot != Invalid {
      assert ClientOk(s.clients[c]);
      ClientAcquires(s.clients[c], s.pipe);
      ExchangeKeeps(s, c, client.(running := client.running + [slot]), pipe, initial);
    }
  }

  /** A job that ends gives its slot back, and that never panics. */
  lemma ClientFinishes(c: Client, k: nat, pipe: seq<Token>)
    requires ClientOk(c) && k < |c.running|
    ensures var r := Release(c.(running := Without(c.running, k)), pipe, c.running[k]);
            r.Released? && ClientOk(r.client) && |r.client.hosting| == |c.hosting| &&
            multiset(r.pipe) + Tokens(r.client.Held()) == multiset(pipe) + Tokens(c.Held())
  {
    var slot := c.running[k];
    var left := c.(running := Without(c.running, k));
    assert slot in c.Held();
    SlotsGiven(c, k);
    OneSlot(slot);
    var r := Release(left, pipe, slot);
    assert r.Released? && r.client.Held() == left.Held();
    if slot.Explicit? { Swap(multiset(pipe), multiset{slot.token}, Tokens(left.Held())); }
  }

  lemma Swap(a: multiset<Token>, b: multiset<Token>, c: multiset<Token>)
    ensures a + b + c == a + (c + b)
  {
  }

  lemma FinishKeeps(s: System, c: nat, k: nat, initial: multiset<Token>)
    requires Conserved(s, initial) && c < |s.clients| && k < |s.clients[c].running|
    ensures Conserved(Apply(s, Finish(c, k)), initial)
    ensures var client := s.clients[c];
            Release(client.(running := Without(client.running, k)), s.pipe, client.running[k]).Released?
  {
    var client := s.clients[c];
    assert ClientOk(client);
    ClientFinishes(client, k, s.pipe);
    var r := Release(client.(running := Without(client.running, k)), s.pipe, client.running[k]);
    ExchangeKeeps(s, c, r.client, r.pipe, initial);
  }

  /** A job that turns into a client keeps its slot. */
  lemma LentKeeps(cs: seq<Client>, c: nat, k: nat)
    requires ClientsOk(cs) && c < |cs| && k < |cs[c].running|
    ensures var client := cs[c];
            var parent := client.(running := Without(client.running, k), hosting := client.hosting + [client.running[k]]);
            ClientsOk(cs[c := parent]) && HeldTokens(cs[c := parent]) == HeldTokens(cs) &&
            Hosting(cs[c := parent]) == Hosting(cs) + 1
  {
    var client := cs[c];
    var parent := client.(running := Without(client.running, k), hosting := client.hosting + [client.running[k]]);
    assert ClientOk(client);
    SlotsLent(client, k);
    ClientReplaced(cs, c, parent);
    CancelOne(HeldTokens(cs[c := parent]), HeldTokens(cs), Tokens(client.Held()));
  }

  lemma SpawnKeeps(s: System, c: nat, k: nat, initial: multiset<Token>)
    requires Conserved(s, initial) && c < |s.clients| && k < |s.clients[c].running|
    ensures Conserved(Apply(s, Spawn(c, k)), initial)
  {
    var client := s.clients[c];
    var parent := client.(running := Without(client.running, k), hosting := client.hosting + [client.running[k]]);
    LentKeeps(s.clients, c, k);
    NewcomerKeeps(s.clients[c := parent]);
  }

  lemma NewcomerKeeps(cs: seq<Client>)
    requires ClientsOk(cs)
    ensures var all := cs + [Client(true, [], [])];
            ClientsOk(all) && HeldTokens(all) == HeldTokens(cs) && Hosting(all) == Hosting(cs)
  {
    var newcomer := Client(true, [], []);
    assert newcomer.Held() == [];
    ClientsConcat(cs, [newcomer]);
    OneClient(newcomer);
  }

  lemma EndKeeps(s: System, c: nat, k: nat, d: nat)
    requires CanEnd(s, c, k, d) && ClientsOk(s.clients)
    ensures var cs := AfterEnd(s, c, k, d);
            ClientsOk(cs) && HeldTokens(cs) + Tokens(s.clients[d].running) == HeldTokens(s.clients) &&
            Hosting(cs) + 1 == Hosting(s.clients) && |cs| + 1 == |s.clients|
  {
    var host, gone := s.clients[c], s.clients[d];
    var freed := host.(running := host.running + [host.hosting[k]], hosting := Without(host.hosting, k));
    assert ClientOk(host);
    SlotsBack(host, k);
    var cs := s.clients[c := freed];
    ClientReplaced(s.clients, c, freed);
    CancelOne(HeldTokens(cs), HeldTokens(s.clients), Tokens(host.Held()));
    assert cs[d] == gone && gone.Held() == gone.running;
    DroppedKeeps(cs, d);
  }

  lemma DroppedKeeps(cs: seq<Client>, d: nat)
    requires ClientsOk(cs) && d < |cs|
    ensures var left := Without(cs, d);
            ClientsOk(left) && HeldTokens(left) + Tokens(cs[d].Held()) == HeldTokens(cs) &&
            Hosting(left) + |cs[d].hosting| == Hosting(cs)
  {
    ClientOut(cs, d);
  }

  lemma LeaveKeeps(s: System, c: nat, k: nat, d: nat, initial: multiset<Token>)
    requires Conserved(s, initial) && CanEnd(s, c, k, d) && s.clients[d].running == []
    ensures Conserved(Apply(s, Leave(c, k, d)), initial)
  {
    EndKeeps(s, c, k, d);
    assert Tokens([]) == multiset{};
  }

  lemma CrashKeeps(s: System, c: nat, k: nat, d: nat, initial: multiset<Token>)
    requires Conserved(s, initial) && CanEnd(s, c, k, d)
    ensures Conserved(Apply(s, Crash(c, k, d)), initial)
  {
    EndKeeps(s, c, k, d);
    Lost(multiset(s.pipe), HeldTokens(AfterEnd(s, c, k, d)), Tokens(s.clients[d].running), s.lost);
  }

  lemma Lost(pipe: multiset<Token>, held: multiset<Token>, gone: multiset<Token>, lost: multiset<Token>)
    ensures pipe + held + (lost + gone) == pipe + (held + gone) + lost
  {
  }

  lemma ForgeKeeps(s: System, token: Token, initial: multiset<Token>)
    requires Conserved(s, initial)
    ensures Conserved(Apply(s, Forge(token)), initial)
  {
    assert multiset(s.pipe + [token]) == multiset(s.pipe) + multiset{token};
    Added(multiset(s.pipe), HeldTokens(s.clients), s.lost, multiset{token});
    Associate(initial, s.forged, multiset{token});
  }

  lemma Added(pipe: multiset<Token>, held: multiset<Token>, lost: multiset<Token>, more: multiset<Token>)
    ensures pipe + more + held + lost == pipe + held + lost + more
  {
  }

  /** Every step keeps the invariant. */
  lemma StepKeeps(s: System, step: Step, initial: multiset<Token>)
    requires Conserved(s, initial)
    ensures Conserved(Apply(s, step), initial)
  {
    match step
    case Acquire(c) => if c < |s.clients| { AcquireKeeps(s, c, initial); }
    case Finish(c, k) => if c < |s.clients| && k < |s.clients[c].running| { FinishKeeps(s, c, k, initial); }
    case Spawn(c, k) => if c < |s.clients| && k < |s.clients[c].running| { SpawnKeeps(s, c, k, initial); }
    case Leave(c, k, d) => if CanEnd(s, c, k, d) && s.clients[d].running == [] { LeaveKeeps(s, c, k, d, initial); }
    case Crash(c, k, d) => if CanEnd(s, c, k, d) { CrashKeeps(s, c, k, d, initial); }
    case Forge(token) => ForgeKeeps(s, token, initial);
  }

  lemma {:induction false} RunKeeps(s: System, steps: seq<Step>, initial: multiset<Token>)
    requires Conserved(s, initial)
    ensures Conserved(Perform(s, steps), initial)
    decreases |steps|
  {
    if steps != [] {
      StepKeeps(s, steps[0], initial);
      RunKeeps(Apply(s, steps[0]), steps[1..], initial);
    }
  }

  lemma {:induction false} SlotCount(slots: seq<Slot>)
    requires Invalid !in slots
    ensures |slots| == |Tokens(slots)| + Implicits(slots)
  {
    if slots != [] {
      assert slots[0] in slots;
      assert forall x :: x in slots[1..] ==> x in slots;
      SlotCount(slots[1..]);
    }
  }

  lemma {:induction false} JobCount(cs: seq<Client>)
    requires ClientsOk(cs)
    ensures Running(cs) + Hosting(cs) + IdleImplicit(cs) == |HeldTokens(cs)| + |cs|
  {
    if cs != [] {
      assert ClientOk(cs[0]);
      SlotCount(cs[0].Held());
      JobCount(cs[1..]);
      TokensConcat(cs[0].Held(), AllHeld(cs[1..]));
    }
  }

  /** The start: a full pipe and one client. */
  function Start(pipe: seq<Token>): System
  {
    System(pipe, [Client(true, [], [])], multiset{}, multiset{})
  }

  lemma StartConserved(pipe: seq<Token>)
    ensures Conserved(Start(pipe), multiset(pipe))
  {
    var c := Client(true, [], []);
    assert c.Held() == [];
    OneClient(c);
  }

  /**
   * Conservation over every run: jobs that are not clients themselves, tokens in
   * the pipe, idle implicit slots and lost tokens add up to the job count and
   * the forged tokens. So as long as nobody forges tokens, at most as many jobs
   * run at once as were asked for, however the clients are nested.
   */
  lemma JobsNeverExceedSlots(pipe: seq<Token>, steps: seq<Step>)
    ensures var s := Perform(Start(pipe), steps);
            && Running(s.clients) + |s.pipe| + IdleImplicit(s.clients) + |s.lost| == |pipe| + 1 + |s.forged|
            && (s.forged == multiset{} ==> Running(s.clients) <= |pipe| + 1)
            && multiset(s.pipe) + HeldTokens(s.clients) + s.lost == multiset(pipe) + s.forged
  {
    StartConserved(pipe);
    RunKeeps(Start(pipe), steps, multiset(pipe));
    var s := Perform(Start(pipe), steps);
    JobCount(s.clients);
    assert |multiset(s.pipe) + HeldTokens(s.clients) + s.lost| == |multiset(pipe) + s.forged|;
  }

  lemma {:induction false} RunningReplaced(cs: seq<Client>, i: nat, c: Client)
    requires i < |cs|
    ensures Running(cs[i := c]) + |cs[i].running| == Running(cs) + |c.running|
  {
    var new_ := cs[i := c];
    if i == 0 {
      assert new_[1..] == cs[1..];
    } else {
      RunningReplaced(cs[1..], i - 1, c);
      assert new_[1..] == cs[1..][i - 1 := c];
    }
  }

  /** A client takes its own slot if that is free, else the token that has waited longest, else nothing. */
  lemma AcquiresExactlyWhen(s: System, c: nat)
    ensures var s' := Apply(s, Acquire(c));
            && (Running(s'.clients) == Running(s.clients) + 1 <==>
                c < |s.clients| && (s.clients[c].hasImplicitSlot || s.pipe != []))
            && (c < |s.clients| && s.clients[c].hasImplicitSlot ==>
                  s'.pipe == s.pipe && !s'.clients[c].hasImplicitSlot && s'.clients[c].running == s.clients[c].running + [Implicit])
            && (c < |s.clients| && !s.clients[c].hasImplicitSlot && s.pipe != [] ==>
                  s'.pipe == s.pipe[1..] && s'.clients[c].running == s.clients[c].running + [Explicit(s.pipe[0])])
            && (Running(s'.clients) == Running(s.clients) ==> s' == s)
  {
    if c < |s.clients| { RunningReplaced(s.clients, c, Apply(s, Acquire(c)).clients[c]); }
  }

  /** A job that ends gives its slot back to where it came from. */
  lemma FinishGivesBack(s: System, c: nat, k: nat, initial: multiset<Token>)
    requires Conserved(s, initial) && c < |s.clients| && k < |s.clients[c].running|
    ensures var s', slot := Apply(s, Finish(c, k)), s.clients[c].running[k];
            && Running(s'.clients) + 1 == Running(s.clients)
            && s'.clients[c].running == s.clients[c].running[..k] + s.clients[c].running[k + 1..]
            && (slot == Implicit ==> s'.pipe == s.pipe && s'.clients[c].hasImplicitSlot)
            && (forall token :: slot == Explicit(token) ==> s'.pipe == s.pipe + [token])
  {
    var client, slot := s.clients[c], s.clients[c].running[k];
    assert ClientOk(client) && slot in client.Held();
    hide Conserved, HeldTokens, Tokens, Implicits, Running, ClientOk;
    ClientFinishes(client, k, s.pipe);
    var r := Release(client.(running := Without(client.running, k)), s.pipe, slot);
    assert Apply(s, Finish(c, k)) == s.(pipe := r.pipe, clients := s.clients[c := r.client]);
    hide Apply;
    RunningReplaced(s.clients, c, r.client);
  }

  /** A job that turns out to be a client keeps its slot occupied and brings an implicit slot of its own. */
  lemma SpawnAddsAClient(s: System, c: nat, k: nat)
    requires c < |s.clients| && k < |s.clients[c].running|
    ensures var s' := Apply(s, Spawn(c, k));
            && s'.pipe == s.pipe && |s'.clients| == |s.clients| + 1
            && s'.clients[|s.clients|] == Client(true, [], [])
            && s'.clients[c].running == s.clients[c].running[..k] + s.clients[c].running[k + 1..]
            && s'.clients[c].hosting == s.clients[c].hosting + [s.clients[c].running[k]]
  {
  }

  lemma {:induction false} RunningWithout(cs: seq<Client>, d: nat)
    requires d < |cs|
    ensures Running(Without(cs, d)) + |cs[d].running| == Running(cs)
  {
    var left := Without(cs, d);
    if d == 0 {
      assert left == cs[1..];
    } else {
      RunningWithout(cs[1..], d - 1);
      assert left[0] == cs[0] && left[1..] == Without(cs[1..], d - 1);
    }
  }

  /**
   * A client that ends, in good order or not, is gone, and the slot it occupied is
   * one of its host's jobs again. What it held is lost, and nothing is given back.
   */
  lemma EndingFreesTheSlot(s: System, c: nat, k: nat, d: nat)
    requires c < |s.clients| && d < |s.clients| && c != d && k < |s.clients[c].hosting| && s.clients[d].hosting == []
    ensures var s', host := Apply(s, Crash(c, k, d)), s.clients[c];
            && |s'.clients| + 1 == |s.clients| && s'.pipe == s.pipe && s'.lost == s.lost + Tokens(s.clients[d].running)
            && Running(s'.clients) + |s.clients[d].running| == Running(s.clients) + 1
            && s'.clients[if c < d then c else c - 1]
            == Client(host.hasImplicitSlot, host.running + [host.hosting[k]], host.hosting[..k] + host.hosting[k + 1..])
            && (if s.clients[d].running == [] then Apply(s, Leave(c, k, d)) == s' else Apply(s, Leave(c, k, d)) == s)
  {
    var host := s.clients[c];
    var freed := host.(running := host.running + [host.hosting[k]], hosting := Without(host.hosting, k));
    var cs := s.clients[c := freed];
    RunningReplaced(s.clients, c, freed);
    RunningWithout(cs, d);
    hide Running;
    if s.clients[d].running == [] {
      assert Tokens([]) == multiset{};
      assert s.lost + multiset{} == s.lost;
    }
  }

  /** A forged token is there for the next client, behind those that wait already. */
  lemma ForgedTokensCount(s: System, token: Token)
    ensures var s' := Apply(s, Forge(token));
            s'.pipe == s.pipe + [token] && s'.forged[token] == s.forged[token] + 1 && s'.clients == s.clients && s'.lost == s.lost
  {
  }

  lemma {:induction false} SomeoneIdle(cs: seq<Client>) returns (c: nat)
    requires IdleImplicit(cs) > 0
    ensures c < |cs| && cs[c].hasImplicitSlot
  {
    if cs[0].hasImplicitSlot {
      c := 0;
    } else {
      var d := SomeoneIdle(cs[1..]);
      c := d + 1;
    }
  }

  lemma {:induction false} NobodyIdle(cs: seq<Client>, c: nat)
    requires c < |cs| && cs[c].hasImplicitSlot
    ensures IdleImplicit(cs) > 0
  {
    if c > 0 { NobodyIdle(cs[1..], c - 1); }
  }

  /** In every reachable state some client can start another job exactly if fewer jobs run than there are slots. */
  lemma NoSlotIsWasted(pipe: seq<Token>, steps: seq<Step>)
    ensures var s := Perform(Start(pipe), steps);
            (exists c: nat :: Running(Apply(s, Acquire(c)).clients) == Running(s.clients) + 1) <==>
            Running(s.clients) + |s.lost| < |pipe| + 1 + |s.forged|
  {
    hide Perform, Apply;
    var s := Perform(Start(pipe), steps);
    JobsNeverExceedSlots(pipe, steps);
    StartConserved(pipe);
    RunKeeps(Start(pipe), steps, multiset(pipe));
    assert |s.clients| > 0;
    if c: nat :| Running(Apply(s, Acquire(c)).clients) == Running(s.clients) + 1 {
      AcquiresExactlyWhen(s, c);
      if s.clients[c].hasImplicitSlot { NobodyIdle(s.clients, c); }
    }
    if Running(s.clients) + |s.lost| < |pipe| + 1 + |s.forged| {
      var c := 0;
      if s.pipe == [] { c := SomeoneIdle(s.clients); }
      AcquiresExactlyWhen(s, c);
    }
  }
}
