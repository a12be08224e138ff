/**
 * The job slot protocol between the pool of misc/jobserver_pool.py and clients
 * like the one in internal/jobserver/jobserver_posix.go, over any interleaving
 * of their steps.
 */
module Jobserver {

  /** A byte in the pipe. */
  type Token = nat

  datatype Slot = Invalid | Implicit | Explicit(token: Token)

  /** A client runs a job in each slot it holds; some of these jobs are clients themselves. */
  datatype Client = Client(hasImplicitSlot: bool, running: seq<Slot>, hosting: seq<Slot>) {
    function Held(): seq<Slot> { running + hosting }
  }

  /** The slot a client gets, its state and the pipe afterwards. */
  function TryAcquire(c: Client, pipe: seq<Token>): (Slot, Client, seq<Token>)
  {
    if c.hasImplicitSlot then (Implicit, c.(hasImplicitSlot := false), pipe)
    else if pipe != [] then (Explicit(pipe[0]), c, pipe[1..])
    else (Invalid, c, pipe)
  }

  /** Giving back a slot. `Panics` when the implicit slot is given back twice. */
  datatype Released = Released(client: Client, pipe: seq<Token>) | Panics

  function Release(c: Client, pipe: seq<Token>, slot: Slot): Released
  {
    match slot
    case Invalid => Released(c, pipe)
    case Implicit => if c.hasImplicitSlot then Panics else Released(c.(hasImplicitSlot := true), pipe)
    case Explicit(token) => Released(c, pipe + [token])
  }

  /** The pipe, the clients, tokens that went down with a client, and tokens out of nowhere. */
  datatype System = System(pipe: seq<Token>, clients: seq<Client>, lost: multiset<Token>, forged: multiset<Token>)

  datatype Step =
    | Acquire(c: nat)              // a client tries to get a slot for a job
    | Finish(c: nat, k: nat)       // its k-th job ends and the slot is released
    | Spawn(c: nat, k: nat)        // its k-th job turns out to be another client
    | Leave(c: nat, k: nat, d: nat) // client d ends in good order; the slot that hosted it is c's k-th
    | Crash(c: nat, k: nat, d: nat) // client d ends without releasing what it holds
    | Forge(token: Token)          // somebody writes a token it does not hold

  function Without<T>(s: seq<T>, k: nat): seq<T>
    requires k < |s|
  {
    s[..k] + s[k + 1..]
  }

  /** Client d may end now, and client c's k-th hosting slot gets free. */
  predicate CanEnd(s: System, c: nat, k: nat, d: nat)
  {
    && c < |s.clients| && d < |s.clients| && c != d && k < |s.clients[c].hosting|
    && s.clients[d].hosting == []
  }

  /** The clients when d has ended and its job belongs to c again. */
  function AfterEnd(s: System, c: nat, k: nat, d: nat): seq<Client>
    requires CanEnd(s, c, k, d)
  {
    var host := s.clients[c];
    var freed := host.(running := host.running + [host.hosting[k]], hosting := Without(host.hosting, k));
    Without(s.clients[c := freed], d)
  }

  /** One step; a step that is not possible changes nothing. */
  function Apply(s: System, step: Step): System
  {
    match step
    case Acquire(c) =>
      if c >= |s.clients| then s else
      var (slot, client, pipe) := TryAcquire(s.clients[c], s.pipe);
      if slot == Invalid then s
      else s.(pipe := pipe, clients := s.clients[c := client.(running := client.running + [slot])])
    case Finish(c, k) =>
      if c >= |s.clients| || k >= |s.clients[c].running| then s else
      var client := s.clients[c];
      var r := Release(client.(running := Without(client.running, k)), s.pipe, client.running[k]);
      if r.Panics? then s else s.(pipe := r.pipe, clients := s.clients[c := r.client])
    case Spawn(c, k) =>
      if c >= |s.clients| || k >= |s.clients[c].running| then s else
      var client := s.clients[c];
      var parent := client.(running := Without(client.running, k), hosting := client.hosting + [client.running[k]]);
      s.(clients := s.clients[c := parent] + [Client(true, [], [])])
    case Leave(c, k, d) =>
      if !CanEnd(s, c, k, d) || s.clients[d].running != [] then s
      else s.(clients := AfterEnd(s, c, k, d))
    case Crash(c, k, d) =>
      if !CanEnd(s, c, k, d) then s
      else s.(clients := AfterEnd(s, c, k, d), lost := s.lost + Tokens(s.clients[d].running))
    case Forge(token) => s.(pipe := s.pipe + [token], forged := s.forged + multiset{token})
  }

  function Perform(s: System, steps: seq<Step>): System
    decreases |steps|
  {
    if steps == [] then s else Perform(Apply(s, steps[0]), steps[1..])
  }

  /** The tokens among some slots. */
  function Tokens(slots: seq<Slot>): multiset<Token>
  {
    if slots == [] then multiset{}
    else (if slots[0].Explicit? then multiset{slots[0].token} else multiset{}) + Tokens(slots[1..])
  }

  function Implicits(slots: seq<Slot>): nat
  {
    if slots == [] then 0 else (if slots[0].Implicit? then 1 else 0) + Implicits(slots[1..])
  }

  /** All slots that clients hold, and the tokens among them. */
  function AllHeld(cs: seq<Client>): seq<Slot>
  {
    if cs == [] then [] else cs[0].Held() + AllHeld(cs[1..])
  }

  function HeldTokens(cs: seq<Client>): multiset<Token> { Tokens(AllHeld(cs)) }

  function Running(cs: seq<Client>): nat
  {
    if cs == [] then 0 else |cs[0].running| + Running(cs[1..])
  }

  function Hosting(cs: seq<Client>): nat
  {
    if cs == [] then 0 else |cs[0].hosting| + Hosting(cs[1..])
  }

  function IdleImplicit(cs: seq<Client>): nat
  {
    if cs == [] then 0 else (if cs[0].hasImplicitSlot then 1 else 0) + IdleImplicit(cs[1..])
  }

  /** A client's implicit slot is either idle or held, once. */
  predicate ClientOk(c: Client)
  {
    && Invalid !in c.Held()
    && Implicits(c.Held()) + (if c.hasImplicitSlot then 1 else 0) == 1
  }

  predicate ClientsOk(cs: seq<Client>) { forall i :: 0 <= i < |cs| ==> ClientOk(cs[i]) }

  /** What every step keeps: tokens are conserved, and each client but the first occupies one slot. */
  predicate Conserved(s: System, initial: multiset<Token>)
  {
    && ClientsOk(s.clients)
    && multiset(s.pipe) + HeldTokens(s.clients) + s.lost == initial + s.forged
    && Hosting(s.clients) + 1 == |s.clients|
  }
}
