/** The proxy's invoker: a slot per invocation, a client per call, both given back on
    every way out. */
module Invoker {
  import opened Automata

  const DEFAULT_PAYLOAD: nat := 0x40_0000

  /** `slots` is the capacity of the limiting channel, None without a limit. */
  datatype Config = Config(slots: Option<nat>, maxPayload: int)

  function PayloadLimit(c: Config): (r: nat)
    ensures r > 0
  {
    if c.maxPayload > 0 then c.maxPayload else DEFAULT_PAYLOAD
  }

  datatype Code = Transport | Payload | Remote

  datatype Result = Reply(bytes: seq<Byte>) | Failed(code: Code) | Panicked

  /** Where an invocation stands. Leaving, it closes its client and then frees its slot. */
  datatype Pc =
    | Entered
    | Waiting
    | Holding
    | Connected(client: nat)
    | Closing(client: nat, result: Result)
    | Releasing(result: Result)
    | Returned(result: Result)

  /** A client, by the invocation that made it, and how often it was closed. */
  datatype Client = Client(owner: nat, closes: nat)

  datatype Shared = Shared(taken: nat, clients: seq<Client>)

  datatype Answer = Replied(bytes: seq<Byte>) | CallError(code: Code) | CallPanic

  /** What the environment decides at a step: the context is done; the factory's outcome;
      the answer to the call. */
  datatype Event = Event(done: bool, factory: bool, answer: Answer)

  function Judge(c: Config, a: Answer): Result {
    match a
    case Replied(b) => if |b| > PayloadLimit(c) then Failed(Payload) else Reply(b)
    case CallError(code) => Failed(code)
    case CallPanic => Panicked
  }

  function InvokeStep(c: Config, s: Shared, i: nat, payload: seq<Byte>, pc: Pc, e: Event): (Shared, Pc) {
    match pc
    case Entered =>
      (s, if e.done then Returned(Failed(Transport))
          else if |payload| > PayloadLimit(c) then Returned(Failed(Payload))
          else if c.slots.Some? then Waiting
          else Holding)
    case Waiting =>
      if c.slots.Some? && s.taken < c.slots.value && !e.done then (s.(taken := s.taken + 1), Holding)
      else (s, if e.done then Returned(Failed(Transport)) else Waiting)
    case Holding =>
      if e.factory then (s.(clients := s.clients + [Client(i, 0)]), Connected(|s.clients|))
      else (s, Releasing(Failed(Transport)))
    case Connected(k) => (s, Closing(k, Judge(c, e.answer)))
    case Closing(k, r) =>
      (if k < |s.clients| then s.(clients := s.clients[k := s.clients[k].(closes := s.clients[k].closes + 1)]) else s,
       Releasing(r))
    case Releasing(r) =>
      (if c.slots.Some? && s.taken > 0 then s.(taken := s.taken - 1) else s, Returned(r))
    case Returned(_) => (s, pc)
  }

  // ------------------------------------------------------- every interleaving

  datatype Invocation = Invocation(payload: seq<Byte>, pc: Pc)

  datatype System = System(shared: Shared, calls: seq<Invocation>)

  datatype Action = Enter(payload: seq<Byte>) | Step(call: nat, event: Event)

  const INIT: System := System(Shared(0, []), [])

  function Do(c: Config, s: System, a: Action): System {
    match a
    case Enter(p) => s.(calls := s.calls + [Invocation(p, Entered)])
    case Step(i, e) =>
      if i >= |s.calls| then s
      else
        var (sh, pc) := InvokeStep(c, s.shared, i, s.calls[i].payload, s.calls[i].pc, e);
        System(sh, s.calls[i := s.calls[i].(pc := pc)])
  }

  function Exec(c: Config, acts: seq<Action>): System {
    if acts == [] then INIT else Do(c, Exec(c, acts[..|acts| - 1]), acts[|acts| - 1])
  }

  predicate HoldsSlot(pc: Pc) {
    pc.Holding? || HoldsClient(pc) || pc.Releasing?
  }

  predicate HoldsClient(pc: Pc) {
    pc.Connected? || pc.Closing?
  }

  function SlotHolders(calls: seq<Invocation>): nat {
    if calls == [] then 0
    else SlotHolders(calls[..|calls| - 1]) + if HoldsSlot(calls[|calls| - 1].pc) then 1 else 0
  }

  function OpenClients(clients: seq<Client>): nat {
    if clients == [] then 0
    else OpenClients(clients[..|clients| - 1]) + if clients[|clients| - 1].closes == 0 then 1 else 0
  }

  function ClientHolders(calls: seq<Invocation>): nat {
    if calls == [] then 0
    else ClientHolders(calls[..|calls| - 1]) + if HoldsClient(calls[|calls| - 1].pc) then 1 else 0
  }

  /** Slots taken are exactly the invocations between acquiring and returning, never more
      than there are. */
  predicate SlotsAccounted(c: Config, s: System) {
    c.slots.Some? ==> s.shared.taken == SlotHolders(s.calls) && s.shared.taken <= c.slots.value
  }

  /** Each client belongs to one invocation, and has been closed once if that invocation is
      past closing it, and not at all otherwise. */
  predicate ClientsAccounted(s: System) {
    && (forall k :: 0 <= k < |s.shared.clients| ==> ClientAccounted(s, k))
    && (forall i :: 0 <= i < |s.calls| ==> Owns(s, i))
  }

  predicate ClientAccounted(s: System, k: nat)
    requires k < |s.shared.clients|
  {
    var cl := s.shared.clients[k];
    && cl.owner < |s.calls|
    && cl.closes == (if HoldsClient(s.calls[cl.owner].pc) && s.calls[cl.owner].pc.client == k then 0 else 1)
    && (HoldsClient(s.calls[cl.owner].pc) || s.calls[cl.owner].pc.Releasing? || s.calls[cl.owner].pc.Returned?)
  }

  predicate Owns(s: System, i: nat)
    requires i < |s.calls|
  {
    var pc := s.calls[i].pc;
    HoldsClient(pc) ==> pc.client < |s.shared.clients| && s.shared.clients[pc.client].owner == i
  }

  lemma {:induction false} HoldersUpdate(calls: seq<Invocation>, i: nat, v: Invocation)
    requires i < |calls|
    ensures SlotHolders(calls[i := v]) - SlotHolders(calls)
            == (if HoldsSlot(v.pc) then 1 else 0) - (if HoldsSlot(calls[i].pc) then 1 else 0)
    ensures ClientHolders(calls[i := v]) - ClientHolders(calls)
            == (if HoldsClient(v.pc) then 1 else 0) - (if HoldsClient(calls[i].pc) then 1 else 0)
  {
    var n := |calls| - 1;
    if i == n {
      assert calls[i := v][..n] == calls[..n];
    } else {
      assert calls[i := v][..n] == calls[..n][i := v];
      HoldersUpdate(calls[..n], i, v);
    }
  }

  lemma {:induction false} OpenUpdate(clients: seq<Client>, k: nat, v: Client)
    requires k < |clients|
    ensures OpenClients(clients[k := v]) - OpenClients(clients)
            == (if v.closes == 0 then 1 else 0) - (if clients[k].closes == 0 then 1 else 0)
  {
    var n := |clients| - 1;
    if k == n {
      assert clients[k := v][..n] == clients[..n];
    } else {
      assert clients[k := v][..n] == clients[..n][k := v];
      OpenUpdate(clients[..n], k, v);
    }
  }

  lemma {:induction false} FewerClientsThanSlots(calls: seq<Invocation>)
    ensures ClientHolders(calls) <= SlotHolders(calls)
  {
    if calls != [] {
      FewerClientsThanSlots(calls[..|calls| - 1]);
    }
  }

  lemma {:induction false} DoKeepsSlots(c: Config, s: System, a: Action)
    requires SlotsAccounted(c, s)
    ensures SlotsAccounted(c, Do(c, s, a))
  {
    var s' := Do(c, s, a);
    if a.Enter? {
      assert s'.calls[..|s.calls|] == s.calls;
    } else if a.call < |s.calls| {
      HoldersUpdate(s.calls, a.call, s'.calls[a.call]);
    }
  }

  lemma {:induction false} DoKeepsClients(c: Config, s: System, a: Action)
    requires ClientsAccounted(s)
    ensures ClientsAccounted(Do(c, s, a))
  {
    var s' := Do(c, s, a);
    forall k | 0 <= k < |s'.shared.clients| ensures ClientAccounted(s', k) {
      if k < |s.shared.clients| {
        assert ClientAccounted(s, k);
      }
      if a.Step? && a.call < |s.calls| {
        assert Owns(s, a.call);
      }
    }
    forall i | 0 <= i < |s'.calls| ensures Owns(s', i) {
      if i < |s.calls| {
        assert Owns(s, i);
      }
    }
  }

  lemma {:induction false} DoKeepsCount(c: Config, s: System, a: Action)
    requires ClientsAccounted(s) && OpenClients(s.shared.clients) == ClientHolders(s.calls)
    ensures OpenClients(Do(c, s, a).shared.clients) == ClientHolders(Do(c, s, a).calls)
  {
    var s' := Do(c, s, a);
    if a.Enter? {
      assert s'.calls[..|s.calls|] == s.calls;
    } else if a.call < |s.calls| {
      var pc := s.calls[a.call].pc;
      HoldersUpdate(s.calls, a.call, s'.calls[a.call]);
      assert Owns(s, a.call);
      if pc.Holding? && a.event.factory {
        assert s'.shared.clients[..|s.shared.clients|] == s.shared.clients;
      } else if pc.Closing? {
        assert ClientAccounted(s, pc.client);
        OpenUpdate(s.shared.clients, pc.client, s'.shared.clients[pc.client]);
      }
    }
  }

  lemma {:induction false} Accounted(c: Config, acts: seq<Action>)
    ensures var s := Exec(c, acts);
            SlotsAccounted(c, s) && ClientsAccounted(s) && OpenClients(s.shared.clients) == ClientHolders(s.calls)
  {
    hide Do;
    if acts != [] {
      var n := |acts| - 1;
      Accounted(c, acts[..n]);
      var s := Exec(c, acts[..n]);
      DoKeepsSlots(c, s, acts[n]);
      DoKeepsClients(c, s, acts[n]);
      DoKeepsCount(c, s, acts[n]);
    }
  }

  lemma {:induction false} NoneHeld(calls: seq<Invocation>)
    requires forall i :: 0 <= i < |calls| ==> calls[i].pc.Returned?
    ensures SlotHolders(calls) == 0
  {
    if calls != [] {
      NoneHeld(calls[..|calls| - 1]);
    }
  }

  /** In every interleaving the open clients never exceed the slots held, nor those the
      limit; and no client is ever closed twice. */
  lemma {:induction false} ResourcesSafe(c: Config, acts: seq<Action>)
    ensures var s := Exec(c, acts);
            && (c.slots.Some? ==> OpenClients(s.shared.clients) <= s.shared.taken <= c.slots.value)
            && (c.slots.Some? ==> s.shared.taken == SlotHolders(s.calls))
            && (forall k :: 0 <= k < |s.shared.clients| ==> s.shared.clients[k].closes <= 1)
  {
    hide Exec, SlotHolders, ClientHolders, OpenClients;
    var s := Exec(c, acts);
    Accounted(c, acts);
    FewerClientsThanSlots(s.calls);
    forall k | 0 <= k < |s.shared.clients| ensures s.shared.clients[k].closes <= 1 {
      assert ClientAccounted(s, k);
    }
  }

  /** Once every invocation has returned, however it did, every client that was made has
      been closed exactly once and every slot is free. */
  lemma {:induction false} AllGivenBack(c: Config, acts: seq<Action>)
    requires var s := Exec(c, acts); forall i :: 0 <= i < |s.calls| ==> s.calls[i].pc.Returned?
    ensures var s := Exec(c, acts);
            && (forall k :: 0 <= k < |s.shared.clients| ==> s.shared.clients[k].closes == 1)
            && (c.slots.Some? ==> s.shared.taken == 0)
  {
    hide Exec, SlotHolders, ClientHolders, OpenClients;
    var s := Exec(c, acts);
    Accounted(c, acts);
    NoneHeld(s.calls);
    forall k | 0 <= k < |s.shared.clients| ensures s.shared.clients[k].closes == 1 {
      assert ClientAccounted(s, k);
    }
  }

  /** No payload over the limit reaches a client, and none is handed back. */
  predicate WithinLimit(c: Config, inv: Invocation) {
    && (inv.pc.Waiting? || HoldsSlot(inv.pc) ==> |inv.payload| <= PayloadLimit(c))
    && (inv.pc.Closing? || inv.pc.Releasing? || inv.pc.Returned? ==>
          inv.pc.result.Reply? ==> |inv.pc.result.bytes| <= PayloadLimit(c) && |inv.payload| <= PayloadLimit(c))
  }

  lemma {:induction false} StepWithinLimit(c: Config, s: Shared, i: nat, inv: Invocation, e: Event)
    requires WithinLimit(c, inv)
    ensures WithinLimit(c, inv.(pc := InvokeStep(c, s, i, inv.payload, inv.pc, e).1))
  {
  }

  predicate AllWithinLimit(c: Config, calls: seq<Invocation>) {
    forall i :: 0 <= i < |calls| ==> WithinLimit(c, calls[i])
  }

  lemma {:induction false} PayloadsBounded(c: Config, acts: seq<Action>)
    ensures AllWithinLimit(c, Exec(c, acts).calls)
  {
    if acts != [] {
      var front, a := acts[..|acts| - 1], acts[|acts| - 1];
      var s := Exec(c, front);
      PayloadsBounded(c, front);
      if a.Step? && a.call < |s.calls| {
        StepWithinLimit(c, s.shared, a.call, s.calls[a.call], a.event);
      }
    }
  }

  /** A payload the proxy lets pass: no longer than the limit set, or than 4 MiB if none is. */
  predicate Passes(c: Config, bytes: seq<Byte>) {
    if c.maxPayload > 0 then |bytes| <= c.maxPayload else |bytes| <= 4 * 1024 * 1024
  }

  /** What a client's answer must have been for this result to be given for it. */
  predicate AnswerGives(c: Config, a: Answer, r: Result) {
    match r
    case Reply(b) => a == Replied(b) && Passes(c, b)
    case Failed(code) => a == CallError(code) || (code == Payload && a.Replied? && !Passes(c, a.bytes))
    case Panicked => a == CallPanic
  }

  /** At its `n`-th step an invocation was given an answer by a client of its own. */
  ghost predicate AnsweredAt(c: Config, acts: seq<Action>, n: nat, i: nat, r: Result)
    requires n < |acts|
  {
    var s := Exec(c, acts[..n]);
    && acts[n].Step? && acts[n].call == i && i < |s.calls| && s.calls[i].pc.Connected?
    && s.calls[i].pc.client < |s.shared.clients| && s.shared.clients[s.calls[i].pc.client].owner == i
    && Passes(c, s.calls[i].payload) && AnswerGives(c, acts[n].event.answer, r)
  }

  /** Without an answer: the context was done, the payload too long, no slot or no client. */
  predicate Unasked(c: Config, payload: seq<Byte>, r: Result) {
    r == Failed(Transport) || (r == Failed(Payload) && !Passes(c, payload))
  }

  predicate HasResult(pc: Pc) {
    pc.Closing? || pc.Releasing? || pc.Returned?
  }

  ghost predicate Accountable(c: Config, acts: seq<Action>, i: nat)
    requires i < |Exec(c, acts).calls|
  {
    var inv := Exec(c, acts).calls[i];
    && (inv.pc.Waiting? || HoldsSlot(inv.pc) ==> HasResult(inv.pc) || Passes(c, inv.payload))
    && (HasResult(inv.pc) ==>
          Unasked(c, inv.payload, inv.pc.result)
          || exists n :: 0 <= n < |acts| && AnsweredAt(c, acts, n, i, inv.pc.result))
  }

  /** In every interleaving, whatever an invocation gives back is what one of its own client's
      answers gives, or it is a failure that came before any was asked. */
  lemma {:induction false} EveryResultAccountable(c: Config, acts: seq<Action>, i: nat)
    requires i < |Exec(c, acts).calls|
    ensures Accountable(c, acts, i)
  {
    hide AnsweredAt, AnswerGives;
    var m := |acts| - 1;
    var front, s := acts[..m], Exec(c, acts[..m]);
    if i < |s.calls| {
      EveryResultAccountable(c, front, i);
      forall n | HasResult(s.calls[i].pc) && 0 <= n < m && AnsweredAt(c, front, n, i, s.calls[i].pc.result)
        ensures AnsweredAt(c, acts, n, i, s.calls[i].pc.result)
      {
        StillAnswered(c, acts, n, i, s.calls[i].pc.result);
      }
      if acts[m].Step? && acts[m].call == i && s.calls[i].pc.Connected? {
        AnswerNow(c, acts, i);
      }
    }
  }

  lemma {:induction false} StillAnswered(c: Config, acts: seq<Action>, n: nat, i: nat, r: Result)
    requires n < |acts| - 1 && AnsweredAt(c, acts[..|acts| - 1], n, i, r)
    ensures AnsweredAt(c, acts, n, i, r)
  {
    assert acts[..|acts| - 1][..n] == acts[..n];
  }

  lemma {:induction false} AnswerNow(c: Config, acts: seq<Action>, i: nat)
    requires acts != [] && i < |Exec(c, acts[..|acts| - 1]).calls|
    requires var s := Exec(c, acts[..|acts| - 1]);
             s.calls[i].pc.Connected? && Passes(c, s.calls[i].payload)
    requires acts[|acts| - 1].Step? && acts[|acts| - 1].call == i
    ensures var pc := Exec(c, acts).calls[i].pc;
            HasResult(pc) && AnsweredAt(c, acts, |acts| - 1, i, pc.result)
  {
    hide Exec;
    var front := acts[..|acts| - 1];
    Accounted(c, front);
    assert Owns(Exec(c, front), i);
    ExecLast(c, acts);
  }

  lemma {:induction false} ExecLast(c: Config, acts: seq<Action>)
    requires acts != []
    ensures Exec(c, acts) == Do(c, Exec(c, acts[..|acts| - 1]), acts[|acts| - 1])
  {
  }

  // --------------------------------------------------------------- one invocation

  /** What an invocation that runs by itself meets. */
  datatype Script = Script(done: bool, late: bool, factory: bool, answer: Answer)

  /** It gets to ask a client: it is in time, its payload passes, and there is a slot and a
      client for it. */
  predicate Asks(c: Config, taken: nat, payload: seq<Byte>, w: Script) {
    !w.done && Passes(c, payload) && (c.slots.None? || (!w.late && taken < c.slots.value)) && w.factory
  }

  /** Exactly what its result is. */
  ghost predicate Results(c: Config, taken: nat, payload: seq<Byte>, w: Script, r: Result) {
    var asks := Asks(c, taken, payload, w);
    var tooLong := w.answer.Replied? && !Passes(c, w.answer.bytes);
    var payloadFails := if asks then w.answer == CallError(Payload) || tooLong else !w.done && !Passes(c, payload);
    var transportFails := if asks then w.answer == CallError(Transport) else w.done || Passes(c, payload);
    && (forall bytes :: r == Reply(bytes) <==> asks && w.answer == Replied(bytes) && Passes(c, bytes))
    && (r == Panicked <==> asks && w.answer == CallPanic)
    && (r == Failed(Remote) <==> asks && w.answer == CallError(Remote))
    && (r == Failed(Payload) <==> payloadFails)
    && (r == Failed(Transport) <==> transportFails)
  }

  function EventAt(pc: Pc, w: Script): Event {
    Event(if pc.Entered? then w.done else w.late, w.factory, w.answer)
  }

  /** Its outcome: exactly one of a reply, an error or a panic, decided in this order. */
  function Verdict(c: Config, taken: nat, payload: seq<Byte>, w: Script): Result {
    if w.done then Failed(Transport)
    else if |payload| > PayloadLimit(c) then Failed(Payload)
    else if c.slots.Some? && (w.late || taken >= c.slots.value) then Failed(Transport)
    else if !w.factory then Failed(Transport)
    else Judge(c, w.answer)
  }

  predicate Reaches(c: Config, taken: nat, payload: seq<Byte>, w: Script) {
    !w.done && |payload| <= PayloadLimit(c) && (c.slots.None? || (!w.late && taken < c.slots.value)) && w.factory
  }

  lemma {:induction false} VerdictResults(c: Config, taken: nat, payload: seq<Byte>, w: Script)
    ensures Results(c, taken, payload, w, Verdict(c, taken, payload, w))
    ensures Reaches(c, taken, payload, w) <==> Asks(c, taken, payload, w)
  {
  }

  class RPCInvoker {
    const config: Config
    var taken: nat
    var clients: seq<Client>

    function State(): Shared
      reads this
    {
      Shared(taken, clients)
    }

    constructor (config: Config)
      ensures this.config == config && State() == INIT.shared
    {
      this.config, taken, clients := config, 0, [];
    }

    /** Blocked at a full limiter, an invocation waits until its context is done. */
    method Invoke(payload: seq<Byte>, w: Script, i: nat) returns (result: Result)
      modifies this
      ensures result == Verdict(config, old(taken), payload, w)
      ensures Results(config, old(taken), payload, w, result)
      ensures taken == old(taken)
      ensures clients == old(clients) + if Asks(config, old(taken), payload, w) then [Client(i, 1)] else []
    {
      hide Results, Judge;
      VerdictResults(config, taken, payload, w);
      if w.done {
        return Failed(Transport);
      }
      if |payload| > PayloadLimit(config) {
        return Failed(Payload);
      }
      if config.slots.Some? {
        if w.late || taken >= config.slots.value {
          return Failed(Transport);
        }
        taken := taken + 1;
      }
      if !w.factory {
        result := Failed(Transport);
      } else {
        var k := |clients|;
        clients := clients + [Client(i, 0)];
        result := Judge(config, w.answer);
        clients := clients[k := Client(i, 1)];
      }
      if config.slots.Some? {
        taken := taken - 1;
      }
    }
  }

  /** An invocation with no other one beside it, step after step. */
  function Alone(c: Config, s: Shared, i: nat, payload: seq<Byte>, pc: Pc, w: Script, steps: nat): (Shared, Pc)
    decreases steps
  {
    if steps == 0 then (s, pc)
    else
      var (s', pc') := InvokeStep(c, s, i, payload, pc, EventAt(pc, w));
      Alone(c, s', i, payload, pc', w, steps - 1)
  }

  lemma {:induction false} AloneGoes(c: Config, s: Shared, i: nat, payload: seq<Byte>, pc: Pc, w: Script, steps: nat)
    requires steps > 0
    ensures var next := InvokeStep(c, s, i, payload, pc, EventAt(pc, w));
            Alone(c, s, i, payload, pc, w, steps) == Alone(c, next.0, i, payload, next.1, w, steps - 1)
  {
  }

  lemma {:induction false} AloneReturned(c: Config, s: Shared, i: nat, payload: seq<Byte>, r: Result, w: Script,
                                         steps: nat)
    ensures Alone(c, s, i, payload, Returned(r), w, steps) == (s, Returned(r))
  {
    if steps > 0 {
      AloneReturned(c, s, i, payload, r, w, steps - 1);
    }
  }

  lemma {:induction false} FromHolding(c: Config, s: Shared, i: nat, payload: seq<Byte>, w: Script, steps: nat)
    requires steps >= 4 && (c.slots.Some? ==> s.taken > 0)
    ensures Alone(c, s, i, payload, Holding, w, steps)
            == (Shared(s.taken - (if c.slots.Some? then 1 else 0),
                       s.clients + if w.factory then [Client(i, 1)] else []),
                Returned(if w.factory then Judge(c, w.answer) else Failed(Transport)))
  {
    hide Alone, Judge;
    var r := Judge(c, w.answer);
    var k, made := |s.clients|, s.(clients := s.clients + [Client(i, 0)]);
    var closed := s.(clients := s.clients + [Client(i, 1)]);
    assert made.clients[k := Client(i, 1)] == closed.clients;
    AloneGoes(c, s, i, payload, Holding, w, steps);
    if w.factory {
      AloneGoes(c, made, i, payload, Connected(k), w, steps - 1);
      AloneGoes(c, made, i, payload, Closing(k, r), w, steps - 2);
      AloneGoes(c, closed, i, payload, Releasing(r), w, steps - 3);
      var freed := InvokeStep(c, closed, i, payload, Releasing(r), EventAt(Releasing(r), w)).0;
      AloneReturned(c, freed, i, payload, r, w, steps - 4);
    } else {
      var no := Failed(Transport);
      AloneGoes(c, s, i, payload, Releasing(no), w, steps - 1);
      var freed := InvokeStep(c, s, i, payload, Releasing(no), EventAt(Releasing(no), w)).0;
      AloneReturned(c, freed, i, payload, no, w, steps - 2);
      assert s.clients + [] == s.clients;
    }
  }

  /** What the method does is a run of those steps, unless the limiter is full and the
      context never done: then the invocation waits. */
  lemma {:induction false} InvokeIsARun(c: Config, s: Shared, i: nat, payload: seq<Byte>, w: Script)
    requires c.slots.None? || w.late || s.taken < c.slots.value
    ensures Alone(c, s, i, payload, Entered, w, 6)
            == (Shared(s.taken, s.clients + if Reaches(c, s.taken, payload, w) then [Client(i, 1)] else []),
                Returned(Verdict(c, s.taken, payload, w)))
    ensures Results(c, s.taken, payload, w, Verdict(c, s.taken, payload, w))
  {
    VerdictResults(c, s.taken, payload, w);
    hide Alone, Judge, Results;
    var pc := InvokeStep(c, s, i, payload, Entered, EventAt(Entered, w)).1;
    AloneGoes(c, s, i, payload, Entered, w, 6);
    assert s.clients + [] == s.clients;
    if pc.Returned? {
      AloneReturned(c, s, i, payload, pc.result, w, 5);
    } else if pc.Waiting? {
      AloneGoes(c, s, i, payload, Waiting, w, 5);
      if w.late {
        AloneReturned(c, s, i, payload, Failed(Transport), w, 4);
      } else {
        FromHolding(c, s.(taken := s.taken + 1), i, payload, w, 4);
      }
    } else {
      FromHolding(c, s, i, payload, w, 5);
    }
  }
}
