/** The v3 client: one cached connection, a sticky fallback to the legacy transport, and
    calls that interleave in lock-protected steps. */
module Client {
  import opened Automata

  datatype Transport = Auto | Json | Legacy

  /** An error, as the client can tell errors apart. */
  datatype Error = Error(server: bool, net: bool, shutdown: bool, eof: bool, cut: bool)

  predicate IsConnError(e: Error) {
    !e.server && (e.net || e.shutdown || e.eof || e.cut)
  }

  datatype Answer = Answered | Erred(error: Error)

  /** A connection that was dialled. */
  datatype Conn = Conn(kind: Transport, open: bool)

  /** What the client's mutex protects, and every connection it has dialled. */
  datatype Shared = Shared(transport: Transport, cl: Option<nat>, active: Transport, fallback: bool, conns: seq<Conn>)

  function Effective(transport: Transport, fallback: bool): Transport {
    match transport
    case Json => Json
    case Legacy => Legacy
    case Auto => if fallback then Legacy else Json
  }

  /** The cached connection or a new one; None if dialling or building the codec fails. */
  function Get(s: Shared, dial: bool): (Shared, Option<nat>) {
    if s.cl.Some? then (s, s.cl)
    else if !dial then (s, None)
    else
      var kind := Effective(s.transport, s.fallback);
      var k := |s.conns|;
      (s.(cl := Some(k), active := kind, conns := s.conns + [Conn(kind, true)]), Some(k))
  }

  /** Closes and forgets whatever is cached. */
  function Drop(s: Shared): Shared {
    if s.cl.Some? && s.cl.value < |s.conns|
    then s.(cl := None, conns := s.conns[s.cl.value := s.conns[s.cl.value].(open := false)])
    else s.(cl := None)
  }

  /** After a connection error: the bit is set, and the first to set it on a JSON
      connection of an auto client is to try again. */
  function Decide(s: Shared): (Shared, bool) {
    (s.(fallback := true), s.transport == Auto && s.active == Json && !s.fallback)
  }

  // ------------------------------------------------------ one call, step by step

  datatype Pc =
    | Ready
    | Calling(conn: nat)
    | Failed(connError: bool)
    | Dropped
    | Again
    | Recalling(conn: nat)
    | Refailed
    | Over(ok: bool)

  /** What the environment decides at a step: whether the context is done, whether a dial
      works, and the answer to a remote call. */
  datatype Event = Event(done: bool, dial: bool, answer: Answer)

  function CallStep(s: Shared, pc: Pc, e: Event): (Shared, Pc) {
    match pc
    case Ready =>
      if e.done then (s, Over(false))
      else
        var (s', k) := Get(s, e.dial);
        (s', if k.Some? then Calling(k.value) else Over(false))
    case Calling(_) =>
      (s, if e.answer.Answered? then Over(!e.done) else Failed(IsConnError(e.answer.error)))
    case Failed(connError) => (Drop(s), if connError then Dropped else Over(false))
    case Dropped =>
      var (s', retry) := Decide(s);
      (s', if retry then Again else Over(false))
    case Again =>
      var (s', k) := Get(s, e.dial);
      (s', if k.Some? then Recalling(k.value) else Over(false))
    case Recalling(_) => (s, if e.answer.Answered? then Over(!e.done) else Refailed)
    case Refailed => (Drop(s), Over(false))
    case Over(_) => (s, pc)
  }

  // ------------------------------------------------------- every interleaving

  /** All calls made so far, wherever each of them stands, and how many have retried. */
  datatype System = System(shared: Shared, pcs: seq<Pc>, retries: nat)

  datatype Action = Enter | Step(call: nat, event: Event) | Close

  function Init(transport: Transport): System {
    System(Shared(transport, None, Auto, false, []), [], 0)
  }

  function Do(s: System, a: Action): System {
    match a
    case Enter => s.(pcs := s.pcs + [Ready])
    case Close => s.(shared := Drop(s.shared))
    case Step(i, e) =>
      if i >= |s.pcs| then s
      else
        var (sh, pc) := CallStep(s.shared, s.pcs[i], e);
        System(sh, s.pcs[i := pc], s.retries + if s.pcs[i].Dropped? && pc.Again? then 1 else 0)
  }

  function Exec(s: System, acts: seq<Action>): System {
    if acts == [] then s else Do(Exec(s, acts[..|acts| - 1]), acts[|acts| - 1])
  }

  // -------------------------------------------------------------- the invariant

  /** At most one connection is open and it is the cached one; the active transport names
      it; a client pinned to JSON dials JSON and one pinned to legacy dials legacy, and an
      auto client dials JSON or legacy, but nothing but JSON before the bit is set. */
  predicate Sound(s: Shared) {
    && (s.cl.Some? ==> s.cl.value < |s.conns| && s.active == s.conns[s.cl.value].kind)
    && (forall k :: 0 <= k < |s.conns| ==> (s.conns[k].open <==> s.cl == Some(k)))
    && (forall k :: 0 <= k < |s.conns| ==> s.conns[k].kind == Json || s.conns[k].kind == Legacy)
    && (s.transport == Json ==> AllOf(s.conns, Json))
    && (s.transport == Legacy ==> AllOf(s.conns, Legacy))
    && (s.transport == Auto && !s.fallback ==> AllOf(s.conns, Json))
  }

  predicate AllOf(conns: seq<Conn>, kind: Transport) {
    forall k :: 0 <= k < |conns| ==> conns[k].kind == kind
  }

  predicate InRetry(pc: Pc) {
    pc.Again? || pc.Recalling? || pc.Refailed?
  }

  /** At most one retry ever, and only one call in it. */
  predicate OneRetry(s: System) {
    && s.retries <= 1
    && (s.retries == 1 ==> s.shared.fallback && s.shared.transport == Auto)
    && (forall i :: 0 <= i < |s.pcs| && InRetry(s.pcs[i]) ==> s.retries == 1)
    && (forall i, j :: 0 <= i < |s.pcs| && 0 <= j < |s.pcs| && InRetry(s.pcs[i]) && InRetry(s.pcs[j]) ==> i == j)
  }

  lemma {:induction false} GetSound(s: Shared, dial: bool)
    requires Sound(s)
    ensures Sound(Get(s, dial).0)
  {
  }

  lemma {:induction false} DropSound(s: Shared)
    requires Sound(s)
    ensures Sound(Drop(s)) && Drop(s).cl.None?
  {
  }

  lemma {:induction false} DecideSound(s: Shared)
    requires Sound(s)
    ensures Sound(Decide(s).0)
  {
  }

  lemma {:induction false} CallStepSound(s: Shared, pc: Pc, e: Event)
    requires Sound(s)
    ensures Sound(CallStep(s, pc, e).0)
  {
    hide Sound, Get, Drop, Decide;
    GetSound(s, e.dial);
    DropSound(s);
    DecideSound(s);
  }

  lemma {:induction false} DoSound(s: System, a: Action)
    requires Sound(s.shared)
    ensures Sound(Do(s, a).shared)
  {
    hide Sound;
    if a.Step? && a.call < |s.pcs| {
      CallStepSound(s.shared, s.pcs[a.call], a.event);
    } else {
      DropSound(s.shared);
    }
  }

  lemma {:induction false} DoOneRetry(s: System, a: Action)
    requires OneRetry(s)
    ensures OneRetry(Do(s, a))
  {
  }

  /** Safety over every interleaving of calls and closes. */
  lemma {:induction false} Safety(transport: Transport, acts: seq<Action>)
    ensures var s := Exec(Init(transport), acts);
            Sound(s.shared) && OneRetry(s) && s.shared.transport == transport
  {
    if acts != [] {
      var before := Exec(Init(transport), acts[..|acts| - 1]);
      Safety(transport, acts[..|acts| - 1]);
      DoSound(before, acts[|acts| - 1]);
      DoOneRetry(before, acts[|acts| - 1]);
    }
  }

  /** So whatever the interleaving, what a client was set to is what it dials. */
  lemma {:induction false} DialsAsSet(acts: seq<Action>)
    ensures AllOf(Exec(Init(Json), acts).shared.conns, Json)
    ensures AllOf(Exec(Init(Legacy), acts).shared.conns, Legacy)
    ensures var s := Exec(Init(Auto), acts).shared; !s.fallback ==> AllOf(s.conns, Json)
  {
    hide Exec;
    Safety(Json, acts);
    Safety(Legacy, acts);
    Safety(Auto, acts);
  }

  /** What no step undoes: the bit stays set, connections are never forgotten or changed
      in kind, and after the bit an auto client dials nothing but legacy. */
  predicate Grown(s: Shared, s': Shared) {
    && s'.transport == s.transport && (s.fallback ==> s'.fallback)
    && |s.conns| <= |s'.conns|
    && (forall k :: 0 <= k < |s.conns| ==> s'.conns[k].kind == s.conns[k].kind)
    && (s.transport == Auto && s.fallback ==>
          forall k :: |s.conns| <= k < |s'.conns| ==> s'.conns[k].kind == Legacy)
  }

  lemma {:induction false} DoGrows(s: System, a: Action)
    ensures Grown(s.shared, Do(s, a).shared)
  {
  }

  lemma {:induction false} LegacyEverAfter(s: System, acts: seq<Action>)
    ensures Grown(s.shared, Exec(s, acts).shared)
  {
    hide Do;
    if acts != [] {
      LegacyEverAfter(s, acts[..|acts| - 1]);
      DoGrows(Exec(s, acts[..|acts| - 1]), acts[|acts| - 1]);
    }
  }

  // ----------------------------------------------------- where a retry may run

  /** Call `i` is past its decision to retry, and only a legacy connection is in its way. */
  predicate RetriesOnLegacy(s: System, i: nat) {
    && Sound(s.shared) && s.shared.transport == Auto && s.shared.fallback && i < |s.pcs|
    && match s.pcs[i]
       case Again => s.shared.cl.Some? ==> s.shared.active == Legacy
       case Recalling(k) => k < |s.shared.conns| && s.shared.conns[k].kind == Legacy
       case Refailed => true
       case Over(_) => true
       case _ => false
  }

  lemma {:induction false} RetriesOnLegacyKept(s: System, i: nat, a: Action)
    requires RetriesOnLegacy(s, i)
    ensures RetriesOnLegacy(Do(s, a), i)
  {
    DoSound(s, a);
    DoGrows(s, a);
  }

  lemma {:induction false} RetriesOnLegacyAlways(s: System, i: nat, acts: seq<Action>)
    requires RetriesOnLegacy(s, i)
    ensures RetriesOnLegacy(Exec(s, acts), i)
  {
    hide Do, RetriesOnLegacy;
    if acts != [] {
      RetriesOnLegacyAlways(s, i, acts[..|acts| - 1]);
      RetriesOnLegacyKept(Exec(s, acts[..|acts| - 1]), i, acts[|acts| - 1]);
    }
  }

  /** Call `i` is about to decide, and will retry. */
  predicate WillRetry(s: System, i: nat) {
    && Sound(s.shared) && i < |s.pcs| && s.pcs[i].Dropped?
    && s.shared.transport == Auto && s.shared.active == Json && !s.shared.fallback
  }

  /** Wherever the retry of call `i` may yet run, it is a legacy connection. */
  ghost predicate OnlyLegacyAwaits(s: System, i: nat) {
    forall acts :: RecallsLegacy(Exec(s, acts), i)
  }

  predicate RecallsLegacy(s: System, i: nat) {
    i < |s.pcs| && s.pcs[i].Recalling? ==>
      s.pcs[i].conn < |s.shared.conns| && s.shared.conns[s.pcs[i].conn].kind == Legacy
  }

  /** A retry is sure to run on a legacy connection exactly when no other call has cached
      a connection between this call's invalidation and its decision.  If one has, that
      connection is JSON, and the retry may run on it. */
  lemma {:induction false} RetryOnLegacyIff(s: System, i: nat, e: Event)
    requires WillRetry(s, i)
    ensures OnlyLegacyAwaits(Do(s, Step(i, e)), i) <==> s.shared.cl.None?
  {
    var s' := Do(s, Step(i, e));
    if s.shared.cl.None? {
      DoSound(s, Step(i, e));
      forall acts ensures RecallsLegacy(Exec(s', acts), i) {
        RetriesOnLegacyAlways(s', i, acts);
      }
    } else {
      var act := Step(i, e);
      assert [act][..0] == [];
      assert Exec(s', [act]) == Do(s', act);
      assert !RecallsLegacy(Exec(s', [act]), i);
    }
  }

  lemma {:induction false} ExecSnoc(s: System, acts: seq<Action>, a: Action)
    ensures Exec(s, acts + [a]) == Do(Exec(s, acts), a)
  {
    assert (acts + [a])[..|acts|] == acts;
  }

  /** Such an interleaving exists: a second call dials JSON while the first is between its
      two steps, and the first call's retry goes to that JSON connection. */
  lemma {:induction false} RetryOnJson(eof: Error)
    requires !eof.server && (eof.net || eof.shutdown || eof.eof || eof.cut)
    ensures exists acts, i: nat, k: nat ::
              var s := Exec(Init(Auto), acts);
              && i < |s.pcs| && s.pcs[i] == Recalling(k) && k < |s.shared.conns| && s.shared.conns[k].kind == Json
  {
    var go, fail := Event(false, true, Answered), Event(false, true, Erred(eof));
    var s0 := Init(Auto);
    var acts := [];
    acts := Then(acts, Enter);
    acts := Then(acts, Enter);
    acts := Then(acts, Step(0, go));
    acts := Then(acts, Step(0, fail));
    acts := Then(acts, Step(0, go));
    acts := Then(acts, Step(1, go));
    acts := Then(acts, Step(0, go));
    acts := Then(acts, Step(0, go));
    var s := Exec(Init(Auto), acts);
    assert s.pcs[0] == Recalling(1);
  }

  /** Extending a run by one action. */
  lemma {:induction false} Then(acts: seq<Action>, a: Action) returns (more: seq<Action>)
    ensures more == acts + [a]
    ensures forall s :: Exec(s, more) == Do(Exec(s, acts), a)
  {
    more := acts + [a];
    forall s ensures Exec(s, more) == Do(Exec(s, acts), a) {
      ExecSnoc(s, acts, a);
    }
  }

  /** A close that overtakes a call in flight is taken for a failed JSON transport: with no
      call made after the close, the bit is set and the client holds an open connection. */
  lemma {:induction false} CloseDuringCall()
    ensures exists before, after ::
              && Enter !in after
              && var s := Exec(Init(Auto), before + [Close] + after).shared;
                 s.fallback && s.cl.Some? && s.cl.value < |s.conns| && s.conns[s.cl.value].open
  {
    var go := Event(false, true, Answered);
    var down := Event(false, true, Erred(Error(false, false, true, false, false)));
    var acts := [];
    acts := Then(acts, Enter);
    acts := Then(acts, Step(0, go));
    acts := Then(acts, Close);
    acts := Then(acts, Step(0, down));
    acts := Then(acts, Step(0, go));
    acts := Then(acts, Step(0, go));
    acts := Then(acts, Step(0, go));
    var before, after := acts[..2], acts[3..];
    var s := Exec(Init(Auto), acts).shared;
    assert s.fallback && s.cl == Some(1) && s.conns[1].open;
    assert acts == before + [Close] + after && Enter !in after;
    assert s == Exec(Init(Auto), before + [Close] + after).shared;
  }

  // ------------------------------------------------------ what a close leaves behind

  /** Call `i` may yet dial a connection. */
  predicate MayDial(s: System, i: nat)
    requires i < |s.pcs|
  {
    match s.pcs[i]
    case Ready => true
    case Again => true
    case Calling(_) => Falls(s.shared)
    case Failed(connError) => connError && Falls(s.shared)
    case Dropped => Falls(s.shared)
    case _ => false
  }

  /** The next connection error makes a call fall back. */
  predicate Falls(s: Shared) {
    s.transport == Auto && s.active == Json && !s.fallback
  }

  /** Call `i` may yet set the bit. */
  predicate MaySet(s: System, i: nat)
    requires i < |s.pcs|
  {
    s.pcs[i].Ready? || s.pcs[i].Calling? || s.pcs[i] == Failed(true) || s.pcs[i].Dropped?
  }

  /** Without a new call, whatever the calls under way do, nothing is cached. */
  ghost predicate StaysClosed(s: System) {
    forall acts :: Enter !in acts ==> Exec(s, acts).shared.cl.None?
  }

  ghost predicate StaysUnset(s: System) {
    forall acts :: Enter !in acts ==> !Exec(s, acts).shared.fallback
  }

  predicate NoneDials(s: System) {
    s.shared.cl.None? && forall i :: 0 <= i < |s.pcs| ==> !MayDial(s, i)
  }

  predicate NoneSets(s: System) {
    !s.shared.fallback && forall i :: 0 <= i < |s.pcs| ==> !MaySet(s, i)
  }

  lemma {:induction false} DoKeepsUndialled(s: System, a: Action)
    requires a != Enter && NoneDials(s)
    ensures NoneDials(Do(s, a))
  {
    var s' := Do(s, a);
    assert a.Step? && a.call < |s.pcs| ==> !MayDial(s, a.call);
    forall i | 0 <= i < |s'.pcs| ensures !MayDial(s', i) {
      assert !MayDial(s, i);
    }
  }

  lemma {:induction false} DoKeepsUnset(s: System, a: Action)
    requires a != Enter && NoneSets(s)
    ensures NoneSets(Do(s, a))
  {
    var s' := Do(s, a);
    assert a.Step? && a.call < |s.pcs| ==> !MaySet(s, a.call);
    forall i | 0 <= i < |s'.pcs| ensures !MaySet(s', i) {
      assert !MaySet(s, i);
    }
  }

  lemma {:induction false} QuietStays(s: System, acts: seq<Action>)
    requires Enter !in acts
    ensures NoneDials(s) ==> NoneDials(Exec(s, acts))
    ensures NoneSets(s) ==> NoneSets(Exec(s, acts))
  {
    hide Do, NoneDials, NoneSets;
    if acts != [] {
      QuietStays(s, acts[..|acts| - 1]);
      var mid := Exec(s, acts[..|acts| - 1]);
      if NoneDials(mid) {
        DoKeepsUndialled(mid, acts[|acts| - 1]);
      }
      if NoneSets(mid) {
        DoKeepsUnset(mid, acts[|acts| - 1]);
      }
    }
  }

  const GO: Event := Event(false, true, Answered)
  const DOWN: Event := Event(false, true, Erred(Error(false, false, true, false, false)))

  /** A call that may dial does, if its connection fails and the next can be dialled. */
  lemma {:induction false} Dials(s: System, i: nat) returns (acts: seq<Action>)
    requires i < |s.pcs| && MayDial(s, i) && s.shared.cl.None?
    ensures Enter !in acts && Exec(s, acts).shared.cl.Some?
    decreases StepsLeft(s.pcs[i])
  {
    var a := Step(i, if s.pcs[i].Calling? then DOWN else GO);
    var s' := Do(s, a);
    if s.pcs[i].Ready? || s.pcs[i].Again? {
      acts := [a];
      ExecCons(s, a, []);
      assert [a] + [] == [a];
    } else {
      var more := Dials(s', i);
      ExecCons(s, a, more);
      acts := [a] + more;
    }
  }

  lemma {:induction false} Sets(s: System, i: nat) returns (acts: seq<Action>)
    requires i < |s.pcs| && MaySet(s, i)
    ensures Enter !in acts && Exec(s, acts).shared.fallback
    decreases StepsLeft(s.pcs[i])
  {
    var a := Step(i, if s.pcs[i].Calling? then DOWN else GO);
    var s' := Do(s, a);
    if s.pcs[i].Dropped? {
      acts := [a];
      ExecCons(s, a, []);
      assert [a] + [] == [a];
    } else {
      var more := Sets(s', i);
      ExecCons(s, a, more);
      acts := [a] + more;
    }
  }

  /** A close leaves the client closed, until the next call is made, exactly if no call under
      way has still to dial: none is before its first step or about to retry, and none can
      fall back. It leaves the bit as it was exactly if none can come to a decision. */
  lemma {:induction false} CloseIsFinalIff(s: System)
    ensures var s' := Do(s, Close);
            && (StaysClosed(s') <==> forall i :: 0 <= i < |s.pcs| ==> !MayDial(s', i))
            && (StaysUnset(s') <==> !s'.shared.fallback && forall i :: 0 <= i < |s.pcs| ==> !MaySet(s', i))
  {
    var s' := Do(s, Close);
    forall acts | Enter !in acts
      ensures NoneDials(s') ==> Exec(s', acts).shared.cl.None?
      ensures NoneSets(s') ==> !Exec(s', acts).shared.fallback
    {
      QuietStays(s', acts);
    }
    if i :| 0 <= i < |s.pcs| && MayDial(s', i) {
      var acts := Dials(s', i);
    }
    if s'.shared.fallback {
      assert Exec(s', []).shared.fallback;
    }
    if i :| 0 <= i < |s.pcs| && MaySet(s', i) {
      var acts := Sets(s', i);
    }
  }

  // ------------------------------------------------- the client, one call at a time

  /** What one call meets: whether the context is done before or after, whether dialling
      works, and how a server answers on a connection of each kind; then the same for a
      second attempt. */
  datatype Script = Script(done: bool, dial: bool, answer: Transport -> Answer, late: bool,
                           redial: bool, reanswer: Transport -> Answer, relate: bool)

  /** A remote attempt: on which connection, and what came of it. */
  datatype Attempt = Attempt(conn: nat, kind: Transport, answer: Answer)

  predicate ConnFailed(a: Attempt) {
    a.answer.Erred? && IsConnError(a.answer.error)
  }

  /** The attempt a call makes at a step, if it makes one there. */
  function AttemptAt(s: Shared, pc: Pc, w: Script): seq<Attempt> {
    match pc
    case Calling(k) => if k < |s.conns| then [Attempt(k, s.conns[k].kind, w.answer(s.conns[k].kind))] else []
    case Recalling(k) => if k < |s.conns| then [Attempt(k, s.conns[k].kind, w.reanswer(s.conns[k].kind))] else []
    case _ => []
  }

  function EventAt(s: Shared, pc: Pc, w: Script): Event {
    var a := AttemptAt(s, pc, w);
    Event(if pc.Ready? then w.done else if pc.Calling? then w.late else w.relate,
          if pc.Ready? then w.dial else w.redial,
          if a == [] then Answered else a[0].answer)
  }

  function StepsLeft(pc: Pc): nat {
    match pc
    case Ready => 7
    case Calling(_) => 6
    case Failed(_) => 5
    case Dropped => 4
    case Again => 3
    case Recalling(_) => 2
    case Refailed => 1
    case Over(_) => 0
  }

  datatype Outcome = Outcome(shared: Shared, ok: bool, attempts: seq<Attempt>)

  /** A call that no other call overlaps: the steps of the interleaved client, one after
      another. */
  function Alone(s: Shared, pc: Pc, w: Script): Outcome
    decreases StepsLeft(pc)
  {
    if pc.Over? then Outcome(s, pc.ok, [])
    else
      var (s', pc') := CallStep(s, pc, EventAt(s, pc, w));
      var more := Alone(s', pc', w);
      Outcome(more.shared, more.ok, AttemptAt(s, pc, w) + more.attempts)
  }

  lemma {:induction false} AloneGoes(s: Shared, pc: Pc, w: Script)
    ensures pc.Over? ==> Alone(s, pc, w) == Outcome(s, pc.ok, [])
    ensures !pc.Over? ==>
      var next := CallStep(s, pc, EventAt(s, pc, w));
      var more := Alone(next.0, next.1, w);
      Alone(s, pc, w) == Outcome(more.shared, more.ok, AttemptAt(s, pc, w) + more.attempts)
  {
  }

  lemma {:induction false} ExecCons(s: System, a: Action, acts: seq<Action>)
    ensures Exec(s, [a] + acts) == Exec(Do(s, a), acts)
  {
    if acts == [] {
      assert [a] + acts == [a] && [a][..0] == [];
    } else {
      var n := |acts| - 1;
      assert ([a] + acts)[..n + 1] == [a] + acts[..n];
      ExecCons(s, a, acts[..n]);
    }
  }

  /** It is one of the interleaved client's runs. */
  lemma {:induction false} AloneIsARun(s: System, i: nat, w: Script) returns (acts: seq<Action>)
    requires i < |s.pcs|
    ensures var s', r := Exec(s, acts), Alone(s.shared, s.pcs[i], w);
            s'.shared == r.shared && i < |s'.pcs| && s'.pcs[i] == Over(r.ok)
    decreases StepsLeft(s.pcs[i])
  {
    acts := [];
    if !s.pcs[i].Over? {
      var a := Step(i, EventAt(s.shared, s.pcs[i], w));
      hide EventAt, AttemptAt, Get, Drop, Decide;
      acts := AloneIsARun(Do(s, a), i, w);
      ExecCons(s, a, acts);
      acts := [a] + acts;
    }
  }

  /** From the second attempt on. */
  lemma {:induction false} SecondAttempt(s: Shared, w: Script)
    requires Sound(s) && s.cl.None? && s.transport == Auto && s.fallback
    ensures var r := Alone(s, Again, w);
            && Sound(r.shared) && r.shared.fallback && r.shared.transport == Auto && |r.attempts| <= 1
            && (|r.attempts| == 1 <==> w.redial)
            && (r.attempts == [] ==> !r.ok && r.shared == s)
            && (r.attempts != [] ==> r.attempts[0] == Attempt(|s.conns|, Legacy, w.reanswer(Legacy)))
            && r.shared.cl == (if r.attempts != [] && r.attempts[0].answer.Answered? then Some(|s.conns|) else None)
            && (r.ok <==> r.attempts != [] && r.attempts[0].answer.Answered? && !w.relate)
  {
    GetSound(s, w.redial);
    var (s', k) := Get(s, w.redial);
    DropSound(s');
  }

  /** From the first answer on. */
  lemma {:induction false} FirstAnswer(s: Shared, k: nat, w: Script)
    requires Sound(s) && s.cl == Some(k)
    ensures var a := Attempt(k, s.conns[k].kind, w.answer(s.conns[k].kind));
            Alone(s, Calling(k), w) ==
              if a.answer.Answered? then Outcome(s, !w.late, [a])
              else if !IsConnError(a.answer.error) then Outcome(Drop(s), false, [a])
              else
                var (s', retry) := Decide(Drop(s));
                if !retry then Outcome(s', false, [a])
                else
                  var more := Alone(s', Again, w);
                  Outcome(more.shared, more.ok, [a] + more.attempts)
  {
    hide Alone, Drop, Decide, Get;
    var kind := s.conns[k].kind;
    AloneGoes(s, Calling(k), w);
    AloneGoes(s, Over(!w.late), w);
    if w.answer(kind).Erred? {
      AloneGoes(s, Failed(IsConnError(w.answer(kind).error)), w);
      AloneGoes(Drop(s), Over(false), w);
      AloneGoes(Drop(s), Dropped, w);
      AloneGoes(Decide(Drop(s)).0, Over(false), w);
    }
  }

  lemma {:induction false} CallFromReady(s: Shared, w: Script)
    requires Sound(s)
    ensures var r := Alone(s, Ready, w);
            var (s', k) := Get(s, w.dial);
            && (w.done || k.None? ==> r == Outcome(s, false, []))
            && (!w.done && k.Some? ==>
                  && Sound(s') && s'.cl == k && k.value < |s'.conns| && r == Alone(s', Calling(k.value), w))
  {
  }

  lemma {:induction false} AfterDial(s: Shared, k: nat, w: Script)
    requires Sound(s) && s.cl == Some(k) && k < |s.conns|
    ensures var r := Alone(s, Calling(k), w);
            && 1 <= |r.attempts| <= 2 && r.attempts[0] == Attempt(k, s.conns[k].kind, w.answer(s.conns[k].kind))
            && (|r.attempts| == 2 <==>
                  && s.conns[k].kind == Json && ConnFailed(r.attempts[0])
                  && s.transport == Auto && !s.fallback && w.redial)
            && (|r.attempts| == 2 ==>
                  r.attempts[1] == Attempt(|s.conns|, Legacy, w.reanswer(Legacy)) && r.shared.fallback)
            && Sound(r.shared)
            && (var last := r.attempts[|r.attempts| - 1];
                && r.shared.cl == (if last.answer.Answered? then Some(last.conn) else None)
                && (r.ok <==> last.answer.Answered? && !(if |r.attempts| == 1 then w.late else w.relate)))
  {
    hide Alone;
    FirstAnswer(s, k, w);
    DropSound(s);
    var (s', retry) := Decide(Drop(s));
    DecideSound(Drop(s));
    if w.answer(s.conns[k].kind).Erred? && retry {
      SecondAttempt(s', w);
    }
  }

  /** An attempt failed with an error that is no server's and says that the connection is shut,
      has ended, was cut, or failed in the network. */
  predicate LostConnection(a: Attempt) {
    a.answer.Erred? && var e := a.answer.error; !e.server && (e.net || e.shutdown || e.eof || e.cut)
  }

  /** The kind of connection a client in this state dials. */
  predicate WouldDial(s: Shared, kind: Transport) {
    kind == if s.transport == Json || (s.transport == Auto && !s.fallback) then Json else Legacy
  }

  /** A call that no other call overlaps makes at most two attempts: the first, unless its
      context is done or it cannot dial, on the cached connection or one of the kind the client
      is set to; the second only after a connection error on JSON, at most once in an auto
      client's life, and always on a legacy connection dialled for it. */
  lemma {:induction false} AtMostTwoAttempts(s: Shared, w: Script)
    requires Sound(s)
    ensures var r := Alone(s, Ready, w);
            && |r.attempts| <= 2
            && (r.attempts == [] <==> w.done || (s.cl.None? && !w.dial))
            && (r.attempts != [] ==>
                  var a := r.attempts[0];
                  && a.answer == w.answer(a.kind)
                  && if s.cl.Some? then Some(a.conn) == s.cl && a.kind == s.conns[a.conn].kind
                     else a.conn == |s.conns| && WouldDial(s, a.kind))
            && (|r.attempts| == 2 <==>
                  && r.attempts != [] && r.attempts[0].kind == Json && LostConnection(r.attempts[0])
                  && s.transport == Auto && !s.fallback && w.redial)
            && (|r.attempts| == 2 ==>
                  && r.attempts[1] == Attempt(r.attempts[1].conn, Legacy, w.reanswer(Legacy))
                  && r.attempts[1].conn >= |s.conns| && r.attempts[1].conn > r.attempts[0].conn
                  && r.shared.fallback)
  {
    hide Alone, Sound;
    CallFromReady(s, w);
    var (s', k) := Get(s, w.dial);
    if !w.done && k.Some? {
      AfterDial(s', k.value, w);
    }
  }

  /** Every attempt of a pinned client is on the transport it is pinned to. */
  lemma {:induction false} CallOnKind(s: Shared, w: Script)
    requires Sound(s) && s.transport != Auto
    ensures var attempts := Alone(s, Ready, w).attempts;
            forall i :: 0 <= i < |attempts| ==> attempts[i].kind == s.transport
  {
    hide Alone;
    AtMostTwoAttempts(s, w);
  }

  /** Such a call keeps its connection exactly when its last attempt was answered, and succeeds
      exactly when it was answered in time. */
  lemma {:induction false} FailureLeavesNothing(s: Shared, w: Script)
    requires Sound(s)
    ensures var r := Alone(s, Ready, w);
            && Sound(r.shared)
            && (r.attempts != [] ==>
                  var last := r.attempts[|r.attempts| - 1];
                  r.shared.cl == if last.answer.Answered? then Some(last.conn) else None)
            && (r.ok <==> r.attempts != [] && r.attempts[|r.attempts| - 1].answer.Answered?
                          && !(if |r.attempts| == 1 then w.late else w.relate))
  {
    hide Alone, Sound;
    CallFromReady(s, w);
    var (s', k) := Get(s, w.dial);
    if !w.done && k.Some? {
      AfterDial(s', k.value, w);
    }
  }

  // ------------------------------------------------ against a legacy-only server

  /** Everything works but JSON, which ends in a connection error. */
  predicate LegacyOnly(w: Script) {
    && !w.done && w.dial && !w.late && w.redial && !w.relate
    && LostConnection(Attempt(0, Json, w.answer(Json)))
    && w.answer(Legacy).Answered? && w.reanswer(Legacy).Answered?
  }

  /** Calls one after another: their results, and all their attempts. */
  function Calls(s: Shared, ws: seq<Script>): (Shared, seq<bool>, seq<Attempt>)
    decreases |ws|
  {
    if ws == [] then (s, [], [])
    else
      var r := Alone(s, Ready, ws[0]);
      var more := Calls(r.shared, ws[1..]);
      (more.0, [r.ok] + more.1, r.attempts + more.2)
  }

  function OnJson(attempts: seq<Attempt>): nat
    decreases |attempts|
  {
    if attempts == [] then 0 else (if attempts[0].kind == Json then 1 else 0) + OnJson(attempts[1..])
  }

  lemma {:induction false} OnJsonSplit(a: seq<Attempt>, b: seq<Attempt>)
    ensures OnJson(a + b) == OnJson(a) + OnJson(b)
    decreases |a|
  {
    if a == [] {
      assert a + b == b;
    } else {
      assert (a + b)[0] == a[0] && (a + b)[1..] == a[1..] + b;
      OnJsonSplit(a[1..], b);
    }
  }

  /** An auto client that has fallen back. */
  predicate Settled(s: Shared) {
    Sound(s) && s.transport == Auto && s.fallback && (s.cl.Some? ==> s.active == Legacy)
  }

  lemma {:induction false} SettledCall(s: Shared, w: Script)
    requires Settled(s) && LegacyOnly(w)
    ensures var r := Alone(s, Ready, w);
            r.ok && Settled(r.shared) && OnJson(r.attempts) == 0
  {
    hide Alone;
    CallFromReady(s, w);
    var (s', k) := Get(s, w.dial);
    FirstAnswer(s', k.value, w);
  }

  lemma {:induction false} SettledCalls(s: Shared, ws: seq<Script>)
    requires Settled(s) && forall i :: 0 <= i < |ws| ==> LegacyOnly(ws[i])
    ensures var r := Calls(s, ws);
            OnJson(r.2) == 0 && |r.1| == |ws| && forall i :: 0 <= i < |ws| ==> r.1[i]
    decreases |ws|
  {
    hide Alone, Settled, LegacyOnly;
    if ws != [] {
      var r := Alone(s, Ready, ws[0]);
      SettledCall(s, ws[0]);
      SettledCalls(r.shared, ws[1..]);
      OnJsonSplit(r.attempts, Calls(r.shared, ws[1..]).2);
    }
  }

  lemma {:induction false} FirstCall(w: Script)
    requires LegacyOnly(w)
    ensures var r := Alone(Init(Auto).shared, Ready, w);
            r.ok && Settled(r.shared) && OnJson(r.attempts) == 1
  {
    hide Alone;
    var s := Init(Auto).shared;
    CallFromReady(s, w);
    var (s', k) := Get(s, w.dial);
    FirstAnswer(s', 0, w);
    var (s2, retry) := Decide(Drop(s'));
    AloneGoes(s2, Again, w);
    var (s3, k3) := Get(s2, w.redial);
    AloneGoes(s3, Recalling(1), w);
    AloneGoes(s3, Over(true), w);
    var a, b := Attempt(0, Json, w.answer(Json)), Attempt(1, Legacy, w.reanswer(Legacy));
    assert s3 == Shared(Auto, Some(1), Legacy, true, [Conn(Json, false), Conn(Legacy, true)]);
    assert Alone(s, Ready, w) == Outcome(s3, true, [a, b]);
    assert [a, b][1..] == [b] && [b][1..] == [];
    assert OnJson([b]) == 0;
  }

  /** An auto client facing a legacy-only server tries JSON exactly once, over any number
      of calls that do not overlap, and every one of them succeeds. */
  lemma {:induction false} JsonTriedOnce(ws: seq<Script>)
    requires ws != [] && forall i :: 0 <= i < |ws| ==> LegacyOnly(ws[i])
    ensures var r := Calls(Init(Auto).shared, ws);
            OnJson(r.2) == 1 && |r.1| == |ws| && forall i :: 0 <= i < |ws| ==> r.1[i]
  {
    hide Alone, Settled, LegacyOnly;
    var r := Alone(Init(Auto).shared, Ready, ws[0]);
    FirstCall(ws[0]);
    SettledCalls(r.shared, ws[1..]);
    OnJsonSplit(r.attempts, Calls(r.shared, ws[1..]).2);
  }

  class CustomRpcClient {
    const transport: Transport
    var cl: Option<nat>
    var activeTransport: Transport
    var jsonFallback: bool
    var dialled: seq<Conn>

    function State(): Shared
      reads this
    {
      Shared(transport, cl, activeTransport, jsonFallback, dialled)
    }

    constructor (transport: Transport)
      ensures State() == Init(transport).shared && this.transport == transport
    {
      this.transport, cl, activeTransport, jsonFallback, dialled := transport, None, Auto, false, [];
    }

    method GetClient(dial: bool) returns (k: Option<nat>)
      requires Sound(State())
      modifies this
      ensures (State(), k) == Get(old(State()), dial) && Sound(State())
      ensures k.Some? ==> k.value < |dialled| && dialled[k.value].open && cl == k
      ensures k.Some? && old(cl).None? ==> WouldDial(old(State()), dialled[k.value].kind)
    {
      GetSound(State(), dial);
      if cl.Some? {
        return cl;
      }
      if !dial {
        return None;
      }
      var kind := Effective(transport, jsonFallback);
      k := Some(|dialled|);
      dialled := dialled + [Conn(kind, true)];
      cl, activeTransport := k, kind;
    }

    method Invalidate()
      requires Sound(State())
      modifies this
      ensures State() == Drop(old(State())) && Sound(State()) && cl.None?
    {
      DropSound(State());
      if cl.Some? {
        dialled := dialled[cl.value := dialled[cl.value].(open := false)];
        cl := None;
      }
    }

    method Close()
      requires Sound(State())
      modifies this
      ensures State() == Drop(old(State())) && Sound(State())
    {
      if cl.None? {
        return;
      }
      DropSound(State());
      dialled := dialled[cl.value := dialled[cl.value].(open := false)];
      cl := None;
    }

    method NoteConnError() returns (retry: bool)
      requires Sound(State())
      modifies this
      ensures (State(), retry) == Decide(old(State())) && Sound(State())
    {
      DecideSound(State());
      var wasJson, already := activeTransport == Json, jsonFallback;
      jsonFallback := true;
      retry := transport == Auto && wasJson && !already;
    }

    /** The second attempt. */
    method Retry(w: Script) returns (ok: bool, attempts: seq<Attempt>)
      requires Sound(State())
      modifies this
      ensures Outcome(State(), ok, attempts) == Alone(old(State()), Again, w) && Sound(State())
    {
      hide Alone, Sound, Get, Drop;
      ok, attempts := false, [];
      AloneGoes(State(), Again, w);
      var k := GetClient(w.redial);
      if k.Some? {
        var kind := dialled[k.value].kind;
        attempts := [Attempt(k.value, kind, w.reanswer(kind))];
        AloneGoes(State(), Recalling(k.value), w);
        if attempts[0].answer.Answered? {
          ok := !w.relate;
        } else {
          AloneGoes(State(), Refailed, w);
          Invalidate();
        }
      }
      AloneGoes(State(), Over(ok), w);
    }

    /** A call that no other call overlaps. */
    method Call(w: Script) returns (ok: bool, attempts: seq<Attempt>)
      requires Sound(State())
      modifies this
      ensures Outcome(State(), ok, attempts) == Alone(old(State()), Ready, w) && Sound(State())
    {
      hide Alone, Sound, Get, Drop, Decide;
      ok, attempts := false, [];
      AloneGoes(State(), Ready, w);
      if w.done {
        AloneGoes(State(), Over(false), w);
        return;
      }
      var k := GetClient(w.dial);
      if k.None? {
        AloneGoes(State(), Over(false), w);
        return;
      }
      var kind := dialled[k.value].kind;
      var a := Attempt(k.value, kind, w.answer(kind));
      AloneGoes(State(), Calling(k.value), w);
      attempts := [a];
      if a.answer.Answered? {
        AloneGoes(State(), Over(!w.late), w);
        return !w.late, attempts;
      }
      AloneGoes(State(), Failed(IsConnError(a.answer.error)), w);
      Invalidate();
      if !IsConnError(a.answer.error) {
        AloneGoes(State(), Over(false), w);
        return;
      }
      AloneGoes(State(), Dropped, w);
      var again := NoteConnError();
      AloneGoes(State(), Over(false), w);
      if again {
        var more;
        ok, more := Retry(w);
        attempts := [a] + more;
      }
    }
  }
}
