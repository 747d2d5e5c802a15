/** The v3 JSON-crypto reader itself: two decoders, two nested budgets, one connection.
    Its methods make exactly the steps that JsonHandOff reasons about. */
module JsonCryptoReader {
  import opened Automata
  import opened Streams
  import opened JsonCrypto
  import opened JsonHandOff
  import opened JsonCalls
  import opened JsonBodies
  import opened JsonPull
  import opened JsonDecoder
  import JsonText
  import JsonCodec
  import Gob

  /** What a body is read from: the decoder's buffered bytes, then the connection through
      the codec's own budget, both through a second budget of the same size. */
  class BodySource {
    const outer: BudgetReader
    var first: seq<Byte>
    var left: nat

    constructor (first: seq<Byte>, outer: BudgetReader, left: nat)
      ensures this.first == first && this.outer == outer && this.left == left
    {
      this.first, this.outer, this.left := first, outer, left;
    }

    /** The inner budget never exceeds the outer one. */
    ghost predicate Nested()
      reads this, outer
    {
      left <= outer.left
    }

    ghost function Pending(): seq<Byte>
      reads this, outer, outer.conn
    {
      first + outer.conn.Pending()
    }

    /** Only the inner budget can refuse; a read is served from the buffered bytes alone as
        long as there are any. */
    method Read(want: nat) returns (p: seq<Byte>, tooLarge: bool)
      requires want > 0 && Nested()
      modifies this, outer, outer.conn
      ensures Nested() && (tooLarge <==> old(left) == 0)
      ensures old(Pending()) == p + Pending()
      ensures |p| <= want && left == old(left) - |p|
      ensures p == [] <==> tooLarge || old(Pending()) == []
      ensures old(first) != [] ==> old(first) == p + first && outer.conn.Pending() == old(outer.conn.Pending())
      ensures old(first) != [] ==> |p| == Min(Min(want, old(left)), |old(first)|)
      ensures old(first) == [] ==> first == [] && old(outer.conn.Pending()) == p + outer.conn.Pending()
    {
      if left == 0 {
        return [], true;
      }
      if first != [] {
        var k := Min(Min(want, left), |first|);
        p, first := first[..k], first[k..];
        tooLarge := false;
      } else {
        p, tooLarge := outer.Read(Min(want, left));
      }
      left := left - |p|;
    }

    /** `t` bytes of `all` have been taken, the first of them from `held`. */
    ghost predicate Taken(held: seq<Byte>, all: seq<Byte>, budget: nat, t: nat)
      reads this, outer, outer.conn
    {
      && Nested() && t <= |all| && left == budget - t
      && Pending() == all[t..] && first == held[Min(t, |held|)..]
    }

    method Take(want: nat, ghost held: seq<Byte>, ghost all: seq<Byte>, ghost budget: nat, ghost t: nat)
      returns (p: seq<Byte>)
      requires want > 0 && Taken(held, all, budget, t)
      modifies this, outer, outer.conn
      ensures t + |p| <= |all| && p == all[t..t + |p|] && |p| <= want
      ensures Taken(held, all, budget, t + |p|)
      ensures p == [] <==> t == Min(|all|, budget)
      ensures t < |held| ==> t + |p| <= |held|
    {
      var tooLarge;
      p, tooLarge := Read(want);
      assert all[t..] == p + Pending();
    }

    /** Scans for the prefix, one byte at a time. */
    method ScanPrefix(ghost held: seq<Byte>, ghost all: seq<Byte>) returns (st: PrefixState, ghost u: nat)
      requires Taken(held, all, left, 0)
      modifies this, outer, outer.conn
      ensures Taken(held, all, old(left), u)
      ensures st == Run(PREFIX, Part(0), all[..u]) && Used(PREFIX, Part(0), all[..u]) == u
      ensures st.Part? ==> u == Min(|all|, old(left))
    {
      ghost var budget := left;
      st, u := Part(0), 0;
      var stop := false;
      while st.Part? && !stop
        invariant Taken(held, all, budget, u)
        invariant st == Run(PREFIX, Part(0), all[..u]) && Used(PREFIX, Part(0), all[..u]) == u
        invariant stop ==> u == Min(|all|, budget)
        decreases !stop, left
      {
        var one := Take(1, held, all, budget, u);
        if one == [] {
          stop := true;
        } else {
          FeedByte(PREFIX, Part(0), all, u);
          assert one[0] == all[u];
          st, u := PrefixStep(st, one[0]), u + 1;
        }
      }
    }

    /** The gob decoder in state `st` over this source. */
    ghost function At(st: Gob.State): Pulling
      reads this, outer, outer.conn
    {
      Pulling(st, first, outer.conn.Pending(), left)
    }

    /** One read for the decoder; none is possible at the end of budget or stream. */
    method Feed(ahead: nat, st: Gob.State) returns (st': Gob.State, ghost k: nat)
      requires Nested() && !Gob.Stopped(st)
      modifies this, outer, outer.conn
      ensures Nested() && left == old(left) - k
      ensures k == 0 ==> At(st') == old(At(st)) && AtEnd(At(st'))
      ensures k > 0 ==> MayPull(ahead, old(At(st)), k) && At(st') == Pull(old(At(st)), k)
    {
      hide Run;
      var p, tooLarge := Read(Ask(ahead, st));
      st', k := Run(Gob.GOB, st, p), |p|;
      if p == [] {
        RunNothing(st);
      } else {
        PullIs(old(At(st)), p, At(st'));
      }
    }

    /** Reads until the decoder has its value or nothing is left to read. */
    method Drive(ahead: nat) returns (st: Gob.State, ghost cs: seq<nat>)
      requires Nested()
      modifies this, outer, outer.conn
      ensures Nested() && Ends(ahead, old(At(FRESH)), cs) && After(old(At(FRESH)), cs) == At(st)
    {
      hide MayPull, Pull, AtEnd;
      st, cs := FRESH, [];
      var stop := false;
      while !Gob.Stopped(st) && !stop
        invariant Nested() && Legal(ahead, old(At(FRESH)), cs) && After(old(At(FRESH)), cs) == At(st)
        invariant stop ==> AtEnd(At(st))
        decreases !stop, left
      {
        var before := left;
        ghost var k;
        st, k := Feed(ahead, st);
        stop := left == before;
        if k > 0 {
          Snoc(ahead, old(At(FRESH)), cs, k);
          cs := cs + [k];
        }
      }
      StoppedIsEnd(At(st));
    }

    /** The prefix, then the blob. */
    method DecodeBlob(ahead: nat, ghost a: Rx) returns (blob: Blob, ghost t: nat)
      requires Nested() && first == a.buf && outer.conn.Pending() == a.net
      modifies this, outer, outer.conn
      ensures t <= |JsonHandOff.BodySource(a)| && MayTake(ahead, old(left), a, t)
      ensures first == Left(a, t).rest && outer.conn.Pending() == Left(a, t).net
      ensures blob == ReadBlob(JsonHandOff.BodySource(a), old(left)).blob
    {
      hide ReadBlob, PrefixLen, PrefixOutcome, Run, Used, Reported, Ends, Left;
      ghost var s, budget := JsonHandOff.BodySource(a), left;
      assert s[0..] == s && a.buf[0..] == a.buf;
      var pst, u := ScanPrefix(a.buf, s);
      PrefixFound(a, budget, u, first, outer.conn.Pending());
      if pst.PrefixEnd? {
        ghost var cs;
        ghost var x := At(FRESH);
        var gst;
        gst, cs := Drive(ahead);
        blob := Reported(pst, gst, left);
        ReadsEnd(ahead, budget, a, cs);
        t := u + Sum(cs);
      } else {
        blob := Reported(pst, FRESH, left);
        PrefixReported(s, budget, u);
        t := u;
      }
    }
  }

  lemma {:induction false} BodyStepIs(ahead: nat, maxBody: nat, a: Rx, r: BlobRead, t: nat, b: Rx)
    requires t <= |JsonHandOff.BodySource(a)| && MayTake(ahead, maxBody, a, t) && b == Left(a, t)
    requires r == ReadBlob(JsonHandOff.BodySource(a), maxBody)
    ensures BodyStep(ahead, maxBody, a, r, t, b)
  {
  }

  lemma {:induction false} RunNothing(st: Gob.State)
    ensures Run(Gob.GOB, st, []) == st
  {
  }

  lemma {:induction false} PullIs(x: Pulling, p: seq<Byte>, y: Pulling)
    requires p != [] && |p| <= x.left && y.st == Run(Gob.GOB, x.st, p) && y.left == x.left - |p|
    requires if x.first != [] then x.first == p + y.first && y.net == x.net
             else y.first == [] && x.net == p + y.net
    ensures y == Pull(x, |p|)
  {
    hide Run;
  }

  lemma {:induction false} StoppedIsEnd(x: Pulling)
    ensures Gob.Stopped(x.st) ==> AtEnd(x)
  {
  }

  /** The scanner found the prefix state of the whole source and stands behind its bytes. */
  lemma {:induction false} PrefixFound(a: Rx, budget: nat, u: nat, first: seq<Byte>, net: seq<Byte>)
    requires var s := JsonHandOff.BodySource(a);
             && u <= |s| && u <= budget && Used(PREFIX, Part(0), s[..u]) == u
             && (!Stops(PREFIX, Part(0), s[..u]) ==> u == Min(|s|, budget))
             && first + net == s[u..] && first == a.buf[Min(u, |a.buf|)..]
    ensures var s := JsonHandOff.BodySource(a);
            && PrefixOutcome(s, budget) == Run(PREFIX, Part(0), s[..u]) && PrefixLen(s, budget) == u
            && first == Left(a, u).rest && net == Left(a, u).net
            && AtBlob(a, budget, u) == Pulling(FRESH, first, net, budget - u)
  {
    hide PrefixOutcome, PrefixLen, Run, Used;
    var s := JsonHandOff.BodySource(a);
    PrefixBy(s, budget, u);
    LeftAll(a, u);
    assert net == (first + net)[|first|..] == s[u..][|first|..];
    assert Left(a, u).net == (first + Left(a, u).net)[|first|..];
  }

  lemma {:induction false} PrefixReported(s: seq<Byte>, cap: nat, u: nat)
    requires !PrefixOutcome(s, cap).PrefixEnd? && PrefixLen(s, cap) == u
    requires PrefixOutcome(s, cap).Part? ==> u == Min(|s|, cap)
    ensures ReadBlob(s, cap) == BlobRead(Reported(PrefixOutcome(s, cap), FRESH, cap - u), u)
  {
  }

  lemma {:induction false} FeedByte<S>(a: Automaton<S>, st: S, all: seq<Byte>, u: nat)
    requires u < |all| && Used(a, st, all[..u]) == u && !Stops(a, st, all[..u])
    ensures Run(a, st, all[..u + 1]) == a.step(Run(a, st, all[..u]), all[u])
    ensures Used(a, st, all[..u + 1]) == u + 1
  {
    var mid := Run(a, st, all[..u]);
    assert all[..u + 1] == all[..u] + [all[u]];
    RunSplit(a, st, all[..u], [all[u]]);
    assert [all[u]][1..] == [];
  }

  /** A read for the JSON decoder, of what it was built over or of the connection. */
  lemma {:induction false} DecoderRead(y: Reading, p: seq<Byte>, z: Rx, left: nat)
    requires !Stops(JsonText.JSON, JsonText.START, y.rx.buf) && p != [] && |p| <= Free(y.rx)
    requires z.buf == y.rx.buf + p && z.cap == Grown(y.rx.cap, |y.rx.buf|)
    requires if y.rx.rest != [] then
               |p| == Min(Free(y.rx), |y.rx.rest|) && y.rx.rest == p + z.rest && z.net == y.rx.net && left == y.left
             else z.rest == [] && y.rx.net == p + z.net && y.left == left + |p|
    ensures MayRead(y, |p|) && Read(y, |p|) == Reading(z, left)
  {
    hide Stops;
  }

  /** Taking the text completes the header read. */
  lemma {:induction false} HeaderDone(maxBody: nat, a: Rx, cs: seq<nat>, r: JsonText.Outcome, b: Rx)
    requires Fills(Reading(a, maxBody), cs) && r == Report(Filled(Reading(a, maxBody), cs))
    requires b == JsonDecoder.Taken(Filled(Reading(a, maxBody), cs).rx, r)
    ensures DecodeStep(maxBody, a, r, b)
  {
    assert DecodeBy(maxBody, a, cs, r, b);
  }

  class Reader {
    const budget: BudgetReader
    const maxBody: nat
    var buf: seq<Byte>                       // read by the JSON decoder, not yet taken
    var cap: nat                             // how many bytes the decoder's buffer can hold
    var rest: seq<Byte>                      // what the decoder was rebuilt over and has not pulled
    var error: Option<JsonText.Outcome>      // the current decoder's first stream error

    ghost function State(): Rx
      reads this, budget, budget.conn
    {
      Rx(buf, rest, budget.conn.Pending(), cap)
    }

    ghost function Now(): Reading
      reads this, budget, budget.conn
    {
      Reading(State(), budget.left)
    }

    ghost predicate Valid()
      reads this
    {
      |buf| <= cap
    }

    constructor (conn: Conn, maxBody: int)
      ensures fresh(budget) && budget.conn == conn && this.maxBody == JsonCodec.Limit(maxBody)
      ensures Valid() && error.None? && State() == Fresh(conn.Pending())
    {
      this.maxBody, this.buf, this.rest, this.cap, this.error := JsonCodec.Limit(maxBody), [], [], 0, None;
      budget := new BudgetReader(conn, JsonCodec.Limit(maxBody));
    }

    /** The decoder's source: what it was rebuilt over, then the connection under the
        codec's budget. */
    method Pull(ask: nat) returns (p: seq<Byte>)
      requires ask > 0
      modifies `rest, budget, budget.conn
      ensures |p| <= ask
      ensures if old(rest) != [] then
                && |p| == Min(ask, |old(rest)|) && old(rest) == p + rest
                && budget.conn.Pending() == old(budget.conn.Pending()) && budget.left == old(budget.left)
              else
                && rest == [] && old(budget.conn.Pending()) == p + budget.conn.Pending()
                && old(budget.left) == budget.left + |p|
      ensures p == [] <==> old(rest) == [] && (old(budget.left) == 0 || old(budget.conn.Pending()) == [])
    {
      if rest != [] {
        var k := Min(ask, |rest|);
        p, rest := rest[..k], rest[k..];
      } else {
        var tooLarge;
        p, tooLarge := budget.Read(ask);
      }
    }

    /** One read for the decoder, as large as the free space of its buffer, which is first
        enlarged if there is too little. */
    method More(ghost x: Reading, ghost cs: seq<nat>) returns (stop: bool, ghost cs': seq<nat>)
      requires Valid() && MayFill(x, cs) && Now() == Filled(x, cs)
      requires !Stops(JsonText.JSON, JsonText.START, buf)
      modifies `buf, `cap, `rest, budget, budget.conn
      ensures Valid() && MayFill(x, cs') && Now() == Filled(x, cs')
      ensures stop ==> AtRest(Now())
      ensures !stop ==> |rest| + |budget.conn.Pending()| < old(|rest| + |budget.conn.Pending()|)
    {
      hide Run, Stops, MayFill, Filled;
      var room := Grown(cap, |buf|);
      var p := Pull(room - |buf|);
      stop, cs' := p == [], cs;
      if !stop {
        buf, cap := buf + p, room;
        DecoderRead(old(Now()), p, State(), budget.left);
        FillSnoc(x, cs, |p|);
        cs' := cs + [|p|];
      }
    }

    /** Reads until the text is complete, the budget is spent or the stream ends. */
    method Fill() returns (ghost cs: seq<nat>)
      requires Valid()
      modifies `buf, `cap, `rest, budget, budget.conn
      ensures Valid() && Fills(old(Now()), cs) && Now() == Filled(old(Now()), cs)
    {
      hide Run, MayFill, Filled;
      ghost var x := Now();
      var stop := false;
      cs := [];
      FillNothing(x, cs);
      while !Stops(JsonText.JSON, JsonText.START, buf) && !stop
        invariant Valid() && MayFill(x, cs) && Now() == Filled(x, cs)
        invariant stop ==> AtRest(Now())
        decreases !stop, |rest| + |budget.conn.Pending()|
      {
        stop, cs := More(x, cs);
      }
    }

    /** A header read. */
    method ReadHeader() returns (r: JsonText.Outcome)
      requires Valid()
      modifies this, budget, budget.conn
      ensures Valid()
      ensures old(error).Some? ==> r == old(error).value && error == old(error) && State() == old(State())
      ensures old(error).None? ==> DecodeStep(maxBody, old(State()), r, State())
      ensures old(error).None? ==> error == if r.Text? then None else Some(r)
    {
      hide Run, MayFill, Filled, Fills, DecodeStep, ReportOf;
      budget.Reset(maxBody);
      if error.Some? {
        return error.value;
      }
      ghost var a := State();
      ghost var cs := Fill();
      r := ReportOf(buf, rest == [] && budget.left == 0);
      if r.Text? {
        buf := buf[r.len..];
      } else {
        error := Some(r);
      }
      HeaderDone(maxBody, a, cs, r, State());
    }

    /** A body read. The codec's budget is reset, and the inner one is as large. */
    method ReadBody(ahead: nat, o: Opener) returns (res: BodyResult, ghost r: BlobRead, ghost taken: nat)
      modifies this, budget, budget.conn
      ensures Valid() && BodyStep(ahead, maxBody, old(State()), r, taken, State())
      ensures res == Open(o, r.blob) && error.None?
      ensures ComesTo(o, JsonHandOff.BodySource(old(State())), maxBody, res)
    {
      hide ReadBlob, BodyStep, Open, ComesTo;
      budget.Reset(maxBody);
      ghost var a := State();
      var src := new BodySource(buf, budget, maxBody);
      var blob;
      blob, taken := src.DecodeBlob(ahead, a);
      r := ReadBlob(JsonHandOff.BodySource(a), maxBody);
      buf, cap, rest, error := [], 0, src.first, None;
      res := Open(o, blob);
      BodyStepIs(ahead, maxBody, a, r, taken, State());
      ReadComesTo(o, JsonHandOff.BodySource(a), maxBody);
    }

    /** Call after call until a header cannot be read: one pipelined run, whose every
        result is what its call's body opens to. */
    method Serve(openers: seq<Opener>, ahead: nat)
      returns (results: seq<BodyResult>, ghost calls: seq<Call>)
      requires Valid() && error.None?
      modifies this, budget, budget.conn
      ensures Pipelined(ahead, maxBody, calls)
      ensures calls != [] ==> calls[0].before == old(State())
      ensures |results| == |calls| <= |openers|
      ensures forall i :: 0 <= i < |calls| ==> results[i] == Open(openers[i], calls[i].body.blob)
      ensures forall i :: 0 <= i < |calls| ==> ToldAt(maxBody, openers, calls, results, i)
      ensures |calls| == |openers| ==> State() == Last(calls, old(State()))
      ensures |calls| < |openers| ==>
        exists h: JsonText.Outcome :: !h.Text? && DecodeStep(maxBody, Last(calls, old(State())), h, State())
    {
      hide DecodeStep, BodyStep, Open, Rx.All, ComesTo;
      results, calls := [], [];
      ghost var first := State();
      while |results| < |openers|
        invariant Valid() && error.None? && State() == Last(calls, first)
        invariant Pipelined(ahead, maxBody, calls)
        invariant calls != [] ==> calls[0].before == first
        invariant |results| == |calls| <= |openers|
        invariant forall i :: 0 <= i < |calls| ==> results[i] == Open(openers[i], calls[i].body.blob)
        invariant forall i :: 0 <= i < |calls| ==> ToldAt(maxBody, openers, calls, results, i)
        decreases |openers| - |results|
      {
        ghost var before := State();
        var h := ReadHeader();
        if !h.Text? {
          return;
        }
        ghost var between := State();
        var res, r, taken := ReadBody(ahead, openers[|results|]);
        ghost var c := Call(before, h, between, r, taken, State());
        PipelinedSnoc(ahead, maxBody, calls, c, first);
        ToldSnoc(maxBody, openers, calls, results, c, res);
        results, calls := results + [res], calls + [c];
      }
    }

    /** A burst of frames, opened by any mix of callers, with the right key or a wrong one,
        for a text they accept or not: as long as every call keeps the stream, each body
        opens to what its own frame sealed and what follows the burst is left.  From a fresh
        reader they all do if the gob decoder reads exactly and the burst is a roomy one. */
    method ServeBurst(ghost fs: seq<Frame>, ghost tail: seq<Byte>, openers: seq<Opener>, ahead: nat)
      returns (results: seq<BodyResult>, ghost calls: seq<Call>)
      requires Valid() && error.None? && |openers| == |fs| && AllFit(maxBody, fs)
      requires State().All() == Wire(fs) + tail
      modifies this, budget, budget.conn
      ensures Pipelined(ahead, maxBody, calls) && |calls| == |results| <= |fs|
      ensures (forall i :: 0 <= i < |calls| ==> KeptAt(calls, fs, i)) ==>
                && |results| == |fs| && State().All() == tail
                && forall i :: 0 <= i < |fs| ==> results[i] == Open(openers[i], SealedBlob(fs[i].sealed))
      ensures ahead == 0 && old(State()) == Fresh(Wire(fs) + tail) && Roomy(fs, tail) ==>
                forall i :: 0 <= i < |calls| ==> KeptAt(calls, fs, i)
    {
      hide DecodeStep, BodyStep, Open, SealedBlob, Fits, Bytes, Wire, Rx.All, KeptAt;
      ghost var first := State();
      results, calls := Serve(openers, ahead);
      if forall i :: 0 <= i < |calls| ==> KeptAt(calls, fs, i) {
        BurstServed(ahead, maxBody, calls, fs, openers, results, first, State(), tail);
      }
      if ahead == 0 && first == Fresh(Wire(fs) + tail) && Roomy(fs, tail) {
        forall i | 0 <= i < |calls| ensures KeptAt(calls, fs, i) {
          RoomyBurstKept(maxBody, calls, fs, tail, i);
        }
      }
    }

    /** A frame that has arrived with nothing before or after it is read. */
    method ServeOne(f: Frame, o: Opener, ahead: nat) returns (res: BodyResult)
      requires Valid() && error.None? && State() == Fresh(Bytes(f)) && Fits(maxBody, f)
      modifies this, budget, budget.conn
      ensures error.None? && State() == Fresh([])
      ensures res == Open(o, SealedBlob(f.sealed))
    {
      hide DecodeStep, BodyStep, Open, SealedBlob, Fits, Bytes;
      ghost var before := State();
      var h := ReadHeader();
      ghost var between := State();
      HeaderAlone(maxBody, before, h, between, f);
      ghost var r, taken;
      res, r, taken := ReadBody(ahead, o);
      BodyAlone(ahead, maxBody, between, r, taken, State(), f);
    }

    /** The peer sends each frame only after the previous one was read: every body opens
        to what its own frame sealed, whatever the read-ahead. */
    method ServeLockStep(fs: seq<Frame>, openers: seq<Opener>, ahead: nat)
      returns (results: seq<BodyResult>)
      requires Valid() && error.None? && State() == Fresh([])
      requires |fs| == |openers| && AllFit(maxBody, fs)
      modifies this, budget, budget.conn
      ensures |results| == |fs| && State() == Fresh([])
      ensures forall i :: 0 <= i < |fs| ==> results[i] == Open(openers[i], SealedBlob(fs[i].sealed))
    {
      hide Open, SealedBlob, Fits, Bytes;
      results := [];
      for i := 0 to |fs|
        invariant Valid() && error.None? && State() == Fresh([]) && |results| == i
        invariant forall j :: 0 <= j < i ==> results[j] == Open(openers[j], SealedBlob(fs[j].sealed))
      {
        assert FitsAt(maxBody, fs, i);
        budget.conn.Arrive(Bytes(fs[i]));
        assert State() == Fresh(Bytes(fs[i]));
        var res := ServeOne(fs[i], openers[i], ahead);
        results := results + [res];
      }
    }
  }

  /** The body of a call came to what the bytes it was read from say. */
  ghost predicate ToldAt(maxBody: nat, openers: seq<Opener>, calls: seq<Call>, results: seq<BodyResult>, i: nat)
    requires i < |calls| == |results| <= |openers|
  {
    ComesTo(openers[i], JsonHandOff.BodySource(calls[i].between), maxBody, results[i])
  }

  lemma {:induction false} ToldSnoc(maxBody: nat, openers: seq<Opener>, calls: seq<Call>, results: seq<BodyResult>,
                                    c: Call, res: BodyResult)
    requires |calls| == |results| < |openers|
    requires forall i :: 0 <= i < |calls| ==> ToldAt(maxBody, openers, calls, results, i)
    requires ComesTo(openers[|calls|], JsonHandOff.BodySource(c.between), maxBody, res)
    ensures forall i :: 0 <= i <= |calls| ==> ToldAt(maxBody, openers, calls + [c], results + [res], i)
  {
    hide ComesTo;
    forall i | 0 <= i <= |calls| ensures ToldAt(maxBody, openers, calls + [c], results + [res], i) {
      if i < |calls| {
        assert ToldAt(maxBody, openers, calls, results, i);
      }
    }
  }

  /** Where a run of calls has got to. */
  ghost function Last(calls: seq<Call>, first: Rx): Rx {
    if calls == [] then first else calls[|calls| - 1].after
  }

  lemma {:induction false} BurstServed(ahead: nat, maxBody: nat, calls: seq<Call>, fs: seq<Frame>,
                                       os: seq<Opener>, results: seq<BodyResult>, first: Rx, end: Rx, tail: seq<Byte>)
    requires Pipelined(ahead, maxBody, calls) && AllFit(maxBody, fs)
    requires |calls| == |results| <= |fs| == |os| && first.All() == Wire(fs) + tail
    requires forall i :: 0 <= i < |calls| ==> KeptAt(calls, fs, i)
    requires calls != [] ==> calls[0].before == first
    requires forall i :: 0 <= i < |calls| ==> results[i] == Open(os[i], calls[i].body.blob)
    requires |calls| < |os| ==>
      exists h: JsonText.Outcome :: !h.Text? && DecodeStep(maxBody, Last(calls, first), h, end)
    requires |calls| == |os| ==> end == Last(calls, first)
    ensures |calls| == |fs| && end.All() == tail
    ensures forall i :: 0 <= i < |fs| ==> results[i] == Open(os[i], SealedBlob(fs[i].sealed))
  {
    hide DecodeStep, IsCall, Open, SealedBlob, Bytes, KeptAt, Wire;
    forall i | 0 <= i < |calls| ensures AlignedAt(calls, fs, tail, i) {
      KeptAligned(ahead, maxBody, calls, fs, tail, i);
    }
    var k, at := |calls|, Last(calls, first);
    assert k > 0 ==> AlignedAt(calls, fs, tail, k - 1);
    assert fs[0..] == fs;
    assert at.All() == Wire(fs[k..]) + tail;
    if k < |fs| {
      var h: JsonText.Outcome :| !h.Text? && DecodeStep(maxBody, at, h, end);
      assert FitsAt(maxBody, fs, k);
      WireFrom(fs, tail, k);
      HeaderReads(maxBody, at, h, end, fs[k], Wire(fs[k + 1..]) + tail);
    } else {
      WireNothing(fs[k..], tail);
    }
    forall i | 0 <= i < |fs| ensures results[i] == Open(os[i], SealedBlob(fs[i].sealed)) {
      assert AlignedAt(calls, fs, tail, i);
    }
  }

  lemma {:induction false} WireNothing(fs: seq<Frame>, tail: seq<Byte>)
    requires fs == []
    ensures Wire(fs) + tail == tail
  {
  }

  lemma {:induction false} PipelinedSnoc(ahead: nat, maxBody: nat, calls: seq<Call>, c: Call, first: Rx)
    requires Pipelined(ahead, maxBody, calls) && IsCall(ahead, maxBody, c)
    requires c.before == Last(calls, first)
    ensures Pipelined(ahead, maxBody, calls + [c])
  {
    hide IsCall;
    forall i | 0 <= i < |calls| + 1 ensures PipelinedAt(ahead, maxBody, calls + [c], i) {
      if i < |calls| {
        assert PipelinedAt(ahead, maxBody, calls, i);
      }
    }
  }

  /** A frame that has arrived alone: its header is read... */
  lemma {:induction false} HeaderAlone(maxBody: nat, a: Rx, r: JsonText.Outcome, b: Rx, f: Frame)
    requires DecodeStep(maxBody, a, r, b) && Fits(maxBody, f) && a == Fresh(Bytes(f))
    ensures r == JsonText.Text(f.header, |f.header|) && b.rest == [] && b.All() == BodyPart(f.sealed) + []
  {
    hide DecodeStep, JsonText.Decode, BodyPart, Fits;
    assert a.All() == Bytes(f) + [];
    HeaderReads(maxBody, a, r, b, f, []);
    StepFacts(maxBody, a, r, b);
  }

  /** ... and then its body, after which nothing is left anywhere. */
  lemma {:induction false} BodyAlone(ahead: nat, maxBody: nat, a: Rx, r: BlobRead, t: nat, b: Rx, f: Frame)
    requires BodyStep(ahead, maxBody, a, r, t, b) && Fits(maxBody, f)
    requires a.rest == [] && a.All() == BodyPart(f.sealed) + []
    ensures r.blob == SealedBlob(f.sealed) && b == Fresh([])
  {
    hide BodyPart, BodyStep, ReadBlob, SealedBlob, Fits;
    LoneBody(ahead, maxBody, a, r, t, b, f);
    AfterBody(ahead, maxBody, a, r, t, b);
    assert |b.All()| == 0;
  }
}
