/** The v2 crypto codec, writing side. */
module V2Client {
  import opened Automata
  import opened Gob
  import opened Aead
  import opened Writers
  import opened V2Crypto

  /** A call that the application asks for; its body may turn out not to be encodable. */
  datatype Attempt = Attempt(call: Call, bodyEncodes: bool)

  /** What becomes of an attempt, socket errors apart: its body does not encode, its sealed
      body is refused by the outer encoder for its size, or it is encoded whole. */
  datatype Fate = Unencoded | Oversized | Encoded

  /** A header is a struct of the rpc library, so of a user type. */
  predicate Callable(c: Cipher, call: Call) {
    && Encodable(call.header) && call.header.id >= FIRST_USER_ID
    && Encodable(call.body) && |call.nonce| == c.nonceSize
  }

  predicate Possible(c: Cipher, t: Attempt) {
    t.bodyEncodes ==> Callable(c, t.call)
  }

  predicate AllPossible(c: Cipher, tries: seq<Attempt>) {
    forall i :: 0 <= i < |tries| ==> Possible(c, tries[i])
  }

  /** (An attempt that is not possible counts as one whose body does not encode.) */
  ghost function FateOf(c: Cipher, t: Attempt): (f: Fate)
    ensures f.Encoded? ==> Sendable(c, t.call)
  {
    if !t.bodyEncodes || !Callable(c, t.call) then Unencoded
    else if |Blob(c, t.call)| < U64 && Encodable(BytesValue(Blob(c, t.call))) then Encoded
    else Oversized
  }

  /** The bytes an attempt queues, for an encoder that has sent the types `sent`. */
  ghost function PartOf(c: Cipher, sent: set<int>, t: Attempt): seq<Byte> {
    match FateOf(c, t)
    case Unencoded => []
    case Oversized => Encode(sent, t.call.header) + MAGIC
    case Encoded => Frame(c, sent, t.call)
  }

  ghost function SentBy(c: Cipher, sent: set<int>, t: Attempt): set<int> {
    if FateOf(c, t).Unencoded? then sent else SentAfter(sent, t.call.header)
  }

  /** The bytes of a run of attempts, and the types sent by then. */
  ghost function Parts(c: Cipher, sent: set<int>, tries: seq<Attempt>): seq<Byte>
    decreases |tries|
  {
    if tries == [] then []
    else PartOf(c, sent, tries[0]) + Parts(c, SentBy(c, sent, tries[0]), tries[1..])
  }

  ghost function SentIn(c: Cipher, sent: set<int>, tries: seq<Attempt>): set<int>
    decreases |tries|
  {
    if tries == [] then sent else SentIn(c, SentBy(c, sent, tries[0]), tries[1..])
  }

  /** The calls encoded whole. */
  ghost function Written(c: Cipher, tries: seq<Attempt>): (calls: seq<Call>)
    ensures AllSendable(c, calls)
    decreases |tries|
  {
    if tries == [] then []
    else (if FateOf(c, tries[0]).Encoded? then [tries[0].call] else []) + Written(c, tries[1..])
  }

  ghost predicate NoneOversized(c: Cipher, tries: seq<Attempt>) {
    forall i :: 0 <= i < |tries| ==> !FateOf(c, tries[i]).Oversized?
  }

  /** The run grows by what its next attempt queues. */
  lemma {:induction false} PartsSnoc(c: Cipher, sent: set<int>, tries: seq<Attempt>, t: Attempt)
    ensures Parts(c, sent, tries + [t]) == Parts(c, sent, tries) + PartOf(c, SentIn(c, sent, tries), t)
    ensures SentIn(c, sent, tries + [t]) == SentBy(c, SentIn(c, sent, tries), t)
    decreases |tries|
  {
    hide PartOf, SentBy;
    if tries == [] {
      assert tries + [t] == [t] && [t][1..] == [];
      assert Parts(c, sent, [t]) == PartOf(c, sent, t) + [];
    } else {
      assert (tries + [t])[0] == tries[0] && (tries + [t])[1..] == tries[1..] + [t];
      PartsSnoc(c, SentBy(c, sent, tries[0]), tries[1..], t);
    }
  }

  lemma {:induction false} PartsStep(c: Cipher, start: seq<Byte>, types: set<int>, tries: seq<Attempt>, i: nat)
    requires i < |tries|
    ensures start + Parts(c, types, tries[..i + 1])
            == start + Parts(c, types, tries[..i]) + PartOf(c, SentIn(c, types, tries[..i]), tries[i])
    ensures SentIn(c, types, tries[..i + 1]) == SentBy(c, SentIn(c, types, tries[..i]), tries[i])
  {
    hide PartOf, SentBy, Parts, SentIn;
    assert tries[..i + 1] == tries[..i] + [tries[i]];
    PartsSnoc(c, types, tries[..i], tries[i]);
  }

  lemma {:induction false} PartsNone(c: Cipher, start: seq<Byte>, types: set<int>, tries: seq<Attempt>)
    ensures start == start + Parts(c, types, tries[..0]) && types == SentIn(c, types, tries[..0])
  {
  }

  // --------------------------------------------- all or nothing, and exactly when

  /** Without a refusal the run is that of the calls encoded whole, in bytes and types. */
  lemma {:induction false} NoneOversizedRun(c: Cipher, sent: set<int>, tries: seq<Attempt>)
    requires NoneOversized(c, tries)
    ensures Parts(c, sent, tries) == Wire(c, sent, Written(c, tries))
    ensures SentIn(c, sent, tries) == SentOf(sent, Written(c, tries))
    decreases |tries|
  {
    if tries != [] {
      hide Frame, SentAfter;
      var rest := Written(c, tries[1..]);
      NoneOversizedRun(c, SentBy(c, sent, tries[0]), tries[1..]);
      if FateOf(c, tries[0]).Encoded? {
        assert Written(c, tries) == [tries[0].call] + rest && Written(c, tries)[1..] == rest;
      } else {
        assert Written(c, tries) == rest;
      }
    }
  }

  /** What is left to read after a header and the prefix. */
  lemma {:induction false} AfterHeader(sent: set<int>, v: GobValue, w: seq<Byte>, more: seq<Byte>)
    requires Encodable(v) && w == Encode(sent, v) + (MAGIC + more)
    ensures var h := GobDecode(sent, w);
            h.known == SentAfter(sent, v) && h.rest == MAGIC + more && h.rest[|MAGIC|..] == more
  {
    GobDecodeEncoded(sent, v, MAGIC + more);
  }

  /** A stream with a stranded header never is a stream of whole calls: where the latter has
      a sealed body, the former has the next header, or nothing. */
  lemma {:induction false} StrandedDiffers(c: Cipher, sent: set<int>, t: Attempt, later: seq<Attempt>, calls: seq<Call>)
    requires FateOf(c, t).Oversized? && AllSendable(c, calls)
    ensures PartOf(c, sent, t) + Parts(c, SentBy(c, sent, t), later) != Wire(c, sent, calls)
  {
    hide GobDecode, Encode, SentAfter, Parts, Encodable;
    var v := t.call.header;
    var more := Parts(c, SentBy(c, sent, t), later);
    var w := PartOf(c, sent, t) + more;
    assert w == Encode(sent, v) + (MAGIC + more);
    assert |w| > 0;
    if calls != [] && w == Wire(c, sent, calls) {
      AfterHeader(sent, v, w, more);
      PartsStartWithHeader(c, SentBy(c, sent, t), later);
      BodyFollows(c, sent, calls);
    }
  }

  /** After the first header and prefix of whole calls comes a byte slice. */
  lemma {:induction false} BodyFollows(c: Cipher, sent: set<int>, calls: seq<Call>)
    requires AllSendable(c, calls) && calls != []
    ensures var h := GobDecode(sent, Wire(c, sent, calls));
            && |h.rest| >= |MAGIC|
            && var d := GobDecode(h.known, h.rest[|MAGIC|..]).result;
               d.Got? && d.id == BYTES_ID
  {
    hide GobDecode, Encode, SentAfter, Encodable;
    var u, blob := calls[0].header, BytesValue(Blob(c, calls[0]));
    var sent' := SentAfter(sent, u);
    var tail := Wire(c, sent', calls[1..]);
    var sealed := Encode(sent', blob) + tail;
    assert Wire(c, sent, calls) == Encode(sent, u) + (MAGIC + sealed);
    AfterHeader(sent, u, Wire(c, sent, calls), sealed);
    GobDecodeEncoded(sent', blob, tail);
  }

  /** Whatever attempts queue, it starts with a header. */
  lemma {:induction false} PartsStartWithHeader(c: Cipher, sent: set<int>, tries: seq<Attempt>)
    ensures var d := GobDecode(sent, Parts(c, sent, tries)).result; d.Got? ==> d.id >= FIRST_USER_ID
    decreases |tries|
  {
    hide GobDecode, Encode, SentAfter, Encodable, PartOf;
    if tries == [] {
      NothingToDecode(sent);
    } else {
      var t, later := tries[0], Parts(c, SentBy(c, sent, tries[0]), tries[1..]);
      if FateOf(c, t).Unencoded? {
        var none := PartIsHeaderFirst(c, sent, t);
        assert PartOf(c, sent, t) + later == later;
        PartsStartWithHeader(c, sent, tries[1..]);
      } else {
        var more := PartIsHeaderFirst(c, sent, t);
        assert Parts(c, sent, tries) == Encode(sent, t.call.header) + (more + later);
        GobDecodeEncoded(sent, t.call.header, more + later);
      }
    }
  }

  lemma {:induction false} NothingToDecode(sent: set<int>)
    ensures !GobDecode(sent, []).result.Got?
  {
  }

  lemma {:induction false} PartIsHeaderFirst(c: Cipher, sent: set<int>, t: Attempt) returns (more: seq<Byte>)
    ensures FateOf(c, t).Unencoded? ==> PartOf(c, sent, t) == []
    ensures !FateOf(c, t).Unencoded? ==>
              Encodable(t.call.header) && PartOf(c, sent, t) == Encode(sent, t.call.header) + more
  {
    hide Encode, Encodable;
    more := [];
    if FateOf(c, t).Oversized? {
      more := MAGIC;
    } else if FateOf(c, t).Encoded? {
      var blob := BytesValue(Blob(c, t.call));
      more := MAGIC + Encode(SentAfter(sent, t.call.header), blob);
      assert PartOf(c, sent, t) == Encode(sent, t.call.header) + more;
    }
  }

  /** All or nothing, exactly: the bytes of a run of attempts are those of the calls encoded
      whole if and only if the outer encoder refused none of the sealed bodies. */
  lemma {:induction false} AllOrNothingIff(c: Cipher, sent: set<int>, tries: seq<Attempt>)
    ensures Parts(c, sent, tries) == Wire(c, sent, Written(c, tries)) <==> NoneOversized(c, tries)
    decreases |tries|
  {
    if NoneOversized(c, tries) {
      NoneOversizedRun(c, sent, tries);
    } else {
      OversizedRun(c, sent, tries);
    }
  }

  lemma {:induction false} OversizedRun(c: Cipher, sent: set<int>, tries: seq<Attempt>)
    requires !NoneOversized(c, tries)
    ensures Parts(c, sent, tries) != Wire(c, sent, Written(c, tries))
    decreases |tries|
  {
    hide Frame, SentAfter, Encode;
    var t, later := tries[0], tries[1..];
    var rest := Written(c, later);
    if FateOf(c, t).Oversized? {
      StrandedDiffers(c, sent, t, later, Written(c, tries));
    } else {
      OversizedRun(c, SentBy(c, sent, t), later);
      if FateOf(c, t).Encoded? {
        assert Written(c, tries) == [t.call] + rest && Written(c, tries)[1..] == rest;
        SameAfter(Frame(c, sent, t.call), Parts(c, SentBy(c, sent, t), later), Wire(c, SentBy(c, sent, t), rest));
      } else {
        assert Written(c, tries) == rest;
        assert Parts(c, sent, tries) == Parts(c, sent, later);
      }
    }
  }

  // ------------------------------------------------------------------ the codec

  /** Header and raw prefix into the buffered writer, and the sealed body if the encoder has
      not refused it. */
  method PutFrame(w: BufWriter, header: seq<Byte>, body: Option<seq<Byte>>)
    requires w.Valid()
    modifies w, w.sink`sent
    ensures w.Valid() && w.wire == old(w.wire) + (header + MAGIC + if body.Some? then body.value else [])
    ensures old(w.failed) ==> w.failed
    ensures old(w.failed) || w.sink.closed ==> w.sink.sent == old(w.sink.sent)
    ensures old(w.sink.sent) <= w.sink.sent
    ensures w.sink.closed && !w.failed ==> w.buf != []
    ensures w.sink.reliable && !w.sink.closed && !old(w.failed) ==> !w.failed
  {
    ghost var rest: seq<Byte> := if body.Some? then body.value else [];
    ghost var meant := w.wire + (header + MAGIC + rest);
    assert meant == w.wire + header + (MAGIC + rest) == w.wire + header + MAGIC + rest;
    var ok := w.Write(header);
    if ok {
      ok := w.Write(MAGIC);
    }
    if ok && body.Some? {
      ok := w.Write(body.value);
    }
    assert body.None? ==> rest == [] && w.wire + [] == w.wire;
    if !ok {
      w.Forget(meant);
    }
  }

  /** The same, and a flush if nothing was refused. */
  method SendFrame(w: BufWriter, header: seq<Byte>, body: Option<seq<Byte>>) returns (ok: bool)
    requires w.Valid()
    modifies w, w.sink`sent
    ensures w.Valid() && w.wire == old(w.wire) + (header + MAGIC + if body.Some? then body.value else [])
    ensures old(w.failed) ==> w.failed
    ensures old(w.failed) || w.sink.closed ==> w.sink.sent == old(w.sink.sent) && !ok
    ensures old(w.sink.sent) <= w.sink.sent <= w.wire
    ensures ok ==> body.Some? && w.buf == [] && !w.failed && w.sink.sent == w.wire
    ensures !w.failed && body.Some? ==> ok
    ensures w.sink.reliable && !w.sink.closed && !old(w.failed) ==> !w.failed
  {
    PutFrame(w, header, body);
    ok := body.Some?;
    if ok {
      ok := w.Flush();
    }
  }

  /** The sealed body as the outer encoder writes it; None if it refuses it. */
  method EncodeBlob(c: Cipher, sent: set<int>, t: Attempt) returns (body: Option<seq<Byte>>)
    requires Callable(c, t.call) && t.bodyEncodes
    ensures body.Some? <==> FateOf(c, t).Encoded?
    ensures PartOf(c, sent, t)
            == Encode(sent, t.call.header) + MAGIC + if body.Some? then body.value else []
    ensures body.Some? ==> body.value != []
  {
    hide Encodable;
    var blob := Blob(c, t.call);
    body := None;
    if |blob| < U64 && Encodable(BytesValue(blob)) {
      body := Some(EncodedBlob(c, SentAfter(sent, t.call.header), t.call));
    } else {
      assert Encode(sent, t.call.header) + MAGIC + [] == Encode(sent, t.call.header) + MAGIC;
    }
  }

  function EncodedBlob(c: Cipher, sent: set<int>, call: Call): (b: seq<Byte>)
    requires Encodable(call.body) && |call.nonce| == c.nonceSize
    requires |Blob(c, call)| < U64 && Encodable(BytesValue(Blob(c, call)))
    ensures b != []
  {
    Encode(sent, BytesValue(Blob(c, call)))
  }

  class ClientWriter {
    const w: BufWriter
    const cipher: Cipher
    var sent: set<int>

    ghost predicate Valid()
      reads this, w, w.sink
    {
      w.Valid()
    }

    constructor (sink: Sink, cipher: Cipher)
      ensures fresh(w) && w.sink == sink && this.cipher == cipher
      ensures sent == {} && !w.failed && w.wire == sink.sent && w.buf == [] && Valid()
    {
      this.cipher, this.sent := cipher, {};
      w := new BufWriter(sink);
    }

    /** A body that does not encode leaves no trace. One that the outer encoder refuses
        leaves its header and prefix in the buffer. One that is encoded is flushed with all
        that was there before it. */
    method WriteRequest(t: Attempt) returns (ok: bool)
      requires Possible(cipher, t) && Valid()
      modifies this, w, w.sink`sent
      ensures Valid()
      ensures FateOf(cipher, t).Unencoded? ==> !ok && unchanged(this) && unchanged(w) && unchanged(w.sink)
      ensures w.wire == old(w.wire) + PartOf(cipher, old(sent), t)
      ensures sent == SentBy(cipher, old(sent), t)
      ensures old(w.failed) ==> w.failed && w.sink.sent == old(w.sink.sent)
      ensures ok ==> !w.failed && FateOf(cipher, t).Encoded? && w.sink.sent == w.wire
      ensures !w.failed && FateOf(cipher, t).Encoded? ==> ok
      ensures w.sink.reliable && !w.sink.closed && !old(w.failed) ==> !w.failed
    {
      if !t.bodyEncodes {
        assert w.wire + [] == w.wire;
        return false;
      }
      hide PartOf, FateOf;
      SentByCallable(cipher, sent, t);
      var header := Encode(sent, t.call.header);
      var body := EncodeBlob(cipher, sent, t);
      sent := SentAfter(sent, t.call.header);
      ok := SendFrame(w, header, body);
    }

    /** Any run of writes. When one has succeeded, the connection has been given exactly the
        calls encoded whole, with the types of only those, if and only if the outer encoder
        refused no sealed body. */
    method WriteAll(tries: seq<Attempt>) returns (oks: seq<bool>)
      requires AllPossible(cipher, tries) && Valid() && w.wire == w.sink.sent
      modifies this, w, w.sink`sent
      ensures Valid() && |oks| == |tries|
      ensures w.wire == old(w.sink.sent) + Parts(cipher, old(sent), tries)
      ensures sent == SentIn(cipher, old(sent), tries)
      ensures !w.failed ==> forall i :: 0 <= i < |tries| ==> oks[i] == FateOf(cipher, tries[i]).Encoded?
      ensures w.sink.reliable && !w.sink.closed && !old(w.failed) ==> !w.failed
      ensures oks != [] && oks[|oks| - 1] ==>
                && w.sink.sent == old(w.sink.sent) + Parts(cipher, old(sent), tries)
                && (w.sink.sent == old(w.sink.sent) + Wire(cipher, old(sent), Written(cipher, tries))
                    <==> NoneOversized(cipher, tries))
      ensures !w.failed && NoneOversized(cipher, tries) ==>
                && w.sink.sent == old(w.sink.sent) + Wire(cipher, old(sent), Written(cipher, tries))
                && sent == SentOf(old(sent), Written(cipher, tries))
    {
      hide PartOf, SentBy, Parts, SentIn, Written, Wire, FateOf, NoneOversized, AllSendable;
      ghost var start, types := w.wire, sent;
      oks := [];
      PartsNone(cipher, start, types, tries);
      for i := 0 to |tries|
        invariant Valid() && |oks| == i
        invariant w.wire == start + Parts(cipher, types, tries[..i])
        invariant sent == SentIn(cipher, types, tries[..i])
        invariant !w.failed ==> forall j :: 0 <= j < i ==> oks[j] == FateOf(cipher, tries[j]).Encoded?
        invariant w.sink.reliable && !w.sink.closed && !old(w.failed) ==> !w.failed
        invariant i > 0 && oks[i - 1] ==> w.sink.sent == w.wire
        invariant !w.failed && (forall j :: 0 <= j < i ==> !FateOf(cipher, tries[j]).Oversized?) ==>
                    w.sink.sent == w.wire
      {
        PartsStep(cipher, start, types, tries, i);
        var ok := WriteRequest(tries[i]);
        oks := oks + [ok];
      }
      assert tries[..|tries|] == tries;
      AllOrNothingIff(cipher, types, tries);
      NoneOversizedIs(cipher, types, tries);
      SameAfter(start, Parts(cipher, types, tries), Wire(cipher, types, Written(cipher, tries)));
    }
  }

  lemma {:induction false} NoneOversizedIs(c: Cipher, sent: set<int>, tries: seq<Attempt>)
    ensures NoneOversized(c, tries) <==> forall i :: 0 <= i < |tries| ==> !FateOf(c, tries[i]).Oversized?
    ensures NoneOversized(c, tries) ==> SentIn(c, sent, tries) == SentOf(sent, Written(c, tries))
  {
    if NoneOversized(c, tries) {
      NoneOversizedRun(c, sent, tries);
    }
  }

  lemma {:induction false} SentByCallable(c: Cipher, sent: set<int>, t: Attempt)
    requires t.bodyEncodes && Callable(c, t.call)
    ensures !FateOf(c, t).Unencoded? && SentBy(c, sent, t) == SentAfter(sent, t.call.header)
    ensures Encodable(t.call.header)
  {
  }
}
