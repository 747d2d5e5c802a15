/** The v2 crypto server codec, writing side. */
module V2Server {
  import opened Automata
  import opened Gob
  import opened Aead
  import opened Writers
  import opened V2Crypto
  import opened V2Client

  class ServerWriter {
    const w: BufWriter
    const cipher: Cipher
    var sent: set<int>
    var closed: bool

    ghost predicate Valid()
      reads this, w, w.sink
    {
      && w.Valid() && (closed ==> w.sink.closed)
      && (!closed ==> !w.failed && w.buf == [])
    }

    constructor (sink: Sink, cipher: Cipher)
      ensures fresh(w) && w.sink == sink && this.cipher == cipher
      ensures sent == {} && !closed && !w.failed && w.wire == sink.sent && Valid()
    {
      this.cipher, this.sent, this.closed := cipher, {}, false;
      w := new BufWriter(sink);
    }

    method Close()
      requires w.Valid() && (closed ==> w.sink.closed)
      modifies `closed, w.sink`closed
      ensures Valid() && closed && w.sink.closed
    {
      if closed {
        return;
      }
      closed := true;
      w.sink.Close();
    }

    /** Body first, then header, prefix and sealed body; a failure closes the codec.  An
        open codec puts a whole frame on the wire, or a part of one and is closed; a closed
        one puts nothing. */
    method WriteResponse(t: Attempt) returns (ok: bool, ghost part: seq<Byte>)
      requires Possible(cipher, t) && Valid()
      modifies this, w, w.sink
      ensures Valid() && ok == !closed
      ensures old(closed) ==> closed && part == []
      ensures w.sink.sent == old(w.sink.sent) + part && part <= PartOf(cipher, old(sent), t)
      ensures ok ==> FateOf(cipher, t).Encoded? && part == PartOf(cipher, old(sent), t)
      ensures ok ==> sent == SentBy(cipher, old(sent), t) && w.sink.closed == old(w.sink.closed)
      ensures w.sink.reliable && !old(w.sink.closed) && !old(closed) && FateOf(cipher, t).Encoded? ==> ok
    {
      ok := Attempted(t);
      part := w.sink.sent[|old(w.sink.sent)|..];
      assert w.sink.sent == old(w.sink.sent) + part;
      if !old(closed) {
        PartOfFrame(old(w.sink.sent), part, PartOf(cipher, old(sent), t));
      }
      if !ok {
        Close();
      }
    }

    method Attempted(t: Attempt) returns (ok: bool)
      requires Possible(cipher, t) && Valid()
      modifies this, w, w.sink`sent
      ensures w.Valid() && closed == old(closed) && (ok ==> w.buf == [] && !w.failed)
      ensures old(closed) ==> !ok && w.sink.sent == old(w.sink.sent)
      ensures old(w.sink.sent) <= w.sink.sent
      ensures !old(closed) ==> w.sink.sent <= old(w.sink.sent) + PartOf(cipher, old(sent), t)
      ensures ok ==> FateOf(cipher, t).Encoded? && w.sink.sent == old(w.sink.sent) + PartOf(cipher, old(sent), t)
      ensures ok ==> sent == SentBy(cipher, old(sent), t)
      ensures w.sink.reliable && !w.sink.closed && !old(closed) && FateOf(cipher, t).Encoded? ==> ok
    {
      if !t.bodyEncodes {
        return false;
      }
      hide PartOf, FateOf, Encode, SentAfter, SentBy, Callable, Sendable, Blob, Encodable;
      ghost var start, whole := w.sink.sent, PartOf(cipher, sent, t);
      assert !closed ==> start + w.buf == start;
      SentByCallable(cipher, sent, t);
      var header := Encode(sent, t.call.header);
      var body := EncodeBlob(cipher, sent, t);
      sent := SentAfter(sent, t.call.header);
      ok := SendFrame(w, header, body);
      assert !closed ==> w.wire == start + whole;
    }

    /** Any run of responses: the wire is the frames of the first `k`, then at most a part
        of the next one; whatever is attempted after that adds nothing. */
    method Serve(tries: seq<Attempt>) returns (k: nat, ghost part: seq<Byte>)
      requires AllPossible(cipher, tries) && Valid() && !closed
      modifies this, w, w.sink
      ensures Valid() && k <= |tries| && (closed <==> k < |tries|)
      ensures forall i :: 0 <= i < k ==> FateOf(cipher, tries[i]).Encoded?
      ensures w.sink.sent == old(w.sink.sent) + Wire(cipher, old(sent), Written(cipher, tries[..k])) + part
      ensures part <= if k < |tries| then PartOf(cipher, SentIn(cipher, old(sent), tries[..k]), tries[k]) else []
      ensures w.sink.reliable && !old(w.sink.closed) && k < |tries| ==> !FateOf(cipher, tries[k]).Encoded?
    {
      hide PartOf, SentBy, Parts, SentIn, Written, Wire, FateOf, AllSendable, Valid;
      k, part := 0, [];
      ghost var types, start, done := sent, w.sink.sent, w.sink.sent;
      PartsNone(cipher, start, types, tries);
      for i := 0 to |tries|
        invariant Valid() && k <= i && (closed <==> k < i)
        invariant forall j :: 0 <= j < k ==> FateOf(cipher, tries[j]).Encoded?
        invariant !closed ==> sent == SentIn(cipher, types, tries[..k]) && w.sink.closed == old(w.sink.closed)
        invariant done == start + Parts(cipher, types, tries[..k])
        invariant w.sink.sent == done + part
        invariant part <= if k < i then PartOf(cipher, SentIn(cipher, types, tries[..k]), tries[k]) else []
        invariant w.sink.reliable && !old(w.sink.closed) && k < i ==> !FateOf(cipher, tries[k]).Encoded?
      {
        ghost var wasClosed := closed;
        var ok, more := WriteResponse(tries[i]);
        assert wasClosed ==> more == [];
        if ok {
          PartsStep(cipher, start, types, tries, k);
          done := w.sink.sent;
          k := k + 1;
        } else if k == i {
          part := more;
        }
      }
      AllEncodedRun(cipher, types, tries[..k]);
    }
  }

  lemma {:induction false} AllEncodedRun(c: Cipher, sent: set<int>, tries: seq<Attempt>)
    requires forall i :: 0 <= i < |tries| ==> FateOf(c, tries[i]).Encoded?
    ensures Parts(c, sent, tries) == Wire(c, sent, Written(c, tries))
  {
    NoneOversizedRun(c, sent, tries);
  }
}
