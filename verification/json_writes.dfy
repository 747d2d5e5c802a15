/** The writing side of the v3 JSON codecs, plain and crypto, server and client. */
module JsonWrites {
  import opened Automata
  import opened Gob
  import opened Aead
  import opened Writers
  import V2Crypto

  const NEWLINE: Byte := 10
  const MAGIC: seq<Byte> := V2Crypto.MAGIC

  /** What is to be written: the texts the header and the body marshal to, None where
      marshalling fails, and the nonce drawn for the body if it is to be sealed.  A nonce
      of the wrong size stands for a draw that failed. */
  datatype Message = Message(header: Option<seq<Byte>>, body: Option<seq<Byte>>, nonce: seq<Byte>)

  /** The encoder ends every text with a newline. */
  function Line(text: seq<Byte>): seq<Byte> {
    text + [NEWLINE]
  }

  /** The body text to put on the wire, sealed if there is a cipher; None if it does not
      marshal or no nonce could be drawn. */
  function Prepared(cipher: Option<Cipher>, m: Message): Option<seq<Byte>> {
    if m.body.None? || cipher.None? then m.body
    else if |m.nonce| != cipher.value.nonceSize then None
    else Some(Encrypt(cipher.value, m.nonce, m.body.value))
  }

  /** The gob message for a sealed body; None if gob refuses it for its size. */
  function Blob(sealed: seq<Byte>): Option<seq<Byte>> {
    if |sealed| < U64 && Encodable(BytesValue(sealed)) then Some(Encode({}, BytesValue(sealed))) else None
  }

  /** The bytes a message puts on the wire before it is complete or given up. */
  function Bytes(cipher: Option<Cipher>, m: Message): seq<Byte>
  {
    if m.header.None? then []
    else Line(m.header.value) + BodyBytes(cipher, m)
  }

  function BodyBytes(cipher: Option<Cipher>, m: Message): seq<Byte> {
    match Prepared(cipher, m)
    case None => []
    case Some(p) =>
      if cipher.None? then Line(p)
      else MAGIC + (if Blob(p).Some? then Blob(p).value else [])
  }

  /** The body encodes completely. */
  predicate BodyWhole(cipher: Option<Cipher>, m: Message) {
    var p := Prepared(cipher, m);
    p.Some? && (cipher.Some? ==> Blob(p.value).Some?)
  }

  predicate Whole(cipher: Option<Cipher>, m: Message) {
    m.header.Some? && BodyWhole(cipher, m)
  }

  function WireOf(cipher: Option<Cipher>, ms: seq<Message>): seq<Byte>
  {
    if ms == [] then []
    else WireOf(cipher, ms[..|ms| - 1]) + Bytes(cipher, ms[|ms| - 1])
  }

  /** The sealed or plain body; false if it does not encode or the socket fails. */
  method WriteBody(w: BufWriter, cipher: Option<Cipher>, m: Message) returns (ok: bool)
    requires w.Valid()
    modifies w, w.sink`sent
    ensures w.Valid() && w.wire <= old(w.wire) + BodyBytes(cipher, m)
    ensures !w.failed ==> w.wire == old(w.wire) + BodyBytes(cipher, m) && ok == BodyWhole(cipher, m)
    ensures w.failed ==> !ok
    ensures old(w.failed) ==> w.failed
    ensures old(w.failed) || w.sink.closed ==> w.sink.sent == old(w.sink.sent)
    ensures old(w.sink.sent) <= w.sink.sent
    ensures w.sink.reliable && !w.sink.closed && !old(w.failed) ==> !w.failed
    ensures !old(w.failed) && |old(w.buf)| + |BodyBytes(cipher, m)| <= BUFFER_SIZE ==>
              !w.failed && w.sink.sent == old(w.sink.sent) && |w.buf| == |old(w.buf)| + |BodyBytes(cipher, m)|
  {
    hide Line, Prepared, Blob;
    var p := Prepared(cipher, m);
    if p.None? {
      return false;
    }
    if cipher.None? {
      ok := w.Write(Line(p.value));
      return;
    }
    var blob := Blob(p.value);
    ok := w.Write(MAGIC);
    if !ok || blob.None? {
      return false;
    }
    ghost var before := w.wire;
    ok := w.Write(blob.value);
    assert w.wire == old(w.wire) + (MAGIC + blob.value);
  }

  /** Header, then body, into the buffered writer. */
  method WriteMessage(w: BufWriter, cipher: Option<Cipher>, m: Message) returns (ok: bool)
    requires w.Valid()
    modifies w, w.sink`sent
    ensures w.Valid() && w.wire <= old(w.wire) + Bytes(cipher, m)
    ensures !w.failed ==> w.wire == old(w.wire) + Bytes(cipher, m) && ok == Whole(cipher, m)
    ensures ok && w.sink.closed ==> w.buf != []
    ensures w.failed ==> !ok
    ensures old(w.failed) ==> w.failed
    ensures old(w.failed) || w.sink.closed ==> w.sink.sent == old(w.sink.sent)
    ensures old(w.sink.sent) <= w.sink.sent
    ensures w.sink.reliable && !w.sink.closed && !old(w.failed) ==> !w.failed
    ensures !old(w.failed) && |old(w.buf)| + |Bytes(cipher, m)| <= BUFFER_SIZE ==>
              !w.failed && w.sink.sent == old(w.sink.sent) && |w.buf| == |old(w.buf)| + |Bytes(cipher, m)|
  {
    hide BodyBytes, BodyWhole;
    if m.header.None? {
      return false;
    }
    ok := w.Write(Line(m.header.value));
    if ok {
      ok := WriteBody(w, cipher, m);
    }
  }

  /** The server codec's writing half. */
  class ServerWriter {
    const w: BufWriter
    const cipher: Option<Cipher>
    var closed: bool

    /** A codec that has failed or been closed never puts another byte on the wire. */
    ghost predicate Dead()
      reads this, w
    {
      w.failed || closed
    }

    ghost predicate Valid()
      reads this, w, w.sink
    {
      && w.Valid()
      && (closed ==> w.sink.closed)
      && (!Dead() ==> w.buf == [])
    }

    constructor (sink: Sink, cipher: Option<Cipher>)
      ensures fresh(w) && w.sink == sink && this.cipher == cipher
      ensures Valid() && !Dead() && w.wire == sink.sent
    {
      this.cipher, this.closed := cipher, false;
      w := new BufWriter(sink);
    }

    method Close()
      modifies `closed, w.sink`closed
      ensures closed && (old(closed) || w.sink.closed)
      ensures old(w.sink.closed) ==> w.sink.closed
    {
      if closed {
        return;
      }
      closed := true;
      w.sink.Close();
    }

    /** Encoding failed: what is buffered goes out, and then the connection is closed. */
    method GiveUp()
      requires w.Valid()
      requires closed ==> w.sink.closed
      modifies `closed, w`buf, w`failed, w.sink
      ensures Valid() && Dead()
      ensures old(w.failed) || old(w.sink.closed) ==> w.sink.sent == old(w.sink.sent)
      ensures old(w.sink.sent) <= w.sink.sent && w.wire == old(w.wire)
      ensures old(w.failed) ==> w.failed
      ensures old(w.sink.closed) ==> w.sink.closed
      ensures w.sink.reliable && !old(w.sink.closed) && !old(w.failed) && !old(closed) ==>
                w.sink.sent == w.wire && w.sink.closed && closed
    {
      var flushed := w.Flush();
      if flushed {
        Close();
      }
    }

    /** Puts `part` on the wire: a whole frame, or a part of one and then the codec is
        dead; a dead codec puts nothing. */
    method WriteResponse(m: Message) returns (ok: bool, ghost part: seq<Byte>)
      requires Valid()
      modifies this, w, w.sink
      ensures Valid() && ok == !Dead()
      ensures w.sink.sent == old(w.sink.sent) + part && part <= Bytes(cipher, m)
      ensures ok ==> Whole(cipher, m) && part == Bytes(cipher, m)
      ensures old(Dead()) ==> !ok && part == []
      ensures !old(Dead()) && Whole(cipher, m) && !ok ==> w.failed
      ensures ok ==> w.sink.closed == old(w.sink.closed)
      ensures old(w.sink.closed) ==> w.sink.closed
      ensures w.sink.reliable && !old(w.sink.closed) && !old(Dead()) ==>
                part == Bytes(cipher, m) && ok == Whole(cipher, m) && w.sink.closed == !ok
    {
      ok := Attempt(m);
      part := w.sink.sent[|old(w.sink.sent)|..];
      assert w.sink.sent == old(w.sink.sent) + part;
      if !old(Dead()) {
        PartOfFrame(old(w.sink.sent), part, Bytes(cipher, m));
      }
    }

    method Attempt(m: Message) returns (ok: bool)
      requires Valid()
      modifies this, w, w.sink
      ensures Valid() && ok == !Dead()
      ensures old(Dead()) ==> Dead() && w.sink.sent == old(w.sink.sent)
      ensures old(w.sink.sent) <= w.sink.sent
      ensures !old(Dead()) ==> w.sink.sent <= old(w.sink.sent) + Bytes(cipher, m)
      ensures !old(Dead()) && ok ==> Whole(cipher, m) && w.sink.sent == old(w.sink.sent) + Bytes(cipher, m)
      ensures !old(Dead()) && Whole(cipher, m) && !ok ==> w.failed
      ensures ok ==> w.sink.closed == old(w.sink.closed)
      ensures old(w.sink.closed) ==> w.sink.closed
      ensures w.sink.reliable && !old(w.sink.closed) && !old(Dead()) ==>
                && w.sink.sent == old(w.sink.sent) + Bytes(cipher, m)
                && ok == Whole(cipher, m) && w.sink.closed == !ok
    {
      hide Bytes, Whole;
      ok := WriteMessage(w, cipher, m);
      if ok {
        ok := w.Flush();
      } else {
        GiveUp();
      }
    }

    /** Any run of responses, with any mix of encoding and socket failures: the wire is
        the frames of the first `k`, then at most a part of the next one; whatever is
        attempted after that adds nothing. */
    method Serve(ms: seq<Message>) returns (k: nat, ghost part: seq<Byte>)
      requires Valid() && !Dead()
      modifies this, w, w.sink
      ensures Valid() && k <= |ms| && (Dead() <==> k < |ms|)
      ensures WholeOnes(cipher, ms[..k]) == ms[..k]
      ensures w.sink.sent == old(w.sink.sent) + WireOf(cipher, ms[..k]) + part
      ensures part <= if k < |ms| then Bytes(cipher, ms[k]) else []
      ensures w.sink.reliable && !old(w.sink.closed) && k < |ms| ==>
                !Whole(cipher, ms[k]) && part == Bytes(cipher, ms[k]) && w.sink.closed
    {
      hide Bytes, Whole;
      k, part := 0, [];
      ghost var start, done := w.sink.sent, w.sink.sent;
      WireNone(cipher, ms, start);
      for i := 0 to |ms|
        invariant Valid() && k <= i && (Dead() <==> k < i)
        invariant WholeOnes(cipher, ms[..k]) == ms[..k]
        invariant done == start + WireOf(cipher, ms[..k])
        invariant w.sink.sent == done + part
        invariant part <= if k < i then Bytes(cipher, ms[k]) else []
        invariant k == i ==> w.sink.closed == old(w.sink.closed)
        invariant w.sink.reliable && !old(w.sink.closed) && k < i ==>
                    !Whole(cipher, ms[k]) && part == Bytes(cipher, ms[k]) && w.sink.closed
      {
        var ok, more := WriteResponse(ms[i]);
        if ok {
          WireStep(cipher, ms, start, k);
          done := w.sink.sent;
          k := k + 1;
        } else if k == i {
          part := more;
        }
      }
    }
  }

  lemma {:induction false} WireNone(cipher: Option<Cipher>, ms: seq<Message>, start: seq<Byte>)
    ensures start == start + WireOf(cipher, ms[..0])
  {
  }

  lemma {:induction false} WireStep(cipher: Option<Cipher>, ms: seq<Message>, start: seq<Byte>, k: nat)
    requires k < |ms|
    ensures Whole(cipher, ms[k]) && WholeOnes(cipher, ms[..k]) == ms[..k] ==>
              WholeOnes(cipher, ms[..k + 1]) == ms[..k + 1]
    ensures start + WireOf(cipher, ms[..k + 1]) == start + WireOf(cipher, ms[..k]) + Bytes(cipher, ms[k])
  {
    hide Bytes, Whole;
    assert ms[..k + 1][..k] == ms[..k];
  }

  /** The client codec's writing half: on an encoding failure it returns without
      flushing and without closing, leaving in the buffer what was already encoded. */
  class ClientWriter {
    const w: BufWriter
    const cipher: Option<Cipher>

    ghost predicate Valid()
      reads this, w, w.sink
    {
      w.Valid()
    }

    constructor (sink: Sink, cipher: Option<Cipher>)
      ensures fresh(w) && w.sink == sink && this.cipher == cipher
      ensures Valid() && !w.failed && w.wire == sink.sent
    {
      this.cipher := cipher;
      w := new BufWriter(sink);
    }

    method WriteRequest(m: Message) returns (ok: bool)
      requires Valid()
      modifies w, w.sink`sent
      ensures Valid() && (old(w.failed) ==> w.failed)
      ensures !w.failed ==> w.wire == old(w.wire) + Bytes(cipher, m) && ok == Whole(cipher, m)
      ensures ok ==> w.buf == [] && !w.failed && w.sink.sent == w.wire
      ensures w.sink.reliable && !w.sink.closed && !old(w.failed) ==> !w.failed
      ensures !ok && !old(w.failed) && !Whole(cipher, m) && |old(w.buf)| + |Bytes(cipher, m)| <= 4096 ==>
                w.sink.sent == old(w.sink.sent) && |w.buf| == |old(w.buf)| + |Bytes(cipher, m)|
    {
      hide Bytes, Whole;
      ok := WriteMessage(w, cipher, m);
      if ok {
        ok := w.Flush();
      }
    }

    /** Any run of requests. When one has succeeded, the connection has been given all bytes
        encoded up to then; those are the frames of the requests that succeeded if and only
        if no request failed after its header was encoded. */
    method WriteAll(ms: seq<Message>) returns (oks: seq<bool>)
      requires Valid() && w.wire == w.sink.sent
      modifies w, w.sink`sent
      ensures Valid() && |oks| == |ms|
      ensures !w.failed ==> forall i :: 0 <= i < |ms| ==> oks[i] == Whole(cipher, ms[i])
      ensures !w.failed ==> w.wire == old(w.sink.sent) + WireOf(cipher, ms)
      ensures w.sink.reliable && !w.sink.closed && !old(w.failed) ==> !w.failed
      ensures oks != [] && oks[|oks| - 1] ==>
                && w.sink.sent == old(w.sink.sent) + WireOf(cipher, ms)
                && (w.sink.sent == old(w.sink.sent) + WireOf(cipher, WholeOnes(cipher, ms))
                    <==> forall i :: 0 <= i < |ms| ==> ms[i].header.Some? ==> Whole(cipher, ms[i]))
    {
      hide Bytes, Whole, Stranded, WholeOnes;
      oks := [];
      ghost var start := w.wire;
      WireNone(cipher, ms, start);
      for i := 0 to |ms|
        invariant Valid() && |oks| == i
        invariant !w.failed ==> forall j :: 0 <= j < i ==> oks[j] == Whole(cipher, ms[j])
        invariant !w.failed ==> w.wire == start + WireOf(cipher, ms[..i])
        invariant w.sink.reliable && !w.sink.closed && !old(w.failed) ==> !w.failed
        invariant i > 0 && oks[i - 1] ==> !w.failed && w.sink.sent == w.wire
      {
        WireStep(cipher, ms, start, i);
        var ok := WriteRequest(ms[i]);
        oks := oks + [ok];
      }
      assert ms[..|ms|] == ms;
      ClientWireIffNoneStranded(cipher, ms);
      SameAfter(start, WireOf(cipher, ms), WireOf(cipher, WholeOnes(cipher, ms)));
    }
  }

  /** The requests that encode completely. */
  function WholeOnes(cipher: Option<Cipher>, ms: seq<Message>): seq<Message> {
    if ms == [] then []
    else
      var front := WholeOnes(cipher, ms[..|ms| - 1]);
      if Whole(cipher, ms[|ms| - 1]) then front + [ms[|ms| - 1]] else front
  }

  /** Bytes queued by requests that failed after their header was encoded. */
  function Stranded(cipher: Option<Cipher>, ms: seq<Message>): nat {
    if ms == [] then 0
    else
      var last := ms[|ms| - 1];
      Stranded(cipher, ms[..|ms| - 1]) + if Whole(cipher, last) then 0 else |Bytes(cipher, last)|
  }

  lemma {:induction false} StrandedGap(cipher: Option<Cipher>, ms: seq<Message>)
    ensures |WireOf(cipher, ms)| == |WireOf(cipher, WholeOnes(cipher, ms))| + Stranded(cipher, ms)
    ensures Stranded(cipher, ms) == 0 ==> WireOf(cipher, ms) == WireOf(cipher, WholeOnes(cipher, ms))
  {
    hide Bytes, Whole;
    if ms != [] {
      var front, last := ms[..|ms| - 1], ms[|ms| - 1];
      StrandedGap(cipher, front);
      var ws := WholeOnes(cipher, front);
      assert (ws + [last])[..|ws|] == ws;
    }
  }

  lemma {:induction false} HeaderShows(cipher: Option<Cipher>, m: Message)
    ensures Bytes(cipher, m) != [] <==> m.header.Some?
    ensures Whole(cipher, m) ==> m.header.Some?
  {
    hide BodyBytes, BodyWhole;
  }

  lemma {:induction false} StrandedNone(cipher: Option<Cipher>, ms: seq<Message>)
    ensures Stranded(cipher, ms) == 0
            <==> forall i :: 0 <= i < |ms| ==> ms[i].header.Some? ==> Whole(cipher, ms[i])
  {
    hide Bytes, Whole;
    if ms != [] {
      var front, last := ms[..|ms| - 1], ms[|ms| - 1];
      StrandedNone(cipher, front);
      HeaderShows(cipher, last);
      assert forall i :: 0 <= i < |front| ==> ms[i] == front[i];
    }
  }

  /** All bytes encoded in a run are the frames of the requests that succeeded exactly when
      no request failed after its header was encoded. */
  lemma {:induction false} ClientWireIffNoneStranded(cipher: Option<Cipher>, ms: seq<Message>)
    ensures WireOf(cipher, ms) == WireOf(cipher, WholeOnes(cipher, ms))
            <==> forall i :: 0 <= i < |ms| ==> ms[i].header.Some? ==> Whole(cipher, ms[i])
  {
    StrandedGap(cipher, ms);
    StrandedNone(cipher, ms);
  }

  /** Such a run: a request whose body does not encode, then one that does. The second
      flushes the first one's header to the peer, in front of its own frame. */
  lemma {:induction false} HeaderStranded(cipher: Option<Cipher>, header: seq<Byte>, nonce: seq<Byte>, m: Message)
    requires Whole(cipher, m)
    ensures var failed := Message(Some(header), None, nonce);
            && !Whole(cipher, failed) && WholeOnes(cipher, [failed, m]) == [m]
            && WireOf(cipher, [failed, m]) == Line(header) + WireOf(cipher, [m])
            && WireOf(cipher, [failed, m]) != WireOf(cipher, [m])
  {
    var failed := Message(Some(header), None, nonce);
    var ms := [failed, m];
    assert ms[..1] == [failed] && [failed][..0] == [] && [m][..0] == [];
    assert WireOf(cipher, [failed]) == Line(header) && WireOf(cipher, [m]) == Bytes(cipher, m);
    assert WholeOnes(cipher, [failed]) == [];
    assert |WireOf(cipher, ms)| > |WireOf(cipher, [m])|;
  }
}
