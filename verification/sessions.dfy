/** Whole connections: a client writes, the server sniffs, selects a codec and reads. */
module Sessions {
  import opened Automata
  import opened Aead
  import opened Streams
  import opened Writers
  import opened Negotiate
  import Gob
  import V2Crypto
  import V2Client
  import JsonText
  import JsonDecoder
  import JsonCodec
  import JsonCrypto
  import JsonWrites
  import JsonHandOff
  import JsonCryptoReader

  // ------------------------------------------------------------------ legacy

  method ServeLegacy(conn: Conn, c: Cipher, n: nat)
    returns (rs: seq<(V2Crypto.Decoded, V2Crypto.BodyResult)>, known: set<int>)
    modifies conn
    ensures var run := V2Crypto.ReadRun(c, {}, old(conn.Pending()), n); rs == run.result && known == run.known
  {
    hide V2Crypto.ReadRun;
    var server := new V2Crypto.ServerReader(conn, c);
    rs := server.Serve(n);
    known := server.known;
  }

  /** The legacy codec behind the sniffing layer returns, on every stream, what it returns
      when built directly on the connection. */
  method SniffedEqualsDirect(input: seq<Byte>, c: Cipher, n: nat)
    returns (kind: Kind, sniffed: seq<(V2Crypto.Decoded, V2Crypto.BodyResult)>,
             direct: seq<(V2Crypto.Decoded, V2Crypto.BodyResult)>)
    ensures kind == GobSealed <==> !IsJson(input)
    ensures sniffed == direct && |direct| == n
  {
    hide V2Crypto.ReadRun, IsJson;
    var behind := new Conn(input, true);
    var plain := new Conn(input, false);
    kind := Accept(behind, true);
    var known, known';
    sniffed, known := ServeLegacy(behind, c, n);
    direct, known' := ServeLegacy(plain, c, n);
    RunLength(c, {}, input, n);
  }

  lemma {:induction false} RunLength(c: Cipher, known: set<int>, s: seq<Byte>, n: nat)
    ensures |V2Crypto.ReadRun(c, known, s, n).result| == n
    decreases n
  {
    if n > 0 {
      var h := V2Crypto.GobDecode(known, s);
      var b := V2Crypto.ReadBody(c, h.known, h.rest);
      RunLength(c, b.known, b.rest, n - 1);
    }
  }

  /** How many of a run's writes succeeded. */
  function Successes(oks: seq<bool>): nat {
    if oks == [] then 0 else (if oks[0] then 1 else 0) + Successes(oks[1..])
  }

  lemma {:induction false} SuccessesAreWritten(c: Cipher, tries: seq<V2Client.Attempt>, oks: seq<bool>)
    requires |oks| == |tries|
    requires forall i :: 0 <= i < |oks| ==> oks[i] == V2Client.FateOf(c, tries[i]).Encoded?
    ensures Successes(oks) == |V2Client.Written(c, tries)|
    decreases |tries|
  {
    hide V2Client.FateOf;
    if tries != [] {
      SuccessesAreWritten(c, tries[1..], oks[1..]);
    }
  }

  /** A burst from a legacy client, some of its bodies failing to encode: on a socket that
      works, the server selects the legacy codec, sees exactly the calls that were written,
      and knows exactly the types that were sent. */
  method Legacy(c: Cipher, tries: seq<V2Client.Attempt>, sink: Sink)
    returns (kind: Kind, rs: seq<(V2Crypto.Decoded, V2Crypto.BodyResult)>,
             types: set<int>, known: set<int>, complete: bool)
    requires Lawful(c) && V2Client.AllPossible(c, tries) && sink.sent == [] && !sink.closed
    modifies sink`sent
    ensures sink.reliable ==> complete
    ensures complete && V2Client.NoneOversized(c, tries) ==>
              && kind == ClientKind(false, true) && known == types
              && rs == V2Crypto.Expected(V2Client.Written(c, tries))
  {
    hide V2Crypto.ReadRun, V2Crypto.Wire, V2Crypto.Expected, V2Crypto.AllSendable;
    hide V2Client.Written, V2Client.FateOf, V2Client.Parts, V2Client.SentIn, V2Client.NoneOversized, IsJson;
    var client := new V2Client.ClientWriter(sink, c);
    var oks := client.WriteAll(tries);
    types, complete := client.sent, !client.w.failed;
    var conn := new Conn(sink.sent, true);
    kind := Accept(conn, true);
    rs, known := ServeLegacy(conn, c, Successes(oks));
    if complete && V2Client.NoneOversized(c, tries) {
      ghost var calls := V2Client.Written(c, tries);
      SuccessesAreWritten(c, tries, oks);
      V2Crypto.PipelinedRun(c, {}, calls, []);
      assert [] + V2Crypto.Wire(c, {}, calls) == V2Crypto.Wire(c, {}, calls) + [];
      LegacyOpens(c, tries, V2Crypto.Wire(c, {}, calls) + []);
    }
  }

  /** The stream of such a client never starts like JSON. */
  lemma {:induction false} LegacyOpens(c: Cipher, tries: seq<V2Client.Attempt>, wire: seq<Byte>)
    requires wire == V2Crypto.Wire(c, {}, V2Client.Written(c, tries)) + []
    ensures !IsJson(wire)
    decreases |tries|
  {
    hide IsJson, Gob.Encode, Gob.Encodable;
    var calls := V2Client.Written(c, tries);
    if tries == [] {
      EmptyIsNotJson(wire);
    } else if V2Client.FateOf(c, tries[0]).Encoded? {
      var h := calls[0].header;
      var sent := Gob.SentAfter({}, h);
      var more := V2Crypto.MAGIC + Gob.Encode(sent, Gob.BytesValue(V2Crypto.Blob(c, calls[0])))
                  + V2Crypto.Wire(c, sent, calls[1..]);
      assert wire == Gob.Encode({}, h) + more;
      FreshGobIsNotJson(h, more);
    } else {
      assert calls == V2Client.Written(c, tries[1..]);
      LegacyOpens(c, tries[1..], wire);
    }
  }

  lemma {:induction false} EmptyIsNotJson(s: seq<Byte>)
    requires s == []
    ensures !IsJson(s)
  {
  }

  // -------------------------------------------------------------- plain JSON

  /** The texts a run of messages puts on the wire, header and body in turn. */
  function Texts(ms: seq<JsonWrites.Message>): seq<seq<Byte>> {
    if ms == [] then []
    else
      var m := ms[|ms| - 1];
      Texts(ms[..|ms| - 1]) + (if m.header.Some? && m.body.Some? then [m.header.value, m.body.value] else [])
  }

  lemma {:induction false} LinesSplit(s: seq<seq<Byte>>, t: seq<seq<Byte>>)
    ensures JsonCodec.Lines(s + t) == JsonCodec.Lines(s) + JsonCodec.Lines(t)
    decreases |s|
  {
    if s == [] {
      assert s + t == t;
    } else {
      assert (s + t)[0] == s[0] && (s + t)[1..] == s[1..] + t;
      LinesSplit(s[1..], t);
    }
  }

  lemma {:induction false} LinesOfTwo(u: seq<Byte>, v: seq<Byte>)
    ensures JsonCodec.Lines([u, v]) == JsonWrites.Line(u) + JsonWrites.Line(v)
  {
    assert [u, v][1..] == [v] && [v][1..] == [];
    assert JsonCodec.Lines([v]) == v + [JsonText.NEWLINE] + [];
  }

  /** What complete messages put on the wire is their texts, a line each. */
  lemma {:induction false} WireIsLines(ms: seq<JsonWrites.Message>)
    requires forall i :: 0 <= i < |ms| ==> JsonWrites.Whole(None, ms[i])
    ensures JsonWrites.WireOf(None, ms) == JsonCodec.Lines(Texts(ms)) && |Texts(ms)| == 2 * |ms|
  {
    if ms != [] {
      var front, m := ms[..|ms| - 1], ms[|ms| - 1];
      WireIsLines(front);
      LinesSplit(Texts(front), [m.header.value, m.body.value]);
      LinesOfTwo(m.header.value, m.body.value);
    }
  }

  /** A client writes messages that all encode; `complete` if no write failed. */
  method WriteJson(cipher: Option<Cipher>, ms: seq<JsonWrites.Message>, sink: Sink) returns (complete: bool)
    requires forall i :: 0 <= i < |ms| ==> JsonWrites.Whole(cipher, ms[i])
    requires sink.sent == [] && !sink.closed && ms != []
    modifies sink`sent
    ensures sink.reliable ==> complete
    ensures complete ==> sink.sent == JsonWrites.WireOf(cipher, ms)
  {
    hide JsonWrites.Bytes, JsonWrites.Whole, JsonWrites.WireOf, JsonWrites.WholeOnes;
    var client := new JsonWrites.ClientWriter(sink, cipher);
    var oks := client.WriteAll(ms);
    complete := !client.w.failed;
    assert complete ==> oks[|oks| - 1] == JsonWrites.Whole(cipher, ms[|ms| - 1]);
    assert [] + JsonWrites.WireOf(cipher, ms) == JsonWrites.WireOf(cipher, ms);
  }

  /** What each of `texts` becomes for the caller that takes it. */
  predicate AllTaken(targets: seq<JsonCodec.Target>, texts: seq<seq<Byte>>, results: seq<JsonCodec.BodyResult>) {
    && |results| == |texts| == |targets|
    && forall i :: 0 <= i < |texts| ==>
         results[i] == match targets[i]
                       case Discard => JsonCodec.Discarded
                       case Into(accepts) =>
                         if accepts(texts[i]) then JsonCodec.Delivered(texts[i]) else JsonCodec.Mismatch
  }

  /** Requests that encode and fit, the first header being a non-empty compact object. */
  ghost predicate Ready(maxBody: nat, ms: seq<JsonWrites.Message>) {
    && (forall i :: 0 <= i < |ms| ==> JsonWrites.Whole(None, ms[i]))
    && JsonCodec.AllFit(maxBody, Texts(ms))
    && ms != [] && ms[0].header.Some? && Compact(ms[0].header.value) && |ms[0].header.value| > 2
  }

  /** A burst of requests in plain JSON: whatever mix of discards and mismatches its reader
      makes, and however the bytes arrive, each text is taken for what it is. */
  method Plain(ms: seq<JsonWrites.Message>, targets: seq<JsonCodec.Target>, maxBody: int, sink: Sink)
    returns (kind: Kind, results: seq<JsonCodec.BodyResult>, complete: bool)
    requires Ready(JsonCodec.Limit(maxBody), ms) && |targets| == 2 * |ms|
    requires sink.sent == [] && !sink.closed
    modifies sink`sent
    ensures sink.reliable ==> complete
    ensures complete ==> kind == ClientKind(true, false)
    ensures complete ==> AllTaken(targets, Texts(ms), results)
  {
    hide JsonCodec.IsRun, JsonWrites.Whole, Compact, AllTaken, JsonCodec.AllFit, IsJson;
    complete := WriteJson(None, ms, sink);
    var conn := new Conn(sink.sent, true);
    kind := Accept(conn, false);
    var reader := new JsonCodec.Reader(conn, maxBody);
    ghost var rxs, rs;
    results, rxs, rs := reader.Serve(targets);
    if complete {
      WireIsLines(ms);
      PlainOpens(ms);
      AllAreTaken(reader.maxBody, Texts(ms), targets, rxs, rs, results);
    }
  }

  /** A run over the lines of `texts` takes every one of them. */
  lemma {:induction false} AllAreTaken(maxBody: nat, texts: seq<seq<Byte>>, targets: seq<JsonCodec.Target>,
                                       rxs: seq<JsonDecoder.Rx>, rs: seq<JsonText.Outcome>,
                                       results: seq<JsonCodec.BodyResult>)
    requires JsonCodec.AllFit(maxBody, texts) && |targets| == |texts|
    requires JsonCodec.IsRun(maxBody, rxs, rs) && |rs| == |results| <= |targets|
    requires rxs[0] == JsonDecoder.Fresh(JsonCodec.Lines(texts))
    requires forall i :: 0 <= i < |rs| ==> results[i] == JsonCodec.Unmarshal(targets[i], rs[i])
    requires |rs| < |targets| ==> rs != [] && !rs[|rs| - 1].Text?
    ensures AllTaken(targets, texts, results)
  {
    hide JsonDecoder.DecodeStep, JsonText.Need;
    assert rxs[0].All() == [] + (JsonCodec.Lines(texts) + []);
    JsonCodec.RunRecovers(maxBody, rxs, rs, [], texts, [], |rs|);
  }

  lemma {:induction false} PlainOpens(ms: seq<JsonWrites.Message>)
    requires (forall i :: 0 <= i < |ms| ==> JsonWrites.Whole(None, ms[i]))
    requires ms != [] && ms[0].header.Some? && Compact(ms[0].header.value) && |ms[0].header.value| > 2
    ensures IsJson(JsonCodec.Lines(Texts(ms)))
  {
    hide IsJson;
    FirstText(ms);
    var h, rest := ms[0].header.value, Texts(ms)[1..];
    var more := [JsonText.NEWLINE] + JsonCodec.Lines(rest);
    assert JsonCodec.Lines(Texts(ms)) == h + more;
    CompactIsJsonIff(h, more);
  }

  lemma {:induction false} FirstText(ms: seq<JsonWrites.Message>)
    requires ms != [] && forall i :: 0 <= i < |ms| ==> JsonWrites.Whole(None, ms[i])
    ensures |Texts(ms)| >= 2 && ms[0].header.Some? && Texts(ms)[0] == ms[0].header.value
  {
    if |ms| == 1 {
      assert Texts(ms[..0]) == [];
    } else {
      FirstText(ms[..|ms| - 1]);
    }
  }

  // -------------------------------------------------------------- sealed JSON

  /** The frame of a request that encodes. */
  function FrameOf(c: Cipher, m: JsonWrites.Message): JsonHandOff.Frame
    requires m.header.Some? && m.body.Some? && |m.nonce| == c.nonceSize
  {
    JsonHandOff.Frame(m.header.value, Encrypt(c, m.nonce, m.body.value))
  }

  predicate SealedFits(maxBody: nat, c: Cipher, m: JsonWrites.Message) {
    && m.header.Some? && m.body.Some? && |m.nonce| == c.nonceSize
    && JsonHandOff.Fits(maxBody, FrameOf(c, m))
  }

  lemma {:induction false} SealedBytes(maxBody: nat, c: Cipher, m: JsonWrites.Message)
    requires SealedFits(maxBody, c, m)
    ensures JsonWrites.Whole(Some(c), m)
    ensures JsonWrites.Bytes(Some(c), m) == JsonHandOff.Bytes(FrameOf(c, m))
  {
    hide JsonWrites.Blob, JsonText.IsObject;
    var blob := JsonCrypto.BlobBytes(FrameOf(c, m).sealed);
    var h := m.header.value;
    assert h + [JsonWrites.NEWLINE] + (JsonWrites.MAGIC + blob)
           == h + ([JsonWrites.NEWLINE] + (JsonWrites.MAGIC + blob));
  }

  /** One request goes out and arrives. */
  method Send(client: JsonWrites.ClientWriter, conn: Conn, ghost maxBody: nat, m: JsonWrites.Message) returns (ok: bool)
    requires client.Valid() && !client.w.failed && client.w.buf == []
    requires client.cipher.Some? && SealedFits(maxBody, client.cipher.value, m)
    modifies client.w, client.w.sink`sent, conn
    ensures client.w.sink.reliable && !client.w.sink.closed ==> ok
    ensures ok ==> client.Valid() && !client.w.failed && client.w.buf == []
    ensures ok ==> conn.Pending() == old(conn.Pending()) + JsonHandOff.Bytes(FrameOf(client.cipher.value, m))
  {
    hide JsonWrites.Bytes, JsonWrites.Whole, JsonHandOff.Bytes, JsonHandOff.Fits;
    ghost var c := client.cipher.value;
    SealedBytes(maxBody, c, m);
    var before := client.w.sink.sent;
    assert client.w.wire == before;
    ok := client.WriteRequest(m);
    if ok {
      assert client.w.sink.sent == before + JsonHandOff.Bytes(FrameOf(c, m));
      conn.Arrive(client.w.sink.sent[|before|..]);
    }
  }

  /** What the caller of a body read gets for a request. */
  function Taken(m: JsonWrites.Message, accepts: seq<Byte> -> bool): JsonHandOff.BodyResult {
    match m.body
    case None => JsonHandOff.NotBytes
    case Some(text) => if accepts(text) then JsonHandOff.Delivered(text) else JsonHandOff.Mismatch
  }

  method Receive(reader: JsonCryptoReader.Reader, c: Cipher, m: JsonWrites.Message, accepts: seq<Byte> -> bool,
                 ahead: nat) returns (res: JsonHandOff.BodyResult)
    requires Lawful(c) && SealedFits(reader.maxBody, c, m)
    requires reader.Valid() && reader.error.None?
    requires reader.State() == JsonDecoder.Fresh(JsonHandOff.Bytes(FrameOf(c, m)))
    modifies reader, reader.budget, reader.budget.conn
    ensures reader.Valid() && reader.error.None? && reader.State() == JsonDecoder.Fresh([])
    ensures res == Taken(m, accepts)
  {
    hide JsonHandOff.Bytes, JsonHandOff.Open;
    var o := JsonHandOff.Opener(c, accepts);
    res := reader.ServeOne(FrameOf(c, m), o, ahead);
    JsonHandOff.OpensSealed(o, c, m.nonce, m.body.value);
  }

  /** One request after the previous one was read: it goes out, arrives and is read. */
  method Round(client: JsonWrites.ClientWriter, conn: Conn, reader: JsonCryptoReader.Reader, c: Cipher,
               m: JsonWrites.Message, accepts: seq<Byte> -> bool, ahead: nat)
    returns (ok: bool, res: JsonHandOff.BodyResult)
    requires client.Valid() && !client.w.failed && client.w.buf == [] && client.cipher == Some(c)
    requires Lawful(c) && SealedFits(reader.maxBody, c, m) && reader.budget.conn == conn
    requires reader.Valid() && reader.error.None? && reader.State() == JsonDecoder.Fresh([])
    modifies client.w, client.w.sink`sent, conn, reader, reader.budget
    ensures client.w.sink.reliable && !client.w.sink.closed ==> ok
    ensures ok ==> client.Valid() && !client.w.failed && client.w.buf == []
    ensures ok ==> reader.Valid() && reader.error.None? && reader.State() == JsonDecoder.Fresh([])
    ensures ok ==> res == Taken(m, accepts)
  {
    hide SealedFits, Taken, JsonHandOff.Bytes;
    res := JsonHandOff.NotBytes;
    ok := Send(client, conn, reader.maxBody, m);
    if ok {
      res := Receive(reader, c, m, accepts, ahead);
    }
  }

  lemma {:induction false} SealedOpens(maxBody: nat, c: Cipher, m: JsonWrites.Message)
    requires SealedFits(maxBody, c, m) && Compact(m.header.value) && |m.header.value| > 2
    ensures IsJson(JsonHandOff.Bytes(FrameOf(c, m)))
  {
    hide IsJson;
    CompactIsJsonIff(m.header.value, JsonCrypto.BodyPart(FrameOf(c, m).sealed));
  }

  /** Requests under one key, each sent once the previous one was read: the first tells the
      server which codec to use, and every body arrives, whatever the decoders read ahead. */
  method Sealed(c: Cipher, ms: seq<JsonWrites.Message>, accepts: seq<Byte> -> bool, maxBody: int,
                ahead: nat, sink: Sink)
    returns (kind: Kind, results: seq<JsonHandOff.BodyResult>, complete: bool)
    requires Lawful(c) && ms != [] && sink.sent == [] && !sink.closed
    requires forall i :: 0 <= i < |ms| ==> SealedFits(JsonCodec.Limit(maxBody), c, ms[i])
    requires ms[0].header.Some? && Compact(ms[0].header.value) && |ms[0].header.value| > 2
    modifies sink`sent
    ensures sink.reliable ==> complete
    ensures complete ==> kind == ClientKind(true, true) && |results| == |ms|
    ensures forall i :: 0 <= i < |results| ==> i < |ms| && results[i] == Taken(ms[i], accepts)
  {
    hide SealedFits, Taken, Compact, IsJson, JsonHandOff.Bytes, FrameOf;
    kind, results, complete := GobPlain, [], false;
    var client := new JsonWrites.ClientWriter(sink, Some(c));
    assert client.w.wire == sink.sent;
    var conn := new Conn([], true);
    var ok := Send(client, conn, JsonCodec.Limit(maxBody), ms[0]);
    if !ok {
      return;
    }
    kind := Accept(conn, true);
    SealedOpens(JsonCodec.Limit(maxBody), c, ms[0]);
    var reader := new JsonCryptoReader.Reader(conn, maxBody);
    var res := Receive(reader, c, ms[0], accepts, ahead);
    results := [res];
    while ok && |results| < |ms|
      invariant ok ==> client.Valid() && !client.w.failed && client.w.buf == []
      invariant ok ==> reader.Valid() && reader.error.None? && reader.State() == JsonDecoder.Fresh([])
      invariant 1 <= |results| <= |ms| && (sink.reliable ==> ok)
      invariant forall i :: 0 <= i < |results| ==> results[i] == Taken(ms[i], accepts)
      decreases ok, |ms| - |results|
    {
      ok, res := Round(client, conn, reader, c, ms[|results|], accepts, ahead);
      if ok {
        results := results + [res];
      }
    }
    complete := ok;
  }
}
