/** The v2 crypto codec, reading side, and its wire format: one persistent gob stream in
    which every header is followed by the five raw bytes CRYPT and a sealed body.  Gob,
    the peek and the discard share one buffered reader. */
module V2Crypto {
  import opened Automata
  import opened Gob
  import opened Aead
  import opened Streams
  import GobForms

  const MAGIC: seq<Byte> := [0x43, 0x52, 0x59, 0x50, 0x54]

  // ------------------------------------------------------- what is decoded

  datatype Decoded = Got(id: int, content: seq<Byte>) | AtEof | Cut | Refused

  datatype BodyResult =
    | BodyOk(id: int, content: seq<Byte>)
    | PeekFailed
    | BadMagic
    | BlobFailed
    | DecryptFailed
    | InnerFailed

  /** The decoder's report, its known types afterwards, and the bytes left. */
  datatype Report<+R> = Report(result: R, known: set<int>, rest: seq<Byte>)

  function GobDecode(known: set<int>, s: seq<Byte>): Report<Decoded> {
    var st := Run(GOB, Count(known, true), s);
    UsedBound(GOB, Count(known, true), s);
    Report(ResultOf(st), st.known, s[Used(GOB, Count(known, true), s)..])
  }

  /** What a decoder that has stopped, or come to the end of the stream, reports. */
  function ResultOf(st: State): Decoded {
    match st
    case Value(_, id, content) => Got(id, content)
    case Fail(_) => Refused
    case Count(_, first) => if first then AtEof else Cut
    case _ => Cut
  }

  /** The body inside the blob: a gob stream of its own, read by a fresh decoder. */
  function OpenBody(c: Cipher, id: int, content: seq<Byte>): BodyResult {
    match AsBytes(id, content)
    case None => BlobFailed
    case Some(blob) =>
      match Decrypt(c, blob)
      case None => DecryptFailed
      case Some(plain) =>
        var inner := GobDecode({}, plain).result;
        if inner.Got? then BodyOk(inner.id, inner.content) else InnerFailed
  }

  function ReadBody(c: Cipher, known: set<int>, s: seq<Byte>): Report<BodyResult> {
    if |s| < |MAGIC| then Report(PeekFailed, known, s)
    else if s[..|MAGIC|] != MAGIC then Report(BadMagic, known, s)
    else
      var blob := GobDecode(known, s[|MAGIC|..]);
      Report(if blob.result.Got? then OpenBody(c, blob.result.id, blob.result.content) else BlobFailed,
             blob.known, blob.rest)
  }

  /** `n` header-then-body reads. */
  function ReadRun(c: Cipher, known: set<int>, s: seq<Byte>, n: nat): Report<seq<(Decoded, BodyResult)>>
    decreases n
  {
    if n == 0 then Report([], known, s)
    else
      var h := GobDecode(known, s);
      var b := ReadBody(c, h.known, h.rest);
      var more := ReadRun(c, b.known, b.rest, n - 1);
      Report([(h.result, b.result)] + more.result, more.known, more.rest)
  }

  // ------------------------------------------------------- what is written

  /** A call as the writer sees it; `nonce` is the writer's random choice. */
  datatype Call = Call(header: GobValue, body: GobValue, nonce: seq<Byte>)

  function Blob(c: Cipher, call: Call): seq<Byte>
    requires Encodable(call.body) && |call.nonce| == c.nonceSize
  {
    Encrypt(c, call.nonce, Encode({}, call.body))
  }

  ghost predicate Sendable(c: Cipher, call: Call) {
    && Encodable(call.header) && Encodable(call.body)
    && |call.nonce| == c.nonceSize
    && |Blob(c, call)| < U64
    && Encodable(BytesValue(Blob(c, call)))
  }

  ghost predicate AllSendable(c: Cipher, calls: seq<Call>) {
    forall i :: 0 <= i < |calls| ==> Sendable(c, calls[i])
  }

  /** The bytes of one call for an encoder that has sent the types `sent`. */
  ghost function Frame(c: Cipher, sent: set<int>, call: Call): seq<Byte>
    requires Sendable(c, call)
  {
    Encode(sent, call.header) + MAGIC + Encode(SentAfter(sent, call.header), BytesValue(Blob(c, call)))
  }

  ghost function Wire(c: Cipher, sent: set<int>, calls: seq<Call>): seq<Byte>
    requires AllSendable(c, calls)
    decreases |calls|
  {
    if calls == [] then []
    else Frame(c, sent, calls[0]) + Wire(c, SentAfter(sent, calls[0].header), calls[1..])
  }

  function SentOf(sent: set<int>, calls: seq<Call>): set<int>
    decreases |calls|
  {
    if calls == [] then sent else SentOf(SentAfter(sent, calls[0].header), calls[1..])
  }

  function Expected(calls: seq<Call>): seq<(Decoded, BodyResult)> {
    seq(|calls|, i requires 0 <= i < |calls| =>
      (Got(calls[i].header.id, calls[i].header.content), BodyOk(calls[i].body.id, calls[i].body.content)))
  }

  // ------------------------------------------------------------- whole runs

  lemma {:induction false} GobDecodeEncoded(sent: set<int>, v: GobValue, tail: seq<Byte>)
    requires Encodable(v)
    ensures GobDecode(sent, Encode(sent, v) + tail) == Report(Got(v.id, v.content), SentAfter(sent, v), tail)
  {
    DecodeEncode(sent, true, v);
    StopsExtend(GOB, Count(sent, true), Encode(sent, v), tail);
    assert (Encode(sent, v) + tail)[|Encode(sent, v)|..] == tail;
  }

  lemma {:induction false} OpenSealed(c: Cipher, call: Call)
    requires Lawful(c) && Sendable(c, call)
    ensures OpenBody(c, BYTES_ID, BytesContent(Blob(c, call))) == BodyOk(call.body.id, call.body.content)
  {
    BytesRoundTrip(Blob(c, call));
    DecryptEncrypt(c, call.nonce, Encode({}, call.body));
    GobDecodeEncoded({}, call.body, []);
    assert Encode({}, call.body) + [] == Encode({}, call.body);
  }

  lemma {:induction false} ReadBodyAfterMagic(c: Cipher, known: set<int>, s: seq<Byte>)
    requires GobDecode(known, s).result.Got?
    ensures var blob := GobDecode(known, s);
            ReadBody(c, known, MAGIC + s)
            == Report(OpenBody(c, blob.result.id, blob.result.content), blob.known, blob.rest)
  {
    assert (MAGIC + s)[..|MAGIC|] == MAGIC && (MAGIC + s)[|MAGIC|..] == s;
  }

  lemma {:induction false} ReadSealed(c: Cipher, sent: set<int>, call: Call, tail: seq<Byte>)
    requires Lawful(c) && Sendable(c, call)
    ensures ReadBody(c, sent, MAGIC + (Encode(sent, BytesValue(Blob(c, call))) + tail))
            == Report(BodyOk(call.body.id, call.body.content), sent, tail)
  {
    var v := BytesValue(Blob(c, call));
    GobDecodeEncoded(sent, v, tail);
    assert SentAfter(sent, v) == sent;
    ReadBodyAfterMagic(c, sent, Encode(sent, v) + tail);
    OpenSealed(c, call);
  }

  /** One frame: the header comes back, the prefix sits exactly where the header ended,
      the body comes back, and reader and writer agree on the types afterwards. */
  lemma {:induction false} ReadFrame(c: Cipher, sent: set<int>, call: Call, tail: seq<Byte>)
    requires Lawful(c) && Sendable(c, call)
    ensures var h := GobDecode(sent, Frame(c, sent, call) + tail);
            && h.result == Got(call.header.id, call.header.content)
            && h.known == SentAfter(sent, call.header)
            && MAGIC <= h.rest
            && ReadBody(c, h.known, h.rest)
               == Report(BodyOk(call.body.id, call.body.content), SentAfter(sent, call.header), tail)
  {
    var sent' := SentAfter(sent, call.header);
    var rest := MAGIC + (Encode(sent', BytesValue(Blob(c, call))) + tail);
    assert Frame(c, sent, call) + tail == Encode(sent, call.header) + rest;
    GobDecodeEncoded(sent, call.header, rest);
    ReadSealed(c, sent', call, tail);
  }

  lemma {:induction false} ReadRunFrame(c: Cipher, sent: set<int>, call: Call, tail: seq<Byte>, n: nat)
    requires Lawful(c) && Sendable(c, call) && n > 0
    ensures var more := ReadRun(c, SentAfter(sent, call.header), tail, n - 1);
            ReadRun(c, sent, Frame(c, sent, call) + tail, n)
            == Report(Expected([call]) + more.result, more.known, more.rest)
  {
    ReadFrame(c, sent, call, tail);
    assert Expected([call]) == [(Got(call.header.id, call.header.content), BodyOk(call.body.id, call.body.content))];
  }

  lemma {:induction false} ExpectedSplit(calls: seq<Call>)
    requires calls != []
    ensures Expected(calls) == Expected([calls[0]]) + Expected(calls[1..])
  {
  }

  lemma {:induction false} WireSplit(c: Cipher, sent: set<int>, calls: seq<Call>, tail: seq<Byte>)
    requires AllSendable(c, calls) && calls != []
    ensures Wire(c, sent, calls) + tail
            == Frame(c, sent, calls[0]) + (Wire(c, SentAfter(sent, calls[0].header), calls[1..]) + tail)
  {
  }

  /** Every burst of calls, fully pipelined and followed by anything, is read back in
      order, and the decoder's known types end as the encoder's sent types. */
  lemma {:induction false} PipelinedRun(c: Cipher, sent: set<int>, calls: seq<Call>, tail: seq<Byte>)
    requires Lawful(c) && AllSendable(c, calls)
    ensures ReadRun(c, sent, Wire(c, sent, calls) + tail, |calls|)
            == Report(Expected(calls), SentOf(sent, calls), tail)
    decreases |calls|
  {
    if calls == [] {
      assert Wire(c, sent, calls) + tail == tail && Expected(calls) == [];
    } else {
      var sent' := SentAfter(sent, calls[0].header);
      WireSplit(c, sent, calls, tail);
      ReadRunFrame(c, sent, calls[0], Wire(c, sent', calls[1..]) + tail, |calls|);
      PipelinedRun(c, sent', calls[1..], tail);
      ExpectedSplit(calls);
    }
  }

  /** How a body is taken: with which key, and into a value of which types. */
  datatype Taker = Taker(cipher: Cipher, accepts: (int, seq<Byte>) -> bool)

  function Taken(t: Taker, r: BodyResult): BodyResult {
    if r.BodyOk? && !t.accepts(r.id, r.content) then InnerFailed else r
  }

  function TakeBody(t: Taker, known: set<int>, s: seq<Byte>): Report<BodyResult> {
    var b := ReadBody(t.cipher, known, s);
    Report(Taken(t, b.result), b.known, b.rest)
  }

  /** Header-then-body reads, each body taken in its own way. */
  function TakeRun(ts: seq<Taker>, known: set<int>, s: seq<Byte>): Report<seq<(Decoded, BodyResult)>>
    decreases |ts|
  {
    if ts == [] then Report([], known, s)
    else
      var h := GobDecode(known, s);
      var b := TakeBody(ts[0], h.known, h.rest);
      var more := TakeRun(ts[1..], b.known, b.rest);
      Report([(h.result, b.result)] + more.result, more.known, more.rest)
  }

  /** What a sealed call becomes for a taker: with the right key its body, if of a type that
      is accepted; with a key that does not open it a failure. */
  ghost predicate Fits(t: Taker, c: Cipher, call: Call, r: (Decoded, BodyResult))
    requires Encodable(call.body) && |call.nonce| == c.nonceSize
  {
    && r.0 == Got(call.header.id, call.header.content)
    && (t.cipher == c ==>
          r.1 == if t.accepts(call.body.id, call.body.content) then BodyOk(call.body.id, call.body.content)
                 else InnerFailed)
    && (Decrypt(t.cipher, Blob(c, call)).None? ==> r.1 == DecryptFailed)
  }

  lemma {:induction false} TakesSealed(t: Taker, c: Cipher, sent: set<int>, call: Call, tail: seq<Byte>)
    requires Lawful(c) && Sendable(c, call)
    ensures var h := GobDecode(sent, Frame(c, sent, call) + tail);
            var b := TakeBody(t, h.known, h.rest);
            Fits(t, c, call, (h.result, b.result)) && b.known == SentAfter(sent, call.header) && b.rest == tail
  {
    hide GobDecode, Encode, Encodable;
    var sent' := SentAfter(sent, call.header);
    var v := BytesValue(Blob(c, call));
    var s := Encode(sent', v) + tail;
    assert Frame(c, sent, call) + tail == Encode(sent, call.header) + (MAGIC + s);
    GobDecodeEncoded(sent, call.header, MAGIC + s);
    GobDecodeEncoded(sent', v, tail);
    assert SentAfter(sent', v) == sent';
    ReadBodyAfterMagic(t.cipher, sent', s);
    OpenSealed(c, call);
    BytesRoundTrip(Blob(c, call));
  }

  /** Any mix of takers of a burst, some with a wrong key, some for values of other types:
      each gets what its own call makes of it, and all calls and what follows stay aligned. */
  lemma {:induction false} MixedTakers(ts: seq<Taker>, c: Cipher, sent: set<int>, calls: seq<Call>, tail: seq<Byte>)
    requires Lawful(c) && AllSendable(c, calls) && |ts| == |calls|
    ensures var r := TakeRun(ts, sent, Wire(c, sent, calls) + tail);
            && r.known == SentOf(sent, calls) && r.rest == tail && |r.result| == |calls|
            && forall i :: 0 <= i < |calls| ==> Sendable(c, calls[i]) && Fits(ts[i], c, calls[i], r.result[i])
    decreases |calls|
  {
    hide GobDecode, TakeBody, Frame, Fits, Encodable;
    if calls == [] {
      assert Wire(c, sent, calls) + tail == tail;
    } else {
      var sent' := SentAfter(sent, calls[0].header);
      var rest := Wire(c, sent', calls[1..]) + tail;
      WireSplit(c, sent, calls, tail);
      TakesSealed(ts[0], c, sent, calls[0], rest);
      MixedTakers(ts[1..], c, sent', calls[1..], tail);
    }
  }

  // ------------------------------------------------- what a read comes to, on bytes

  /** `s` begins with a value: definitions and a message, in whatever forms, and then `rest`. */
  ghost predicate Holds(known: set<int>, s: seq<Byte>, known': set<int>, id: int, content: seq<Byte>, rest: seq<Byte>) {
    exists front :: s == front + rest && GobForms.IsValue(known, front, known', id, content)
  }

  ghost predicate HoldsWrong(known: set<int>, s: seq<Byte>) {
    exists front :: front <= s && GobForms.IsRefused(known, front)
  }

  ghost predicate HoldsSome(known: set<int>, s: seq<Byte>) {
    exists known', id, content, rest :: Holds(known, s, known', id, content, rest)
  }

  lemma {:induction false} FrontEnds(known: set<int>, s: seq<Byte>)
    ensures var k := Used(GOB, Count(known, true), s);
            k <= |s| && (Stops(GOB, Count(known, true), s) ==>
                           Run(GOB, Count(known, true), s[..k]) == Run(GOB, Count(known, true), s)
                           && GobForms.Ends(known, true, s[..k]))
  {
    UsedBound(GOB, Count(known, true), s);
    if Stops(GOB, Count(known, true), s) {
      StopsWindow(GOB, Count(known, true), s, Used(GOB, Count(known, true), s));
    }
  }

  lemma {:induction false} EndsInFront(known: set<int>, front: seq<Byte>, rest: seq<Byte>)
    requires GobForms.Ends(known, true, front)
    ensures Run(GOB, Count(known, true), front + rest) == Run(GOB, Count(known, true), front)
    ensures Used(GOB, Count(known, true), front + rest) == |front| && (front + rest)[|front|..] == rest
  {
    StopsExtend(GOB, Count(known, true), front, rest);
  }

  /** A decode reports a value, the types then known and what follows exactly if that is what
      the bytes hold. */
  lemma {:induction false} GotIff(known: set<int>, s: seq<Byte>, known': set<int>, id: int, content: seq<Byte>,
                                  rest: seq<Byte>)
    ensures GobDecode(known, s) == Report(Got(id, content), known', rest)
            <==> Holds(known, s, known', id, content, rest)
  {
    hide Run, Used, GobForms.IsValue;
    if front :| s == front + rest && GobForms.IsValue(known, front, known', id, content) {
      GobForms.ValueIff(known, true, front, known', id, content);
      EndsInFront(known, front, rest);
    }
    if GobDecode(known, s) == Report(Got(id, content), known', rest) {
      var k := Used(GOB, Count(known, true), s);
      FrontEnds(known, s);
      GobForms.ValueIff(known, true, s[..k], known', id, content);
      assert s == s[..k] + rest;
    }
  }

  /** Otherwise it is refused, or the stream ends in it or before it; only an empty stream has
      ended cleanly. */
  lemma {:induction false} NotGotIff(known: set<int>, s: seq<Byte>)
    ensures var r := GobDecode(known, s).result;
            && (r.Got? <==> HoldsSome(known, s))
            && (r == Refused <==> HoldsWrong(known, s))
            && (r == AtEof <==> s == [])
            && (r == Cut <==> s != [] && !HoldsSome(known, s) && !HoldsWrong(known, s))
  {
    hide Run, Used, GobForms.IsRefused, Holds;
    var r := GobDecode(known, s);
    FrontEnds(known, s);
    var k := Used(GOB, Count(known, true), s);
    if r.result.Got? {
      GotIff(known, s, r.known, r.result.id, r.result.content, r.rest);
    }
    forall known', id, content, rest | Holds(known, s, known', id, content, rest) ensures r.result.Got? {
      GotIff(known, s, known', id, content, rest);
    }
    forall front | front <= s && GobForms.IsRefused(known, front) ensures r.result == Refused {
      GobForms.RefusedIff(known, true, front);
      EndsInFront(known, front, s[|front|..]);
      assert s == front + s[|front|..];
    }
    if r.result == Refused {
      GobForms.RefusedIff(known, true, s[..k]);
    }
    CleanOrCut(known, s);
  }

  lemma {:induction false} CleanOrCut(known: set<int>, s: seq<Byte>)
    ensures GobDecode(known, s).result == AtEof <==> s == []
  {
    if s != [] {
      StaysBegun(Count(known, true), s);
    }
  }

  /** Exactly what one decode comes to. */
  ghost predicate ValueComesTo(known: set<int>, s: seq<Byte>, r: Report<Decoded>) {
    && (forall id, content :: r.result == Got(id, content) <==> Holds(known, s, r.known, id, content, r.rest))
    && (r.result.Got? <==> HoldsSome(known, s))
    && (r.result == Refused <==> HoldsWrong(known, s))
    && (r.result == AtEof <==> s == [])
    && (r.result == Cut <==> s != [] && !HoldsSome(known, s) && !HoldsWrong(known, s))
  }

  lemma {:induction false} DecodeComesTo(known: set<int>, s: seq<Byte>)
    ensures ValueComesTo(known, s, GobDecode(known, s))
  {
    hide GobDecode, Holds, HoldsSome, HoldsWrong;
    var r := GobDecode(known, s);
    NotGotIff(known, s);
    forall id, content ensures r.result == Got(id, content) <==> Holds(known, s, r.known, id, content, r.rest) {
      GotIff(known, s, r.known, id, content, r.rest);
    }
  }

  /** Behind the prefix, a byte slice that holds `sealed`; then `rest`. */
  ghost predicate Carries(known: set<int>, s: seq<Byte>, sealed: seq<Byte>) {
    exists known', content, rest ::
      s[..Min(|s|, |MAGIC|)] == MAGIC && Holds(known, s[Min(|s|, |MAGIC|)..], known', 5, content, rest)
      && IsBytes(content, sealed)
  }

  /** A value of its own, sealed in a body: its type and content. */
  ghost predicate Inside(plain: seq<Byte>, id: int, content: seq<Byte>) {
    exists known', rest :: Holds({}, plain, known', id, content, rest)
  }

  ghost predicate Gives(t: Taker, known: set<int>, s: seq<Byte>, id: int, content: seq<Byte>) {
    exists sealed, plain ::
      && Carries(known, s, sealed) && Opens(t.cipher, sealed, plain)
      && Inside(plain, id, content) && t.accepts(id, content)
  }

  /** Nothing inside that is accepted. */
  ghost predicate Hollow(t: Taker, plain: seq<Byte>) {
    forall id, content :: !(Inside(plain, id, content) && t.accepts(id, content))
  }

  /** Exactly what reading a body comes to. A wrong prefix is left where it is. */
  ghost predicate BodyComesTo(t: Taker, known: set<int>, s: seq<Byte>, r: Report<BodyResult>) {
    && (forall id, content :: r.result == BodyOk(id, content) <==> Gives(t, known, s, id, content))
    && (r.result == InnerFailed
        <==> exists sealed, plain :: Carries(known, s, sealed) && Opens(t.cipher, sealed, plain) && Hollow(t, plain))
    && (r.result == DecryptFailed <==> exists sealed :: Carries(known, s, sealed) && Closed(t.cipher, sealed))
    && (r.result == BlobFailed <==> MAGIC <= s && forall sealed :: !Carries(known, s, sealed))
    && (r.result == PeekFailed <==> |s| < |MAGIC|)
    && (r.result == BadMagic <==> |s| >= |MAGIC| && !(MAGIC <= s))
    && (!(MAGIC <= s) ==> r.known == known && r.rest == s)
  }

  lemma {:induction false} CarriesIff(known: set<int>, s: seq<Byte>, sealed: seq<Byte>)
    ensures Carries(known, s, sealed)
            <==> MAGIC <= s && var r := GobDecode(known, s[|MAGIC|..]).result;
                               r.Got? && AsBytes(r.id, r.content) == Some(sealed)
  {
    hide Holds, IsBytes, AsBytes, GobDecode;
    assert MAGIC <= s <==> s[..Min(|s|, |MAGIC|)] == MAGIC;
    if MAGIC <= s {
      var rest := s[|MAGIC|..];
      assert rest == s[Min(|s|, |MAGIC|)..];
      var r := GobDecode(known, rest);
      if r.result.Got? {
        GotIff(known, rest, r.known, r.result.id, r.result.content, r.rest);
        AsBytesIff(r.result.id, r.result.content, sealed);
      }
      forall known', content, more | Holds(known, rest, known', BYTES_ID, content, more) && IsBytes(content, sealed)
        ensures r == Report(Got(BYTES_ID, content), known', more) && AsBytes(BYTES_ID, content) == Some(sealed)
      {
        GotIff(known, rest, known', BYTES_ID, content, more);
        AsBytesIff(BYTES_ID, content, sealed);
      }
    }
  }

  lemma {:induction false} InsideIff(plain: seq<Byte>, id: int, content: seq<Byte>)
    ensures Inside(plain, id, content) <==> GobDecode({}, plain).result == Got(id, content)
  {
    hide Holds, GobDecode;
    var r := GobDecode({}, plain);
    GotIff({}, plain, r.known, id, content, r.rest);
    forall known', rest | Holds({}, plain, known', id, content, rest) ensures r.result == Got(id, content) {
      GotIff({}, plain, known', id, content, rest);
    }
  }

  lemma {:induction false} ReadBodyComesTo(t: Taker, known: set<int>, s: seq<Byte>)
    ensures BodyComesTo(t, known, s, TakeBody(t, known, s))
  {
    hide GobDecode, Carries, Inside, AsBytes, Opens, Decrypt;
    forall sealed
      ensures Carries(known, s, sealed)
              <==> MAGIC <= s && var r := GobDecode(known, s[|MAGIC|..]).result;
                                 r.Got? && AsBytes(r.id, r.content) == Some(sealed)
    {
      CarriesIff(known, s, sealed);
    }
    if MAGIC <= s && GobDecode(known, s[|MAGIC|..]).result.Got? {
      var r := GobDecode(known, s[|MAGIC|..]).result;
      if AsBytes(r.id, r.content).Some? {
        var sealed := AsBytes(r.id, r.content).value;
        assert Carries(known, s, sealed);
        DecryptIff(t.cipher, sealed);
        if Decrypt(t.cipher, sealed).Some? {
          var plain := Decrypt(t.cipher, sealed).value;
          forall id, content
            ensures Inside(plain, id, content) <==> GobDecode({}, plain).result == Got(id, content)
          {
            InsideIff(plain, id, content);
          }
        }
      }
    }
  }

  // -------------------------------------------------- the codec over a connection

  /** The library reads a long message piece by piece. */
  const PIECE: nat := 10 * 0x10_0000

  /** How many bytes the gob decoder still needs for what it is reading: the first byte of a
      count, the rest of a count, the rest of a message. */
  function Remaining(st: State): (n: nat)
    ensures n >= 1
  {
    if (st.Body? || st.More?) && st.left > 0 then st.left else 1
  }

  /** How many bytes it asks for: those, but in a message none beyond the current piece. */
  function Wanted(st: State): (n: nat)
    ensures 1 <= n <= Remaining(st)
  {
    if st.Body? then Min(Remaining(st), PIECE - |st.payload| % PIECE) else Remaining(st)
  }

  /** It never needs more than its own message. */
  lemma {:induction false} FeedWanted(st: State, p: seq<Byte>)
    requires !Gob.Stopped(st) && 1 <= |p| <= Remaining(st)
    ensures Used(GOB, st, p) == |p|
    decreases |p|
  {
    var st' := Gob.Step(st, p[0]);
    if |p| == 1 {
      assert p[1..] == [];
    } else {
      FeedWanted(st', p[1..]);
    }
  }

  /** A chunk read for a decoder in state `st` feeds at least what the decoder wanted. */
  lemma {:induction false} FeedChunk(st: State, p: seq<Byte>)
    requires !Gob.Stopped(st) && p != []
    ensures Min(|p|, Wanted(st)) <= Used(GOB, st, p) <= |p|
    ensures !Gob.Stopped(Run(GOB, st, p)) ==> Used(GOB, st, p) == |p|
  {
    var k := Min(|p|, Wanted(st));
    assert p == p[..k] + p[k..];
    FeedWanted(st, p[..k]);
    RunSplit(GOB, st, p[..k], p[k..]);
    UsedBound(GOB, st, p);
  }

  lemma {:induction false} DecodeBegins(st: State)
    ensures Run(GOB, st, []) == st && Used(GOB, st, []) == 0
  {
  }

  /** Where a decode that is done, or at the end of the stream, has got to. */
  lemma {:induction false} DecodeEnds(known: set<int>, all: seq<Byte>, taken: seq<Byte>, rest: seq<Byte>, st: State)
    requires all == taken + rest && (Gob.Stopped(st) || rest == [])
    requires st == Run(GOB, Count(known, true), taken) && Used(GOB, Count(known, true), taken) == |taken|
    ensures GobDecode(known, all) == Report(ResultOf(st), st.known, rest)
  {
    hide Run, Used;
    RunSplit(GOB, Count(known, true), taken, rest);
    assert all[|taken|..] == rest;
    DecodeEnded(st, rest);
  }

  lemma {:induction false} DecodeEnded(st: State, rest: seq<Byte>)
    requires Gob.Stopped(st) || rest == []
    ensures Run(GOB, st, rest) == st && Used(GOB, st, rest) == 0
  {
  }

  class ServerReader {
    const rwc: BufReader
    const cipher: Cipher
    var known: set<int>

    constructor (conn: Conn, cipher: Cipher)
      ensures fresh(rwc) && rwc.conn == conn && this.cipher == cipher && known == {}
      ensures rwc.Pending() == conn.Pending()
    {
      this.cipher, this.known := cipher, {};
      rwc := new BufReader(conn);
    }

    /** The decoder's state and the bytes it has taken of `all`, from `known` types on. */
    ghost predicate Decoding(known: set<int>, all: seq<Byte>, taken: seq<Byte>, st: State)
      reads rwc, rwc.conn
    {
      && all == taken + rwc.Pending()
      && st == Run(GOB, Count(known, true), taken) && Used(GOB, Count(known, true), taken) == |taken|
    }

    /** One read for the gob decoder. */
    method Feed(st: State, ghost known: set<int>, ghost all: seq<Byte>, ghost taken: seq<Byte>)
      returns (st': State, eof: bool, ghost taken': seq<Byte>)
      requires Decoding(known, all, taken, st) && !Gob.Stopped(st)
      modifies rwc, rwc.conn
      ensures Decoding(known, all, taken', st')
      ensures eof ==> rwc.Pending() == []
      ensures !eof ==> |rwc.Pending()| < old(|rwc.Pending()|)
    {
      hide Run, Used, Wanted;
      var p := rwc.Read(Wanted(st));
      eof, st', taken' := p == [], st, taken;
      if !eof {
        FeedWanted(st, p);
        RunSplit(GOB, Count(known, true), taken, p);
        st', taken' := Run(GOB, st, p), taken + p;
      }
    }

    method Decode() returns (r: Decoded)
      modifies this, rwc, rwc.conn
      ensures Report(r, known, rwc.Pending()) == GobDecode(old(known), old(rwc.Pending()))
      ensures ValueComesTo(old(known), old(rwc.Pending()), Report(r, known, rwc.Pending()))
    {
      hide Run, Used, ValueComesTo;
      ghost var all, before := rwc.Pending(), known;
      ghost var taken: seq<Byte> := [];
      var st := Count(known, true);
      var eof := false;
      DecodeBegins(st);
      while !Gob.Stopped(st) && !eof
        invariant Decoding(before, all, taken, st) && (eof ==> rwc.Pending() == [])
        decreases if eof then 0 else 1, |rwc.Pending()|
      {
        st, eof, taken := Feed(st, before, all, taken);
      }
      known, r := st.known, ResultOf(st);
      DecodeEnds(before, all, taken, rwc.Pending(), st);
      DecodeComesTo(before, all);
    }

    method ReadRequestHeader() returns (r: Decoded)
      modifies this, rwc, rwc.conn
      ensures Report(r, known, rwc.Pending()) == GobDecode(old(known), old(rwc.Pending()))
      ensures ValueComesTo(old(known), old(rwc.Pending()), Report(r, known, rwc.Pending()))
    {
      hide GobDecode, ValueComesTo;
      r := Decode();
    }

    /** The caller's value accepts some types and not others. */
    method ReadRequestBody(accepts: (int, seq<Byte>) -> bool) returns (r: BodyResult)
      modifies this, rwc, rwc.conn
      ensures Report(r, known, rwc.Pending()) == TakeBody(Taker(cipher, accepts), old(known), old(rwc.Pending()))
      ensures BodyComesTo(Taker(cipher, accepts), old(known), old(rwc.Pending()), Report(r, known, rwc.Pending()))
    {
      hide GobDecode, OpenBody, BodyComesTo;
      ReadBodyComesTo(Taker(cipher, accepts), known, rwc.Pending());
      var magic := rwc.Peek(|MAGIC|);
      if |magic| < |MAGIC| {
        return PeekFailed;
      }
      if magic != MAGIC {
        return BadMagic;
      }
      rwc.Discard(|MAGIC|);
      var blob := Decode();
      if !blob.Got? {
        return BlobFailed;
      }
      r := Taken(Taker(cipher, accepts), OpenBody(cipher, blob.id, blob.content));
    }

    /** The server's loop.  Its results are a function of the pending bytes alone, for
        every fragmentation and any number of buffering layers below. */
    method Serve(n: nat) returns (rs: seq<(Decoded, BodyResult)>)
      modifies this, rwc, rwc.conn
      ensures Report(rs, known, rwc.Pending()) == ReadRun(cipher, old(known), old(rwc.Pending()), n)
    {
      hide GobDecode, ReadBody, ValueComesTo, BodyComesTo;
      rs := [];
      var i := 0;
      ghost var whole := ReadRun(cipher, known, rwc.Pending(), n);
      assert [] + whole.result == whole.result;
      while i < n
        invariant 0 <= i <= n
        invariant var more := ReadRun(cipher, known, rwc.Pending(), n - i);
                  whole == Report(rs + more.result, more.known, more.rest)
      {
        var h := ReadRequestHeader();
        var b := ReadRequestBody((id, content) => true);
        ghost var more := ReadRun(cipher, known, rwc.Pending(), n - i - 1).result;
        assert rs + ([(h, b)] + more) == rs + [(h, b)] + more;
        rs := rs + [(h, b)];
        i := i + 1;
      }
      assert rs + [] == rs;
    }
  }
}
