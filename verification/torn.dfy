/** What a reader makes of a stream that a writer left unfinished: the whole frames, and
    then no frame. */
module Torn {
  import opened Automata
  import opened Aead
  import Gob
  import V2Crypto
  import V2Client
  import JsonText
  import JsonDecoder
  import JsonCodec
  import JsonCrypto
  import JsonHandOff

  // ------------------------------------------------------------------ v2 crypto

  /** Header and body of one call came through. */
  predicate IsWhole(x: (V2Crypto.Decoded, V2Crypto.BodyResult)) {
    x.0.Got? && x.1.BodyOk?
  }

  /** A gob value cut short is reported as cut, and as a clean end only if nothing came of it,
      not even a definition before it. */
  lemma {:induction false} TornValue(sent: set<int>, v: Gob.GobValue, k: nat)
    requires Gob.Encodable(v) && k < |Gob.Encode(sent, v)|
    ensures V2Crypto.GobDecode(sent, Gob.Encode(sent, v)[..k]).result
            == if k == 0 then V2Crypto.AtEof else V2Crypto.Cut
  {
    hide Gob.Encode;
    var part := Gob.Encode(sent, v)[..k];
    Gob.DecodeEncode(sent, true, v);
    StopsWindow(Gob.GOB, Gob.Count(sent, true), Gob.Encode(sent, v), k);
    if k > 0 {
      Gob.StaysBegun(Gob.Count(sent, true), part);
    }
  }

  /** One header-then-body read of what is left of a call. */
  function ReadOne(c: Cipher, known: set<int>, s: seq<Byte>): (V2Crypto.Decoded, V2Crypto.BodyResult) {
    var h := V2Crypto.GobDecode(known, s);
    (h.result, V2Crypto.ReadBody(c, h.known, h.rest).result)
  }

  lemma {:induction false} TornBody(c: Cipher, known: set<int>, s: seq<Byte>)
    requires s <= V2Crypto.MAGIC ||
             (V2Crypto.MAGIC <= s && !V2Crypto.GobDecode(known, s[|V2Crypto.MAGIC|..]).result.Got?)
    ensures V2Crypto.ReadBody(c, known, s).result
            == if |s| < |V2Crypto.MAGIC| then V2Crypto.PeekFailed else V2Crypto.BlobFailed
  {
    hide V2Crypto.GobDecode;
    NothingIsNoValue(known);
    if s == V2Crypto.MAGIC {
      assert s[|V2Crypto.MAGIC|..] == [];
    }
  }

  lemma {:induction false} NothingIsNoValue(known: set<int>)
    ensures V2Crypto.GobDecode(known, []) == V2Crypto.Report(V2Crypto.AtEof, known, [])
  {
  }

  /** What is read where the stream ends `n` bytes into a call whose header takes `h`: a clean
      end if nothing has come, a cut header, or a header and then a body of which not even the
      prefix has come, or some of it. */
  predicate ReadsTorn(x: (V2Crypto.Decoded, V2Crypto.BodyResult), header: Gob.GobValue, h: nat, n: nat) {
    && x.0 == (if n == 0 then V2Crypto.AtEof
               else if n < h then V2Crypto.Cut
               else V2Crypto.Got(header.id, header.content))
    && x.1 == (if n < h + |V2Crypto.MAGIC| then V2Crypto.PeekFailed else V2Crypto.BlobFailed)
  }

  predicate ReadsTornCall(x: (V2Crypto.Decoded, V2Crypto.BodyResult), sent: set<int>, t: V2Client.Attempt, n: nat) {
    Gob.Encodable(t.call.header) && ReadsTorn(x, t.call.header, |Gob.Encode(sent, t.call.header)|, n)
  }

  /** What an attempt left on the wire, if it is not a whole frame, is read as exactly that,
      with whatever key. */
  lemma {:induction false} TornPart(c: Cipher, c': Cipher, sent: set<int>, t: V2Client.Attempt, part: seq<Byte>)
    requires part <= V2Client.PartOf(c, sent, t)
    requires V2Client.FateOf(c, t).Encoded? ==> part != V2Client.PartOf(c, sent, t)
    ensures part == [] ==> ReadOne(c', sent, part) == (V2Crypto.AtEof, V2Crypto.PeekFailed)
    ensures part != [] ==> ReadsTornCall(ReadOne(c', sent, part), sent, t, |part|)
    ensures !IsWhole(ReadOne(c', sent, part))
  {
    hide V2Crypto.GobDecode, V2Crypto.ReadBody, Gob.Encode, Gob.SentAfter, Gob.Encodable;
    var whole := V2Client.PartOf(c, sent, t);
    if part == [] {
      NothingToRead(c', sent);
    } else {
      var h := Gob.Encode(sent, t.call.header);
      if |part| < |h| {
        assert part == whole[..|part|] == h[..|part|];
        TornValue(sent, t.call.header, |part|);
        NothingLeft(sent, part);
        TornBody(c', V2Crypto.GobDecode(sent, part).known, []);
      } else {
        var rest := part[|h|..];
        assert part == h + rest && rest <= whole[|h|..];
        V2Crypto.GobDecodeEncoded(sent, t.call.header, rest);
        TornRest(c, c', sent, t, rest);
      }
    }
  }

  /** A decode that comes to nothing takes all there is. */
  lemma {:induction false} NothingLeft(known: set<int>, s: seq<Byte>)
    requires V2Crypto.GobDecode(known, s).result == V2Crypto.Cut
    ensures V2Crypto.GobDecode(known, s).rest == []
  {
    UsedBound(Gob.GOB, Gob.Count(known, true), s);
  }

  lemma {:induction false} TornRest(c: Cipher, c': Cipher, sent: set<int>, t: V2Client.Attempt, rest: seq<Byte>)
    requires !V2Client.FateOf(c, t).Unencoded?
    requires var whole := V2Client.PartOf(c, sent, t)[|Gob.Encode(sent, t.call.header)|..];
             rest <= whole && (V2Client.FateOf(c, t).Encoded? ==> rest != whole)
    ensures V2Crypto.ReadBody(c', Gob.SentAfter(sent, t.call.header), rest).result
            == if |rest| < |V2Crypto.MAGIC| then V2Crypto.PeekFailed else V2Crypto.BlobFailed
  {
    hide V2Crypto.GobDecode, V2Crypto.ReadBody, Gob.Encode, Gob.SentAfter, Gob.Encodable;
    var h, magic, known := Gob.Encode(sent, t.call.header), V2Crypto.MAGIC, Gob.SentAfter(sent, t.call.header);
    var whole := V2Client.PartOf(c, sent, t)[|h|..];
    if V2Client.FateOf(c, t).Oversized? {
      assert whole == magic;
      assert rest == magic[..|rest|];
    } else {
      var blob := Gob.BytesValue(V2Crypto.Blob(c, t.call));
      var body := Gob.Encode(known, blob);
      assert whole == magic + body;
      assert rest == whole[..|rest|];
      if |rest| <= |magic| {
        assert rest == magic[..|rest|];
      } else {
        var n := |rest| - |magic|;
        assert rest == magic + body[..n] && rest[|magic|..] == body[..n];
        TornValue(known, blob, n);
      }
    }
    TornBody(c', known, rest);
  }

  /** One more read at the end of a run. */
  lemma {:induction false} RunSnoc(c: Cipher, known: set<int>, s: seq<Byte>, n: nat)
    ensures var r := V2Crypto.ReadRun(c, known, s, n);
            V2Crypto.ReadRun(c, known, s, n + 1).result == r.result + [ReadOne(c, r.known, r.rest)]
    decreases n
  {
    hide V2Crypto.GobDecode, V2Crypto.ReadBody;
    if n > 0 {
      var h := V2Crypto.GobDecode(known, s);
      var b := V2Crypto.ReadBody(c, h.known, h.rest);
      RunSnoc(c, b.known, b.rest, n - 1);
    }
  }

  /** A wire of whole frames and an unfinished one, which is all a server or client leaves,
      is read as the calls of the whole frames, and then as no call. */
  lemma {:induction false} TornRun(c: Cipher, sent: set<int>, calls: seq<V2Crypto.Call>,
                                   t: V2Client.Attempt, part: seq<Byte>)
    requires Lawful(c) && V2Crypto.AllSendable(c, calls)
    requires var types := V2Crypto.SentOf(sent, calls);
             && part <= V2Client.PartOf(c, types, t)
             && (V2Client.FateOf(c, t).Encoded? ==> part != V2Client.PartOf(c, types, t))
    ensures var rs := V2Crypto.ReadRun(c, sent, V2Crypto.Wire(c, sent, calls) + part, |calls| + 1).result;
            && |rs| == |calls| + 1 && rs[..|calls|] == V2Crypto.Expected(calls) && !IsWhole(rs[|calls|])
            && (part == [] ==> rs[|calls|] == (V2Crypto.AtEof, V2Crypto.PeekFailed))
            && (part != [] ==> ReadsTornCall(rs[|calls|], V2Crypto.SentOf(sent, calls), t, |part|))
  {
    hide V2Crypto.ReadRun, V2Crypto.Wire, ReadOne, IsWhole, ReadsTornCall;
    V2Crypto.PipelinedRun(c, sent, calls, part);
    RunSnoc(c, sent, V2Crypto.Wire(c, sent, calls) + part, |calls|);
    TornPart(c, c, V2Crypto.SentOf(sent, calls), t, part);
  }

  /** A wire of whole frames alone is read as its calls, and then as a clean end. */
  lemma {:induction false} CleanEnd(c: Cipher, sent: set<int>, calls: seq<V2Crypto.Call>)
    requires Lawful(c) && V2Crypto.AllSendable(c, calls)
    ensures V2Crypto.ReadRun(c, sent, V2Crypto.Wire(c, sent, calls), |calls| + 1).result
            == V2Crypto.Expected(calls) + [(V2Crypto.AtEof, V2Crypto.PeekFailed)]
  {
    hide V2Crypto.ReadRun, V2Crypto.Wire;
    var wire, types := V2Crypto.Wire(c, sent, calls), V2Crypto.SentOf(sent, calls);
    assert wire + [] == wire;
    V2Crypto.PipelinedRun(c, sent, calls, []);
    RunSnoc(c, sent, wire, |calls|);
    hide ReadOne, V2Crypto.Expected;
    NothingToRead(c, types);
  }

  lemma {:induction false} NothingToRead(c: Cipher, known: set<int>)
    ensures ReadOne(c, known, []) == (V2Crypto.AtEof, V2Crypto.PeekFailed)
  {
    hide V2Crypto.GobDecode;
    NothingIsNoValue(known);
    TornBody(c, known, []);
  }

  // ---------------------------------------------------------------- sealed JSON

  /** Nothing that was there before the call stayed out of the body read's reach, but at most
      the separator before the body. */
  predicate Pulled(a: JsonDecoder.Rx) {
    a.rest == [] || (a.buf == [] && a.rest == [JsonText.NEWLINE])
  }

  /** A frame cut short is not read as a frame, however far the decoders read ahead. */
  lemma {:induction false} TornCall(ahead: nat, maxBody: nat, c: JsonHandOff.Call, f: JsonHandOff.Frame, k: nat)
    requires JsonHandOff.IsCall(ahead, maxBody, c) && JsonHandOff.Fits(maxBody, f)
    requires k < |JsonHandOff.Bytes(f)| && c.before.All() == JsonHandOff.Bytes(f)[..k]
    requires k < |f.header| || Pulled(c.between)
    ensures !(c.header.Text? && c.body.blob.Sealed?)
  {
    hide JsonHandOff.BodyStep, JsonDecoder.DecodeStep, JsonText.Decode, JsonCrypto.ReadBlob, JsonCrypto.BodyPart;
    hide JsonText.IsObject;
    var h, s := f.header, JsonHandOff.Bytes(f)[..k];
    var cap := |c.before.Carry()| + maxBody;
    JsonDecoder.StepFacts(maxBody, c.before, c.header, c.between);
    if k < |h| {
      assert s == [] + h[..k];
      TornHeader(h, k, cap);
    } else {
      var body := JsonCrypto.BodyPart(f.sealed)[..k - |h|];
      assert s == h + body;
      WholeHeader(h, body, cap);
      assert c.between.All() == body;
      TornAtBody(ahead, maxBody, c.between, c.body, c.taken, c.after, f, k - |h|);
    }
  }

  lemma {:induction false} TornAtBody(ahead: nat, maxBody: nat, a: JsonDecoder.Rx, r: JsonCrypto.BlobRead, t: nat,
                                      b: JsonDecoder.Rx, f: JsonHandOff.Frame, n: nat)
    requires JsonHandOff.BodyStep(ahead, maxBody, a, r, t, b) && JsonHandOff.Fits(maxBody, f) && Pulled(a)
    requires n < |JsonCrypto.BodyPart(f.sealed)| && a.All() == JsonCrypto.BodyPart(f.sealed)[..n]
    ensures !r.blob.Sealed?
  {
    hide JsonHandOff.BodyStep, JsonCrypto.ReadBlob, JsonCrypto.BodyPart;
    JsonHandOff.BodyIsRead(ahead, maxBody, a, r, t, b);
    var sep: seq<Byte> := if a.rest == [] then [JsonText.NEWLINE] else [];
    TornSource(a, f.sealed, n);
    JsonCrypto.TornBody(sep, f.sealed, n - 1 + |sep|, maxBody);
  }

  /** What a body read then sees. */
  lemma {:induction false} TornSource(a: JsonDecoder.Rx, sealed: seq<Byte>, n: nat)
    requires Pulled(a) && n < |JsonCrypto.BodyPart(sealed)| && a.All() == JsonCrypto.BodyPart(sealed)[..n]
    ensures var whole := JsonCrypto.MAGIC + JsonCrypto.BlobBytes(sealed);
            JsonHandOff.BodySource(a) == if a.rest == [] then ([JsonText.NEWLINE] + whole)[..n]
                                         else ([] + whole)[..n - 1]
    ensures n >= if a.rest == [] then 0 else 1
    ensures |JsonCrypto.BodyPart(sealed)| == 1 + |JsonCrypto.MAGIC + JsonCrypto.BlobBytes(sealed)|
  {
    hide JsonCrypto.BlobBytes, JsonDecoder.Rx.All, JsonHandOff.BodySource;
    var whole := JsonCrypto.MAGIC + JsonCrypto.BlobBytes(sealed);
    SourceOf(a);
    Behind(whole, n);
  }

  lemma {:induction false} SourceOf(a: JsonDecoder.Rx)
    requires Pulled(a)
    ensures a.All() == (if a.rest == [] then [] else [JsonText.NEWLINE]) + JsonHandOff.BodySource(a)
  {
    if a.rest == [] {
      assert a.rest + a.net == a.net;
    } else {
      assert JsonHandOff.BodySource(a) == a.net;
    }
  }

  lemma {:induction false} Behind(whole: seq<Byte>, n: nat)
    requires n <= 1 + |whole|
    ensures ([JsonText.NEWLINE] + whole)[..n] == [] + ([JsonText.NEWLINE] + whole)[..n]
    ensures n > 0 ==> ([JsonText.NEWLINE] + whole)[..n][1..] == ([] + whole)[..n - 1]
  {
  }

  lemma {:induction false} TornHeader(h: seq<Byte>, k: nat, cap: nat)
    requires JsonText.IsObject(h) && k < |h| <= cap
    ensures !JsonText.Decode([] + h[..k], cap).Text?
  {
    hide JsonText.Decode;
    JsonText.ObjectIsText(h);
    JsonText.WhereTheStreamEnds([], h, k, cap);
  }

  /** An object is taken whatever follows it. */
  lemma {:induction false} WholeHeader(h: seq<Byte>, more: seq<Byte>, cap: nat)
    requires JsonText.IsObject(h) && |h| <= cap
    ensures JsonText.Decode(h + more, cap) == JsonText.Text(h, |h|) && (h + more)[|h|..] == more
  {
    var s := h + more;
    StopsExtend(JsonText.JSON, JsonText.START, h, more);
    StopsWindow(JsonText.JSON, JsonText.START, s, Min(|s|, cap));
    assert s[..Min(|s|, cap)][..|h|] == h;
  }

  /** Whole frames and then an unfinished one, each call on a whole frame keeping the stream:
      the frames are read, and then no frame. */
  lemma {:induction false} TornSealedRun(ahead: nat, maxBody: nat, calls: seq<JsonHandOff.Call>,
                                         fs: seq<JsonHandOff.Frame>, f: JsonHandOff.Frame, k: nat)
    requires JsonHandOff.Pipelined(ahead, maxBody, calls) && JsonHandOff.AllFit(maxBody, fs)
    requires JsonHandOff.Fits(maxBody, f) && k < |JsonHandOff.Bytes(f)| && |calls| == |fs| + 1
    requires calls[0].before.All() == JsonHandOff.Wire(fs) + JsonHandOff.Bytes(f)[..k]
    requires forall i :: 0 <= i < |fs| ==> JsonHandOff.KeptAt(calls[..|fs|], fs, i)
    requires k < |f.header| || Pulled(calls[|fs|].between)
    ensures forall i :: 0 <= i < |fs| ==> JsonHandOff.Reads(calls[i], fs[i])
    ensures !(calls[|fs|].header.Text? && calls[|fs|].body.blob.Sealed?)
  {
    hide JsonHandOff.IsCall, JsonHandOff.Reads, JsonHandOff.KeptAt, JsonHandOff.Bytes, JsonHandOff.Wire;
    hide JsonHandOff.Fits, JsonDecoder.Rx.All;
    var n, part, whole := |fs|, JsonHandOff.Bytes(f)[..k], calls[..|fs|];
    forall i | 0 <= i < n ensures JsonHandOff.PipelinedAt(ahead, maxBody, whole, i) {
      assert JsonHandOff.PipelinedAt(ahead, maxBody, calls, i);
    }
    forall i | 0 <= i < n ensures JsonHandOff.AlignedAt(whole, fs, part, i) {
      JsonHandOff.KeptAligned(ahead, maxBody, whole, fs, part, i);
    }
    assert JsonHandOff.PipelinedAt(ahead, maxBody, calls, n);
    if n > 0 {
      assert JsonHandOff.AlignedAt(whole, fs, part, n - 1);
    }
    NoFrames(fs, part);
    TornCall(ahead, maxBody, calls[n], f, k);
    forall i | 0 <= i < n ensures JsonHandOff.Reads(calls[i], fs[i]) {
      assert JsonHandOff.AlignedAt(whole, fs, part, i) && whole[i] == calls[i];
    }
  }

  lemma {:induction false} NoFrames(fs: seq<JsonHandOff.Frame>, part: seq<Byte>)
    ensures JsonHandOff.Wire(fs[|fs|..]) + part == part
    ensures fs == [] ==> JsonHandOff.Wire(fs) + part == part
  {
    assert fs[|fs|..] == [];
    assert [] + part == part;
  }

  // ----------------------------------------------------------------- plain JSON

  /** Wherever a wire of texts is cut, it is some whole lines and a front of the next text. */
  lemma {:induction false} WhereCut(texts: seq<seq<Byte>>, cut: nat) returns (n: nat, k: nat)
    requires cut < |JsonCodec.Lines(texts)|
    ensures n < |texts| && k <= |texts[n]|
    ensures JsonCodec.Lines(texts)[..cut] == JsonCodec.Lines(texts[..n]) + texts[n][..k]
  {
    var line := texts[0] + [JsonText.NEWLINE];
    var all := JsonCodec.Lines(texts);
    if cut < |line| {
      n, k := 0, cut;
      assert all[..cut] == texts[0][..cut] == [] + texts[0][..cut];
    } else {
      n, k := WhereCut(texts[1..], cut - |line|);
      n := n + 1;
      assert texts[1..][..n - 1] == texts[..n][1..];
      assert all[..cut] == line + JsonCodec.Lines(texts[1..])[..cut - |line|];
    }
  }

  /** What a reader of a wire cut short is told: every whole line's text, and then that the
      stream has ended or is cut, unless what has come of the next text is all of it, or a
      number as far as some digit. */
  lemma {:induction false} TornLines(maxBody: nat, rxs: seq<JsonDecoder.Rx>, rs: seq<JsonText.Outcome>,
                                     texts: seq<seq<Byte>>, n: nat, k: nat)
    requires JsonCodec.AllFit(maxBody, texts) && n < |texts| && k <= |texts[n]|
    requires JsonCodec.IsRun(maxBody, rxs, rs) && |rs| == n + 1
    requires rxs[0].All() == JsonCodec.Lines(texts[..n]) + texts[n][..k]
    ensures forall i :: 0 <= i < n ==> rs[i].Text? && rs[i].text == texts[i]
    ensures var v, sep := texts[n], JsonCodec.SepAt([], n);
            rs[n] == if k == 0 then JsonText.Eof
                     else if k == |v| || (JsonText.IsNumber(v) && JsonText.IsDigit(v[k - 1])) then
                       JsonText.Text(v[..k], |sep| + k)
                     else JsonText.Truncated
  {
    hide JsonDecoder.DecodeStep, JsonText.Decode, JsonText.IsText, JsonText.Need, JsonCodec.IsRun;
    var v, sep := texts[n], JsonCodec.SepAt([], n);
    WholeLines(maxBody, rxs, rs, texts, n, v[..k]);
    JsonDecoder.StepFacts(maxBody, rxs[n], rs[n], rxs[n + 1]);
    LastText(sep, v, k, |rxs[n].Carry()| + maxBody);
  }

  /** The whole lines, and where the reader then stands. */
  lemma {:induction false} WholeLines(maxBody: nat, rxs: seq<JsonDecoder.Rx>, rs: seq<JsonText.Outcome>,
                                      texts: seq<seq<Byte>>, n: nat, part: seq<Byte>)
    requires JsonCodec.AllFit(maxBody, texts) && n < |texts| && JsonCodec.IsRun(maxBody, rxs, rs) && |rs| == n + 1
    requires rxs[0].All() == JsonCodec.Lines(texts[..n]) + part
    ensures forall i :: 0 <= i < n ==> rs[i].Text? && rs[i].text == texts[i]
    ensures |rxs| == n + 2 && rxs[n].All() == JsonCodec.SepAt([], n) + part
    ensures JsonDecoder.DecodeStep(maxBody, rxs[n], rs[n], rxs[n + 1])
    ensures JsonText.IsText(texts[n]) && JsonText.Need([JsonText.NEWLINE], texts[n]) <= maxBody
  {
    hide JsonDecoder.DecodeStep, JsonDecoder.Rx.All, JsonText.IsText, JsonText.Need;
    var whole, rxs', rs' := texts[..n], rxs[..n + 1], rs[..n];
    forall i | 0 <= i < n ensures JsonCodec.StepAt(maxBody, rxs', rs', i) {
      assert JsonCodec.StepAt(maxBody, rxs, rs, i);
    }
    assert [] + (JsonCodec.Lines(whole) + part) == JsonCodec.Lines(whole) + part;
    JsonCodec.RunRecovers(maxBody, rxs', rs', [], whole, part, n);
    assert whole[n..] == [] && JsonCodec.Lines([]) + part == part;
    assert JsonCodec.StepAt(maxBody, rxs, rs, n);
  }

  lemma {:induction false} LastText(sep: seq<Byte>, v: seq<Byte>, k: nat, cap: nat)
    requires JsonText.Spaces(sep) && |sep| <= 1 && JsonText.IsText(v) && k <= |v|
    requires JsonText.Need([JsonText.NEWLINE], v) <= cap
    ensures JsonText.Decode(sep + v[..k], cap)
            == if k == 0 then JsonText.Eof
               else if k == |v| || (JsonText.IsNumber(v) && JsonText.IsDigit(v[k - 1])) then
                 JsonText.Text(v[..k], |sep| + k)
               else JsonText.Truncated
  {
    hide JsonText.Decode;
    JsonText.NeedBound([JsonText.NEWLINE], v);
    if k < |v| {
      JsonText.WhereTheStreamEnds(sep, v, k, cap);
    } else {
      assert v[..k] == v && v != [];
      JsonText.WholeAtTheEnd(sep, v, cap);
    }
  }
}
