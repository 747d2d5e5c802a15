/** How the v3 JSON-crypto reader passes the stream between its two decoders, and when
    that keeps every byte. */
module JsonHandOff {
  import opened Automata
  import opened Aead
  import opened JsonCrypto
  import opened JsonPull
  import opened JsonDecoder
  import JsonText
  import JsonWrites
  import Gob

  /** What a body read sees: the decoder's buffer and the connection, but not `rest`. */
  function BodySource(a: Rx): seq<Byte> {
    a.buf + a.net
  }

  /** What is left when `t` bytes of it were taken. */
  function Left(a: Rx, t: nat): Rx
    requires t <= |BodySource(a)|
  {
    Rx([], a.buf[Min(t, |a.buf|)..], a.net[t - Min(t, |a.buf|)..], 0)
  }

  /** The gob decoder at work on the blob, after a prefix of `u` bytes. */
  function AtBlob(a: Rx, maxBody: nat, u: nat): Pulling
    requires u <= |BodySource(a)| && u <= maxBody
  {
    Pulling(FRESH, Left(a, u).rest, Left(a, u).net, maxBody - u)
  }

  /** The bytes a body read may take: those of the prefix, and if it was found, those of
      some reads that end with the decoder's value or with nothing left. */
  ghost predicate MayTake(ahead: nat, maxBody: nat, a: Rx, t: nat) {
    var s := BodySource(a);
    var u := PrefixLen(s, maxBody);
    if !PrefixOutcome(s, maxBody).PrefixEnd? then t == u
    else exists cs :: Ends(ahead, AtBlob(a, maxBody, u), cs) && t == u + Sum(cs)
  }

  predicate Ends(ahead: nat, x: Pulling, cs: seq<nat>) {
    Legal(ahead, x, cs) && AtEnd(After(x, cs))
  }

  /** Reading a body, of which `t` bytes are taken; the decoder is rebuilt over what is
      left of its buffer. */
  ghost predicate BodyStep(ahead: nat, maxBody: nat, a: Rx, r: BlobRead, t: nat, b: Rx) {
    && r == ReadBlob(BodySource(a), maxBody)
    && t <= |BodySource(a)| && MayTake(ahead, maxBody, a, t) && b == Left(a, t)
  }

  lemma {:induction false} LeftAll(a: Rx, t: nat)
    requires t <= |BodySource(a)|
    ensures Left(a, t).All() == BodySource(a)[t..]
    ensures Left(a, t).rest + Left(a, t).net == BodySource(a)[t..]
  {
  }

  /** A body read takes at least the body's own bytes and at most `ahead` more, within the
      budget, never from the buffer into the connection; a refused prefix overshoots nothing. */
  lemma {:induction false} TakesWithin(ahead: nat, maxBody: nat, a: Rx, r: BlobRead, t: nat, b: Rx)
    requires BodyStep(ahead, maxBody, a, r, t, b)
    ensures r.len <= t <= r.len + ahead && t <= maxBody
    ensures 0 < r.len <= |a.buf| ==> t <= |a.buf|
    ensures r.blob.BadMagic? || r.blob.PrefixCut? ==> t == r.len
    ensures b.All() == BodySource(a)[t..]
  {
    var s := BodySource(a);
    var u := PrefixLen(s, maxBody);
    LeftAll(a, t);
    if PrefixOutcome(s, maxBody).PrefixEnd? {
      var x := AtBlob(a, maxBody, u);
      var cs :| Ends(ahead, x, cs) && t == u + Sum(cs);
      ReadsEnd(ahead, maxBody, a, cs);
    }
  }

  lemma {:induction false} LeftTwice(a: Rx, u: nat, k: nat)
    requires u + k <= |BodySource(a)|
    ensures var first, net := Left(a, u).rest, Left(a, u).net;
            && first[Min(k, |first|)..] == Left(a, u + k).rest && net[k - Min(k, |first|)..] == Left(a, u + k).net
            && |first| == |a.buf| - Min(u, |a.buf|)
            && |first + net| == |BodySource(a)| - u && (first + net)[..k] == BodySource(a)[u..u + k]
            && (k <= |first| && u <= |a.buf| ==> u + k <= |a.buf|)
  {
    LeftAll(a, u);
    assert BodySource(a)[u..][..k] == BodySource(a)[u..u + k];
  }

  /** Where reads that end leave the decoder. */
  lemma {:induction false} ReadsLeave(ahead: nat, maxBody: nat, a: Rx, u: nat, cs: seq<nat>)
    requires u <= |BodySource(a)| && u <= maxBody && Ends(ahead, AtBlob(a, maxBody, u), cs)
    ensures var s := BodySource(a);
            var t, y := u + Sum(cs), After(AtBlob(a, maxBody, u), cs);
            && t <= |s| && t <= maxBody && y.left == maxBody - t
            && y.first == Left(a, t).rest && y.net == Left(a, t).net
            && y.st == Run(Gob.GOB, FRESH, s[u..t])
            && (!Gob.Stopped(y.st) ==> t == Min(|s|, maxBody))
            && var e := u + Used(Gob.GOB, FRESH, s[u..t]);
               e <= t <= e + ahead && (u <= |a.buf| && e <= |a.buf| ==> t <= |a.buf|)
  {
    hide Legal, AtEnd, After, Run, Used, Left, BodySource, Took;
    var x := AtBlob(a, maxBody, u);
    ReadsTake(ahead, x, cs);
    TookLength(ahead, x, Sum(cs), After(x, cs));
    LeftTwice(a, u, 0);
    LeftTwice(a, u, Sum(cs));
    EndsAtLast(x, After(x, cs), Sum(cs), ahead);
    TookParts(ahead, x, Sum(cs), After(x, cs));
  }

  /** What the body read then is. */
  lemma {:induction false} ReadsEnd(ahead: nat, maxBody: nat, a: Rx, cs: seq<nat>)
    requires var s := BodySource(a);
             PrefixOutcome(s, maxBody).PrefixEnd? && Ends(ahead, AtBlob(a, maxBody, PrefixLen(s, maxBody)), cs)
    ensures var s := BodySource(a);
            var u := PrefixLen(s, maxBody);
            var t, y := u + Sum(cs), After(AtBlob(a, maxBody, u), cs);
            var r := ReadBlob(s, maxBody);
            && t <= |s| && t <= maxBody
            && y.left == maxBody - t && y.first == Left(a, t).rest && y.net == Left(a, t).net
            && r.blob == Reported(PrefixEnd, y.st, y.left)
            && r.len <= t <= r.len + ahead && (0 < r.len <= |a.buf| ==> t <= |a.buf|)
  {
    hide Ends, After, Run, Used, ReadBlob, PrefixLen, PrefixOutcome, Left, BodySource, AtBlob, Reported;
    var s := BodySource(a);
    var u := PrefixLen(s, maxBody);
    ReadsLeave(ahead, maxBody, a, u, cs);
    ReadBlobBy(s, maxBody, u + Sum(cs));
  }

  lemma {:induction false} TookLength(ahead: nat, x: Pulling, t: nat, y: Pulling)
    requires Took(ahead, x, t, y)
    ensures t <= |x.first + x.net| && t <= x.left
  {
  }

  lemma {:induction false} TookParts(ahead: nat, x: Pulling, t: nat, y: Pulling)
    requires Took(ahead, x, t, y)
    ensures t <= |x.first + x.net| && y.left == x.left - t
    ensures y.first == x.first[Min(t, |x.first|)..] && y.net == x.net[t - Min(t, |x.first|)..]
    ensures y.st == Run(Gob.GOB, x.st, (x.first + x.net)[..t])
    ensures var e := Used(Gob.GOB, x.st, (x.first + x.net)[..t]);
            e <= t <= e + ahead && (e <= |x.first| ==> t <= |x.first|)
  {
    hide Run, Used;
  }

  lemma {:induction false} EndsAtLast(x: Pulling, y: Pulling, t: nat, ahead: nat)
    requires Took(ahead, x, t, y) && AtEnd(y)
    ensures !Gob.Stopped(y.st) ==> t == Min(|x.first + x.net|, x.left)
  {
    hide Run, Used;
  }

  // ------------------------------------------------------------- whole runs

  /** How the caller opens a body: with which cipher, and which texts it accepts. */
  datatype Opener = Opener(cipher: Cipher, accepts: seq<Byte> -> bool)

  datatype BodyResult = Delivered(text: seq<Byte>) | NotBytes | DecryptFailed | Mismatch | Failed(why: Blob)

  function Open(o: Opener, blob: Blob): BodyResult {
    if !blob.Sealed? then Failed(blob)
    else
      match Gob.AsBytes(blob.id, blob.content)
      case None => NotBytes
      case Some(sealed) =>
        match Decrypt(o.cipher, sealed)
        case None => DecryptFailed
        case Some(plain) => if o.accepts(plain) then Delivered(plain) else Mismatch
  }

  /** A frame on the wire: header text and sealed body. */
  datatype Frame = Frame(header: seq<Byte>, sealed: seq<Byte>)

  predicate Fits(maxBody: nat, f: Frame) {
    && JsonText.IsObject(f.header) && |f.header| <= maxBody
    && JsonWrites.Blob(f.sealed).Some?
    && |BodyPart(f.sealed)| <= maxBody
  }

  function Bytes(f: Frame): seq<Byte> {
    f.header + BodyPart(f.sealed)
  }

  function Wire(fs: seq<Frame>): seq<Byte> {
    if fs == [] then [] else Bytes(fs[0]) + Wire(fs[1..])
  }

  /** One call: a header, then a body of which `taken` bytes were read. */
  datatype Call = Call(before: Rx, header: JsonText.Outcome, between: Rx, body: BlobRead, taken: nat, after: Rx)

  ghost predicate IsCall(ahead: nat, maxBody: nat, c: Call) {
    && DecodeStep(maxBody, c.before, c.header, c.between)
    && BodyStep(ahead, maxBody, c.between, c.body, c.taken, c.after)
  }

  /** The call read frame `f`. */
  predicate Reads(c: Call, f: Frame) {
    && c.header == JsonText.Text(f.header, |f.header|)
    && c.body.blob == SealedBlob(f.sealed)
  }

  lemma {:induction false} HeaderReads(maxBody: nat, a: Rx, r: JsonText.Outcome, b: Rx,
                                       f: Frame, tail: seq<Byte>)
    requires DecodeStep(maxBody, a, r, b) && Fits(maxBody, f) && a.All() == Bytes(f) + tail
    ensures r == JsonText.Text(f.header, |f.header|) && b.All() == BodyPart(f.sealed) + tail
  {
    hide JsonText.Decode, Bytes, BodyPart, DecodeStep, JsonText.IsObject;
    StepFacts(maxBody, a, r, b);
    BytesSplit(f, tail);
    JsonText.DecodeObject(f.header, MAGIC + BlobBytes(f.sealed) + tail, |a.Carry()| + maxBody);
  }

  lemma {:induction false} BytesSplit(f: Frame, tail: seq<Byte>)
    ensures var more := MAGIC + BlobBytes(f.sealed) + tail;
            && Bytes(f) + tail == [] + f.header + [NEWLINE] + more
            && BodyPart(f.sealed) + tail == [NEWLINE] + more
  {
    hide BlobBytes;
  }

  /** Where every call starts: with a decoder just built. */
  predicate Starts(a: Rx) {
    a.buf == [] && a.cap == 0
  }

  /** Of what the decoder was rebuilt over, a header read leaves what its buffer had no room
      for; so it is drained exactly if there was room for all. */
  lemma {:induction false} DrainedIff(maxBody: nat, a: Rx, r: JsonText.Outcome, b: Rx, f: Frame, tail: seq<Byte>)
    requires DecodeStep(maxBody, a, r, b) && Fits(maxBody, f) && a.All() == Bytes(f) + tail && Starts(a)
    ensures b.rest == a.rest[Min(Size(0, |f.header|), |a.rest|)..]
    ensures b.rest == [] <==> |a.rest| <= Size(0, |f.header|)
  {
    hide JsonText.Decode, BodyPart, DecodeStep, Size;
    HeaderReads(maxBody, a, r, b, f, tail);
    assert a.All() == f.header + (BodyPart(f.sealed) + tail);
    ObjectCompletes(f.header, BodyPart(f.sealed) + tail);
    RestAfter(maxBody, a, r, b, |f.header|);
  }

  // ------------------------------------------------------ the exact condition

  /** The call kept the stream: either the JSON decoder had pulled everything it was rebuilt
      over and exactly the body was taken, or the one byte it had not pulled was the
      separator before the body, which is then missing from what was taken and from what
      was lost alike. */
  predicate Kept(c: Call, f: Frame) {
    || (c.between.rest == [] && c.taken == |BodyPart(f.sealed)|)
    || (c.between.buf == [] && c.between.rest == [NEWLINE] && c.taken == |BodyPart(f.sealed)| - 1)
  }

  /** A body read at the body of a frame reads it and leaves the next frame... */
  predicate BodyRead(f: Frame, tail: seq<Byte>, r: BlobRead, b: Rx) {
    r.blob == SealedBlob(f.sealed) && b.All() == tail
  }

  lemma {:induction false} DrainedBody(ahead: nat, maxBody: nat, a: Rx, r: BlobRead, t: nat, b: Rx,
                                       f: Frame, tail: seq<Byte>)
    requires BodyStep(ahead, maxBody, a, r, t, b) && Fits(maxBody, f)
    requires a.rest == [] && a.All() == BodyPart(f.sealed) + tail
    ensures r == BlobRead(SealedBlob(f.sealed), |BodyPart(f.sealed)|)
    ensures b.All() == (BodyPart(f.sealed) + tail)[t..]
    ensures b.All() == tail <==> t == |BodyPart(f.sealed)|
  {
    hide BodyStep, BodyPart, ReadBlob;
    assert a.rest + a.net == a.net;
    assert a.All() == BodySource(a);
    BodyIsRead(ahead, maxBody, a, r, t, b);
    ReadWritten(f.sealed, tail, maxBody);
  }

  lemma {:induction false} BodyIsRead(ahead: nat, maxBody: nat, a: Rx, r: BlobRead, t: nat, b: Rx)
    requires BodyStep(ahead, maxBody, a, r, t, b)
    ensures r == ReadBlob(BodySource(a), maxBody)
    ensures r.len <= t <= |BodySource(a)| && b.All() == BodySource(a)[t..]
  {
    TakesWithin(ahead, maxBody, a, r, t, b);
  }

  lemma {:induction false} SeparatorBody(ahead: nat, maxBody: nat, a: Rx, r: BlobRead, t: nat, b: Rx,
                                         f: Frame, tail: seq<Byte>)
    requires BodyStep(ahead, maxBody, a, r, t, b) && Fits(maxBody, f)
    requires a.buf == [] && a.rest == [NEWLINE] && a.All() == BodyPart(f.sealed) + tail
    ensures r == BlobRead(SealedBlob(f.sealed), |BodyPart(f.sealed)| - 1)
    ensures t == |BodyPart(f.sealed)| - 1 ==> b.All() == tail
  {
    hide BodyStep, ReadBlob, BlobBytes, SealedBlob, BodySource, Rx.All, Fits, BodyPart, JsonWrites.Blob;
    var s := MAGIC + (BlobBytes(f.sealed) + tail);
    FitsBody(maxBody, f);
    BodyBytes(f.sealed, tail);
    SeparatorSource(a, s);
    BodyIsRead(ahead, maxBody, a, r, t, b);
    SealedHere(f.sealed, tail, maxBody);
  }

  /** A sealed body right where a read begins. */
  lemma {:induction false} SealedHere(sealed: seq<Byte>, tail: seq<Byte>, cap: nat)
    requires JsonWrites.Blob(sealed).Some? && |BodyPart(sealed)| <= 1 + cap
    ensures ReadBlob(MAGIC + (BlobBytes(sealed) + tail), cap) == BlobRead(SealedBlob(sealed), |BodyPart(sealed)| - 1)
  {
    hide ReadBlob, BlobBytes, SealedBlob, BodyPart, JsonWrites.Blob;
    BodyBytes(sealed, tail);
    ReadSealedAfter([], sealed, tail, cap);
    assert [] + (MAGIC + (BlobBytes(sealed) + tail)) == MAGIC + (BlobBytes(sealed) + tail);
  }

  lemma {:induction false} FitsBody(maxBody: nat, f: Frame)
    requires Fits(maxBody, f)
    ensures JsonWrites.Blob(f.sealed).Some? && |BodyPart(f.sealed)| <= maxBody
  {
  }

  lemma {:induction false} BodyBytes(sealed: seq<Byte>, tail: seq<Byte>)
    ensures var s := MAGIC + (BlobBytes(sealed) + tail);
            && BodyPart(sealed) + tail == [NEWLINE] + s && s[|MAGIC| + |BlobBytes(sealed)|..] == tail
    ensures |BodyPart(sealed)| == 1 + |MAGIC| + |BlobBytes(sealed)|
  {
    hide BlobBytes;
  }

  lemma {:induction false} SeparatorSource(a: Rx, s: seq<Byte>)
    requires a.buf == [] && a.rest == [NEWLINE] && a.All() == [NEWLINE] + s
    ensures BodySource(a) == s
  {
    assert a.All()[1..] == s && BodySource(a) == a.All()[1..];
  }

  /** ... only if nothing but the separator was missing. */
  lemma {:induction false} UndrainedBody(ahead: nat, maxBody: nat, a: Rx, r: BlobRead, t: nat, b: Rx,
                                         f: Frame, tail: seq<Byte>)
    requires BodyStep(ahead, maxBody, a, r, t, b) && Fits(maxBody, f)
    requires a.rest != [] && a.All() == BodyPart(f.sealed) + tail && BodyRead(f, tail, r, b)
    ensures a.buf == [] && a.rest == [NEWLINE] && t == |BodyPart(f.sealed)| - 1
  {
    hide BodyStep, ReadBlob, BlobBytes;
    assert |a.All()| == |BodySource(a)| + |a.rest|;
    assert a.All()[0] == NEWLINE;
    assert a.buf != [] ==> BodySource(a)[0] == a.All()[0];
    BodyIsRead(ahead, maxBody, a, r, t, b);
    ReadsAtLeast(f.sealed, BodySource(a), maxBody);
  }

  /** A call that starts at a frame reads it and leaves the stream at the next one if and
      only if it kept the stream. */
  lemma {:induction false} CallReadsIff(ahead: nat, maxBody: nat, c: Call, f: Frame, tail: seq<Byte>)
    requires IsCall(ahead, maxBody, c) && Fits(maxBody, f) && c.before.All() == Bytes(f) + tail
    ensures Reads(c, f) && c.after.All() == tail <==> Kept(c, f)
  {
    hide BodyStep, BodyPart, DecodeStep;
    HeaderReads(maxBody, c.before, c.header, c.between, f, tail);
    if c.between.rest == [] {
      DrainedBody(ahead, maxBody, c.between, c.body, c.taken, c.after, f, tail);
    } else if Kept(c, f) {
      SeparatorBody(ahead, maxBody, c.between, c.body, c.taken, c.after, f, tail);
    } else if Reads(c, f) && c.after.All() == tail {
      UndrainedBody(ahead, maxBody, c.between, c.body, c.taken, c.after, f, tail);
    }
  }

  /** An exact gob decoder keeps the stream whenever the JSON decoder was drained. */
  lemma {:induction false} ExactKeeps(maxBody: nat, c: Call, f: Frame, tail: seq<Byte>)
    requires IsCall(0, maxBody, c) && Fits(maxBody, f) && c.before.All() == Bytes(f) + tail
    requires c.between.rest == []
    ensures Kept(c, f)
  {
    hide BodyPart, DecodeStep;
    HeaderReads(maxBody, c.before, c.header, c.between, f, tail);
    TakesWithin(0, maxBody, c.between, c.body, c.taken, c.after);
    hide BodyStep;
    DrainedBody(0, maxBody, c.between, c.body, c.taken, c.after, f, tail);
  }

  predicate FitsAt(maxBody: nat, fs: seq<Frame>, i: nat)
    requires i < |fs|
  {
    Fits(maxBody, fs[i])
  }

  predicate AllFit(maxBody: nat, fs: seq<Frame>) {
    forall i :: 0 <= i < |fs| ==> FitsAt(maxBody, fs, i)
  }

  /** Calls one after another on one stream. */
  ghost predicate PipelinedAt(ahead: nat, maxBody: nat, calls: seq<Call>, i: nat)
    requires i < |calls|
  {
    && IsCall(ahead, maxBody, calls[i])
    && (i > 0 ==> calls[i].before == calls[i - 1].after)
  }

  ghost predicate Pipelined(ahead: nat, maxBody: nat, calls: seq<Call>) {
    forall i :: 0 <= i < |calls| ==> PipelinedAt(ahead, maxBody, calls, i)
  }

  predicate Drained(calls: seq<Call>) {
    forall i :: 0 <= i < |calls| ==> calls[i].between.rest == []
  }

  lemma {:induction false} WireFrom(fs: seq<Frame>, tail: seq<Byte>, k: nat)
    requires k < |fs|
    ensures Wire(fs[k..]) + tail == Bytes(fs[k]) + (Wire(fs[k + 1..]) + tail)
  {
    assert fs[k..][1..] == fs[k + 1..];
  }

  /** Call `i` read frame `i` and left the stream at the next one. */
  predicate AlignedAt(calls: seq<Call>, fs: seq<Frame>, tail: seq<Byte>, i: nat)
    requires i < |calls| <= |fs|
  {
    Reads(calls[i], fs[i]) && calls[i].after.All() == Wire(fs[i + 1..]) + tail
  }

  predicate KeptAt(calls: seq<Call>, fs: seq<Frame>, i: nat)
    requires i < |calls| <= |fs|
  {
    Kept(calls[i], fs[i])
  }

  /** A call that finds the stream at its frame. */
  lemma {:induction false} PipelinedCall(ahead: nat, maxBody: nat, calls: seq<Call>, fs: seq<Frame>,
                                         tail: seq<Byte>, k: nat)
    requires Pipelined(ahead, maxBody, calls) && AllFit(maxBody, fs) && k < |calls| <= |fs|
    requires calls[0].before.All() == Wire(fs) + tail
    requires k > 0 ==> AlignedAt(calls, fs, tail, k - 1)
    ensures AlignedAt(calls, fs, tail, k) <==> KeptAt(calls, fs, k)
  {
    hide IsCall, Reads, Bytes, Wire, Kept;
    assert PipelinedAt(ahead, maxBody, calls, k) && FitsAt(maxBody, fs, k);
    assert fs[0..] == fs;
    WireFrom(fs, tail, k);
    CallReadsIff(ahead, maxBody, calls[k], fs[k], Wire(fs[k + 1..]) + tail);
  }

  lemma {:induction false} KeptAligned(ahead: nat, maxBody: nat, calls: seq<Call>, fs: seq<Frame>,
                                       tail: seq<Byte>, k: nat)
    requires Pipelined(ahead, maxBody, calls) && AllFit(maxBody, fs) && k < |calls| <= |fs|
    requires calls[0].before.All() == Wire(fs) + tail
    requires forall i :: 0 <= i <= k ==> KeptAt(calls, fs, i)
    ensures AlignedAt(calls, fs, tail, k)
  {
    hide AlignedAt, KeptAt;
    assert KeptAt(calls, fs, k);
    if k > 0 {
      KeptAligned(ahead, maxBody, calls, fs, tail, k - 1);
    }
    PipelinedCall(ahead, maxBody, calls, fs, tail, k);
  }

  /** Pipelined bursts: the frames of a burst of any length are all read in order, each call
      leaving the stream at the next frame, if and only if every call kept the stream,
      whatever the fragmentation, the look-ahead and the read-ahead. */
  lemma {:induction false} PipelinedRunIff(ahead: nat, maxBody: nat, calls: seq<Call>, fs: seq<Frame>,
                                           tail: seq<Byte>)
    requires Pipelined(ahead, maxBody, calls) && AllFit(maxBody, fs) && |calls| <= |fs|
    requires calls != [] ==> calls[0].before.All() == Wire(fs) + tail
    ensures (forall i :: 0 <= i < |calls| ==> AlignedAt(calls, fs, tail, i))
            <==> (forall i :: 0 <= i < |calls| ==> KeptAt(calls, fs, i))
  {
    hide AlignedAt, KeptAt;
    if forall i :: 0 <= i < |calls| ==> KeptAt(calls, fs, i) {
      forall i | 0 <= i < |calls| ensures AlignedAt(calls, fs, tail, i) {
        KeptAligned(ahead, maxBody, calls, fs, tail, i);
      }
    }
    if forall i :: 0 <= i < |calls| ==> AlignedAt(calls, fs, tail, i) {
      forall i | 0 <= i < |calls| ensures KeptAt(calls, fs, i) {
        assert i > 0 ==> AlignedAt(calls, fs, tail, i - 1);
        PipelinedCall(ahead, maxBody, calls, fs, tail, i);
      }
    }
  }

  /** In particular with a gob decoder that reads exactly its own message and a JSON decoder
      that has always pulled what it was rebuilt over. */
  lemma {:induction false} PipelinedRun(maxBody: nat, calls: seq<Call>, fs: seq<Frame>,
                                        tail: seq<Byte>, k: nat)
    requires Pipelined(0, maxBody, calls) && Drained(calls) && AllFit(maxBody, fs)
    requires k < |calls| <= |fs| && calls[0].before.All() == Wire(fs) + tail
    ensures KeptAt(calls, fs, k) && AlignedAt(calls, fs, tail, k)
  {
    hide IsCall, Reads, Bytes, Wire, Kept, Fits;
    assert PipelinedAt(0, maxBody, calls, k) && FitsAt(maxBody, fs, k);
    if k > 0 {
      PipelinedRun(maxBody, calls, fs, tail, k - 1);
    }
    assert fs[0..] == fs;
    WireFrom(fs, tail, k);
    ExactKeeps(maxBody, calls[k], fs[k], Wire(fs[k + 1..]) + tail);
    PipelinedCall(0, maxBody, calls, fs, tail, k);
  }

  lemma {:induction false} WireShrinks(fs: seq<Frame>, k: nat)
    requires k <= |fs|
    ensures |Wire(fs[k..])| <= |Wire(fs)|
  {
    hide Bytes;
    if k > 0 {
      assert fs[1..][k - 1..] == fs[k..];
      WireShrinks(fs[1..], k - 1);
    }
  }

  lemma {:induction false} AfterBody(ahead: nat, maxBody: nat, a: Rx, r: BlobRead, t: nat, b: Rx)
    requires BodyStep(ahead, maxBody, a, r, t, b)
    ensures Starts(b)
  {
  }

  /** Calls between which the peer sends one frame at a time. */
  ghost predicate LockStepAt(ahead: nat, maxBody: nat, calls: seq<Call>, fs: seq<Frame>, i: nat)
    requires i < |calls| <= |fs|
  {
    && IsCall(ahead, maxBody, calls[i])
    && calls[i].before == Arrived(if i == 0 then Fresh([]) else calls[i - 1].after, Bytes(fs[i]))
  }

  function Arrived(a: Rx, more: seq<Byte>): Rx {
    Rx(a.buf, a.rest, a.net + more, a.cap)
  }

  ghost predicate LockStep(ahead: nat, maxBody: nat, calls: seq<Call>, fs: seq<Frame>)
    requires |calls| <= |fs|
  {
    forall i :: 0 <= i < |calls| ==> LockStepAt(ahead, maxBody, calls, fs, i)
  }

  /** A body with nothing after it is taken whole and exactly. */
  lemma {:induction false} LoneBody(ahead: nat, maxBody: nat, a: Rx, r: BlobRead, t: nat, b: Rx, f: Frame)
    requires BodyStep(ahead, maxBody, a, r, t, b) && Fits(maxBody, f)
    requires a.rest == [] && a.All() == BodyPart(f.sealed) + []
    ensures r.blob == SealedBlob(f.sealed) && t == |BodyPart(f.sealed)| && b.All() == []
  {
    hide BodyPart, BodyStep, ReadBlob, SealedBlob, Fits, BlobBytes;
    BodyIsRead(ahead, maxBody, a, r, t, b);
    DrainedBody(ahead, maxBody, a, r, t, b, f, []);
    assert |BodySource(a)| == |a.All()|;
  }

  /** A frame with nothing after it is kept, however far the decoders read ahead. */
  lemma {:induction false} LoneFrameKeeps(ahead: nat, maxBody: nat, c: Call, f: Frame)
    requires IsCall(ahead, maxBody, c) && Fits(maxBody, f)
    requires c.before.rest == [] && c.before.All() == Bytes(f) + []
    ensures Kept(c, f)
  {
    hide BodyPart, BodyStep, DecodeStep, ReadBlob, SealedBlob, Fits;
    HeaderReads(maxBody, c.before, c.header, c.between, f, []);
    StepFacts(maxBody, c.before, c.header, c.between);
    assert c.between.rest == [];
    LoneBody(ahead, maxBody, c.between, c.body, c.taken, c.after, f);
  }

  lemma {:induction false} LockStepCall(ahead: nat, maxBody: nat, calls: seq<Call>, fs: seq<Frame>, k: nat)
    requires k < |calls| <= |fs| && LockStepAt(ahead, maxBody, calls, fs, k) && FitsAt(maxBody, fs, k)
    requires k > 0 ==> calls[k - 1].after == Fresh([])
    ensures Reads(calls[k], fs[k]) && calls[k].after == Fresh([])
  {
    hide JsonText.Decode, DecodeStep, BodyStep, ReadBlob, Reads;
    assert calls[k].before.All() == Bytes(fs[k]) + [];
    LoneFrameKeeps(ahead, maxBody, calls[k], fs[k]);
    CallReadsIff(ahead, maxBody, calls[k], fs[k], []);
    AfterBody(ahead, maxBody, calls[k].between, calls[k].body, calls[k].taken, calls[k].after);
    assert |calls[k].after.All()| == 0;
  }

  lemma {:induction false} LockStepNext(ahead: nat, maxBody: nat, calls: seq<Call>, fs: seq<Frame>, k: nat)
    requires |calls| <= |fs| && AllFit(maxBody, fs) && LockStep(ahead, maxBody, calls, fs) && k < |calls|
    requires k > 0 ==> calls[k - 1].after == Fresh([])
    ensures Reads(calls[k], fs[k]) && calls[k].after == Fresh([])
  {
    assert LockStepAt(ahead, maxBody, calls, fs, k) && FitsAt(maxBody, fs, k);
    LockStepCall(ahead, maxBody, calls, fs, k);
  }

  lemma {:induction false} LockStepStands(ahead: nat, maxBody: nat, calls: seq<Call>,
                                          fs: seq<Frame>, k: nat)
    requires |calls| <= |fs| && AllFit(maxBody, fs) && LockStep(ahead, maxBody, calls, fs) && k <= |calls|
    ensures k > 0 ==> calls[k - 1].after == Fresh([])
  {
    if k > 0 {
      LockStepStands(ahead, maxBody, calls, fs, k - 1);
      LockStepNext(ahead, maxBody, calls, fs, k - 1);
    }
  }

  /** Lock-step: if the peer sends each frame only after the previous one was read, every
      frame is read, for every read-ahead. */
  lemma {:induction false} LockStepRun(ahead: nat, maxBody: nat, calls: seq<Call>, fs: seq<Frame>)
    requires |calls| <= |fs| && AllFit(maxBody, fs) && LockStep(ahead, maxBody, calls, fs)
    ensures forall i :: 0 <= i < |calls| ==> Reads(calls[i], fs[i]) && calls[i].after == Fresh([])
  {
    forall i | 0 <= i < |calls|
      ensures Reads(calls[i], fs[i]) && calls[i].after == Fresh([])
    {
      LockStepStands(ahead, maxBody, calls, fs, i);
      LockStepNext(ahead, maxBody, calls, fs, i);
    }
  }

  // ------------------------------------------------------- opening the bodies

  /** What was sealed with one cipher, opened with another or the same: the right one
      recovers the text, for a caller that accepts it; one that does not open it fails. */
  lemma {:induction false} OpensSealed(o: Opener, c: Cipher, nonce: seq<Byte>, text: seq<Byte>)
    requires Lawful(c) && |nonce| == c.nonceSize && |Encrypt(c, nonce, text)| < Gob.U64
    ensures o.cipher == c ==>
              Open(o, SealedBlob(Encrypt(c, nonce, text))) == if o.accepts(text) then Delivered(text) else Mismatch
    ensures Decrypt(o.cipher, Encrypt(c, nonce, text)).None? ==>
              Open(o, SealedBlob(Encrypt(c, nonce, text))) == DecryptFailed
  {
    Gob.BytesRoundTrip(Encrypt(c, nonce, text));
    DecryptEncrypt(c, nonce, text);
  }
}
