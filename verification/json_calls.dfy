/** What every call of the sealed JSON codec keeps of the stream, as a condition on the state
    before it: how many bytes its JSON decoder was built over, and what follows its frame. */
module JsonCalls {
  import opened Automata
  import opened JsonCrypto
  import opened JsonPull
  import opened JsonDecoder
  import opened JsonHandOff
  import opened JsonLosses
  import JsonText
  import JsonWrites

  // -------------------------------------------------------------- calls can be made

  lemma {:induction false} BodyExists(ahead: nat, maxBody: nat, a: Rx) returns (r: BlobRead, t: nat, b: Rx)
    ensures BodyStep(ahead, maxBody, a, r, t, b)
  {
    hide Run, Used, ReadBlob, PrefixOutcome, PrefixLen, Ends, BodySource, Left, AtBlob;
    r := ReadBlob(BodySource(a), maxBody);
    var u := PrefixLen(BodySource(a), maxBody);
    t := u;
    if PrefixOutcome(BodySource(a), maxBody).PrefixEnd? {
      LegalNothing(ahead, AtBlob(a, maxBody, u));
      var cs := ReadsCanEnd(ahead, AtBlob(a, maxBody, u), []);
      ReadsEnd(ahead, maxBody, a, cs);
      t := u + Sum(cs);
    }
    b := Left(a, t);
  }

  /** A header read that leaves `held` bytes in the buffer, of those the decoder was built over
      if they reach beyond the header, else of the connection. */
  lemma {:induction false} HeaderTo(maxBody: nat, a: Rx, f: Frame, tail: seq<Byte>, held: nat) returns (b: Rx)
    requires Fits(maxBody, f) && Starts(a) && a.All() == Bytes(f) + tail && |a.rest| <= Size(0, |f.header|)
    requires var h := |f.header|;
             if |a.rest| >= h then held == |a.rest| - h
             else h + held <= Room(0, h - 1) && h + held <= |a.rest| + Min(maxBody, |a.net|)
    ensures DecodeStep(maxBody, a, JsonText.Text(f.header, |f.header|), b)
    ensures b.rest == [] && |b.buf| == held && b.All() == BodyPart(f.sealed) + tail
  {
    hide DecodeStep, BodyPart, JsonText.Decode, JsonText.IsObject, Size, Room, Fills, Filled;
    var h := |f.header|;
    FrameCompletes(a, f, tail);
    var r;
    if |a.rest| >= h {
      r, b := DecodeExists(maxBody, a);
      NetUntouched(maxBody, a, r, b, h);
    } else {
      var cs := CanHold(maxBody, a, h, h + held);
      r, b := DecodeHolding(maxBody, a, cs, h + held);
    }
    HeaderReads(maxBody, a, r, b, f, tail);
    DrainedIff(maxBody, a, r, b, f, tail);
    assert |a.rest| >= h ==> |b.buf| + |b.net| == |b.All()|;
  }

  lemma {:induction false} FrameCompletes(a: Rx, f: Frame, tail: seq<Byte>)
    requires JsonText.IsObject(f.header) && a.All() == Bytes(f) + tail
    ensures Completes(a.All(), |f.header|) && |f.header| > 0
  {
    hide Completes, BodyPart, JsonText.IsObject;
    assert a.All() == f.header + (BodyPart(f.sealed) + tail);
    ObjectCompletes(f.header, BodyPart(f.sealed) + tail);
  }

  /** How much a header read leaves in the buffer when what the decoder was built over reaches
      beyond the header. */
  lemma {:induction false} HeldAfter(maxBody: nat, a: Rx, r: JsonText.Outcome, b: Rx, f: Frame, tail: seq<Byte>)
    requires DecodeStep(maxBody, a, r, b) && Fits(maxBody, f) && Starts(a) && a.All() == Bytes(f) + tail
    requires |a.rest| >= |f.header|
    ensures |b.buf| == Min(Size(0, |f.header|), |a.rest|) - |f.header|
  {
    hide DecodeStep, BodyPart, JsonText.IsObject, Size;
    FrameCompletes(a, f, tail);
    NetUntouched(maxBody, a, r, b, |f.header|);
    HeaderReads(maxBody, a, r, b, f, tail);
    DrainedIff(maxBody, a, r, b, f, tail);
    assert |b.buf| + |b.rest| + |b.net| == |b.All()| == |a.All()| - |f.header|;
  }

  // ------------------------------------------------------- when every call keeps

  /** What the decoder was built over fits in its buffer when it has grown for the header, and
      then no read of the body can lose bytes; or all but the separator fits, just behind the
      header, and nothing can be read beyond the body. */
  predicate AlwaysKeeps(ahead: nat, maxBody: nat, rest: nat, f: Frame, tail: seq<Byte>)
    requires IsMessage(f)
  {
    var h, size := |f.header|, Size(0, |f.header|);
    if rest <= size then !Loses(ahead, maxBody, Max(rest - h, 0), f, tail)
    else rest == size + 1 && size == h && (ahead == 0 || tail == [])
  }

  lemma {:induction false} DrainedCallKept(ahead: nat, maxBody: nat, c: Call, f: Frame, tail: seq<Byte>)
    requires IsCall(ahead, maxBody, c) && Fits(maxBody, f) && Starts(c.before) && c.before.All() == Bytes(f) + tail
    requires |c.before.rest| <= Size(0, |f.header|) && IsMessage(f)
    requires !Kept(c, f)
    ensures Loses(ahead, maxBody, Max(|c.before.rest| - |f.header|, 0), f, tail)
  {
    hide DecodeStep, BodyStep, BodyPart, BlobBytes, JsonText.IsObject, Size, Overshoots, Payload, JsonWrites.Blob;
    var a, b := c.before, c.between;
    HeaderReads(maxBody, a, c.header, b, f, tail);
    DrainedIff(maxBody, a, c.header, b, f, tail);
    DrainedBody(ahead, maxBody, b, c.body, c.taken, c.after, f, tail);
    LosingIsLoses(ahead, maxBody, b, c.body, c.taken, c.after, f, tail);
    if |a.rest| >= |f.header| {
      HeldAfter(maxBody, a, c.header, b, f, tail);
    } else {
      BodyPartLong(f);
    }
  }

  lemma {:induction false} BodyPartLong(f: Frame)
    ensures |BodyPart(f.sealed)| > 0
  {
  }

  /** What is left before the body when one byte did not fit. */
  lemma {:induction false} SeparatorLeft(maxBody: nat, a: Rx, r: JsonText.Outcome, b: Rx, f: Frame, tail: seq<Byte>)
    requires DecodeStep(maxBody, a, r, b) && Fits(maxBody, f) && Starts(a) && a.All() == Bytes(f) + tail
    requires |a.rest| == Size(0, |f.header|) + 1 && Size(0, |f.header|) == |f.header|
    ensures b.buf == [] && b.rest == [NEWLINE] && b.All() == BodyPart(f.sealed) + tail
  {
    hide DecodeStep, BlobBytes, JsonText.IsObject, Size;
    HeaderReads(maxBody, a, r, b, f, tail);
    DrainedIff(maxBody, a, r, b, f, tail);
    HeldAfter(maxBody, a, r, b, f, tail);
    assert b.All()[0] == NEWLINE && |b.rest| == 1;
  }

  lemma {:induction false} SeparatorCallKept(ahead: nat, maxBody: nat, c: Call, f: Frame, tail: seq<Byte>)
    requires IsCall(ahead, maxBody, c) && Fits(maxBody, f) && Starts(c.before) && c.before.All() == Bytes(f) + tail
    requires |c.before.rest| == Size(0, |f.header|) + 1 && Size(0, |f.header|) == |f.header|
    requires ahead == 0 || tail == []
    ensures Kept(c, f)
  {
    hide DecodeStep, BodyStep, BodyPart, Size, ReadBlob, Fits;
    var b := c.between;
    SeparatorLeft(maxBody, c.before, c.header, b, f, tail);
    SeparatorBody(ahead, maxBody, b, c.body, c.taken, c.after, f, tail);
    TakesWithin(ahead, maxBody, b, c.body, c.taken, c.after);
    BodyIsRead(ahead, maxBody, b, c.body, c.taken, c.after);
    assert |b.All()| == |BodySource(b)| + 1;
  }

  /** A call that does not keep the stream, where not every one does. */
  lemma {:induction false} LosingCall(ahead: nat, maxBody: nat, a: Rx, f: Frame, tail: seq<Byte>) returns (c: Call)
    requires Fits(maxBody, f) && Starts(a) && a.All() == Bytes(f) + tail && IsMessage(f)
    requires !AlwaysKeeps(ahead, maxBody, |a.rest|, f, tail)
    ensures IsCall(ahead, maxBody, c) && c.before == a && !Kept(c, f)
  {
    hide DecodeStep, BodyStep, BodyPart, BlobBytes, Size, ReadBlob, Fits, Loses, Payload, Room;
    var h, size := |f.header|, Size(0, |f.header|);
    var r, b, r', t, d;
    if |a.rest| <= size {
      RoomForHeader(maxBody, a, f, tail);
      b := HeaderTo(maxBody, a, f, tail, Max(|a.rest| - h, 0));
      r := JsonText.Text(f.header, h);
      r' := ReadBlob(BodySource(b), maxBody);
      t, d := SomeReadLoses(ahead, maxBody, b, f, tail);
      DrainedBody(ahead, maxBody, b, r', t, d, f, tail);
    } else {
      r, b := DecodeExists(maxBody, a);
      DrainedIff(maxBody, a, r, b, f, tail);
      HeaderFits(maxBody, f);
      HeldAfter(maxBody, a, r, b, f, tail);
      if |a.rest| == size + 1 && size == h {
        SeparatorLeft(maxBody, a, r, b, f, tail);
        r', t, d := SeparatorLoses(ahead, maxBody, b, f, tail);
      } else {
        r', t, d := BodyExists(ahead, maxBody, b);
      }
    }
    c := Call(a, r, b, r', t, d);
  }

  lemma {:induction false} HeaderFits(maxBody: nat, f: Frame)
    requires Fits(maxBody, f)
    ensures 0 < |f.header| <= maxBody && |f.header| <= Size(0, |f.header|)
  {
  }

  lemma {:induction false} RoomForHeader(maxBody: nat, a: Rx, f: Frame, tail: seq<Byte>)
    requires Fits(maxBody, f) && Starts(a) && a.All() == Bytes(f) + tail
    ensures var h := |f.header|;
            && 0 < h <= Room(0, h - 1) && h <= |a.rest| + |a.net| && h <= maxBody
  {
    hide Room, BodyPart;
    HeaderFits(maxBody, f);
    assert |a.All()| == |a.rest| + |a.net|;
  }

  /** Where only the separator was not pulled, the body ends on the connection. */
  lemma {:induction false} SeparatorLoses(ahead: nat, maxBody: nat, a: Rx, f: Frame, tail: seq<Byte>)
    returns (r: BlobRead, t: nat, b: Rx)
    requires Fits(maxBody, f) && a.buf == [] && a.rest == [NEWLINE] && a.All() == BodyPart(f.sealed) + tail
    requires ahead > 0 && tail != []
    ensures BodyStep(ahead, maxBody, a, r, t, b) && t == |BodyPart(f.sealed)|
  {
    hide BodyStep, BlobBytes, ReadBlob, Payload, Ends, PrefixOutcome, PrefixLen, AtBlob, StartsMsg, IsMessage;
    assert BodySource(a) == a.All()[1..] == [] + (MAGIC + (BlobBytes(f.sealed) + tail));
    BlobBegins(maxBody, a, [], f, tail);
    var cs := ConnectionCanOvershoot(ahead, AtBlob(a, maxBody, |MAGIC|), Payload(f));
    t, b := StepOf(ahead, maxBody, a, [], f, tail, cs);
    r := ReadBlob(BodySource(a), maxBody);
  }

  /** From the state in which every call starts, whatever its decoder was built over: every call
      that can be made on a frame keeps the stream if and only if the condition holds, which
      speaks only of the frame, of what follows it, and of the bytes the decoder was built over. */
  lemma {:induction false} EveryCallKeepsIff(ahead: nat, maxBody: nat, a: Rx, f: Frame, tail: seq<Byte>)
    requires Fits(maxBody, f) && Starts(a) && a.All() == Bytes(f) + tail
    ensures IsMessage(f)
    ensures (forall c :: IsCall(ahead, maxBody, c) && c.before == a ==> Kept(c, f))
            <==> AlwaysKeeps(ahead, maxBody, |a.rest|, f, tail)
  {
    hide IsCall, Kept, Fits, Loses, Size, Payload, BodyPart, IsMessage, Starts;
    FitsBlob(maxBody, f);
    PayloadFits(f);
    if AlwaysKeeps(ahead, maxBody, |a.rest|, f, tail) {
      forall c | IsCall(ahead, maxBody, c) && c.before == a ensures Kept(c, f) {
        if |a.rest| > Size(0, |f.header|) {
          SeparatorCallKept(ahead, maxBody, c, f, tail);
        } else if !Kept(c, f) {
          DrainedCallKept(ahead, maxBody, c, f, tail);
        }
      }
    } else {
      var c := LosingCall(ahead, maxBody, a, f, tail);
    }
  }

  /** In particular from a fresh reader: every call keeps the stream if and only if the gob
      decoder reads exactly, or nothing follows, or the body spends the whole budget. */
  lemma {:induction false} FreshCallKeepsIff(ahead: nat, maxBody: nat, f: Frame, tail: seq<Byte>)
    requires Fits(maxBody, f)
    ensures (forall c :: IsCall(ahead, maxBody, c) && c.before == Fresh(Bytes(f) + tail) ==> Kept(c, f))
            <==> ahead == 0 || tail == [] || |BodyPart(f.sealed)| == maxBody
  {
    hide IsCall, Kept, Size, Payload, IsMessage, Overshoots, Bytes, JsonText.IsObject;
    var a := Fresh(Bytes(f) + tail);
    assert a.All() == Bytes(f) + tail;
    EveryCallKeepsIff(ahead, maxBody, a, f, tail);
    FitsBlob(maxBody, f);
  }

  // ------------------------------------------------ bursts and an exact gob decoder

  /** How many bytes behind frame `f` the decoder that reads its header can come to hold. */
  function Beyond(f: Frame): nat {
    Max(Room(0, Max(|f.header| - 1, 0)) - |Bytes(f)|, 0)
  }

  /** An exact call that keeps the stream leaves at most that. */
  lemma {:induction false} RestBound(maxBody: nat, c: Call, f: Frame, tail: seq<Byte>)
    requires IsCall(0, maxBody, c) && Fits(maxBody, f) && Starts(c.before) && c.before.All() == Bytes(f) + tail
    requires c.taken == |BodyPart(f.sealed)| && c.between.rest == []
    ensures |c.after.rest| == Max(|c.between.buf| - |BodyPart(f.sealed)|, 0) <= Beyond(f)
  {
    hide DecodeStep, BodyPart, JsonText.IsObject, MayTake, ReadBlob, Room;
    HeaderReads(maxBody, c.before, c.header, c.between, f, tail);
    FrameCompletes(c.before, f, tail);
    LookedIs(c.before.All(), |f.header|);
    LookAhead(maxBody, c.before, c.header, c.between);
  }

  /** Behind every frame but the last, what can be held or is still to come fits in the buffer
      that reading the next header fills first. */
  predicate RoomyAt(fs: seq<Frame>, tail: seq<Byte>, k: nat)
    requires k < |fs|
  {
    k == 0 || Min(Beyond(fs[k - 1]), |Wire(fs[k..]) + tail|) <= Size(0, |fs[k].header|)
  }

  predicate Roomy(fs: seq<Frame>, tail: seq<Byte>) {
    forall k :: 0 <= k < |fs| ==> RoomyAt(fs, tail, k)
  }

  /** Such a burst, of any length, is read frame by frame by an exact gob decoder, whatever the
      fragmentation. */
  lemma {:induction false} RoomyBurstKept(maxBody: nat, calls: seq<Call>, fs: seq<Frame>, tail: seq<Byte>, k: nat)
    requires Pipelined(0, maxBody, calls) && AllFit(maxBody, fs) && k < |calls| <= |fs| && Roomy(fs, tail)
    requires calls[0].before == Fresh(Wire(fs) + tail)
    ensures Starts(calls[k].before) && calls[k].before.All() == Wire(fs[k..]) + tail
    ensures calls[k].between.rest == [] && KeptAt(calls, fs, k) && AlignedAt(calls, fs, tail, k)
  {
    hide BodyStep, DecodeStep, Reads, Bytes, Wire, Size, Beyond, Fits, Kept;
    assert PipelinedAt(0, maxBody, calls, k) && FitsAt(maxBody, fs, k);
    var c, more := calls[k], Wire(fs[k + 1..]) + tail;
    if k > 0 {
      RoomyBurstKept(maxBody, calls, fs, tail, k - 1);
      RestRoomy(maxBody, calls, fs, tail, k);
    }
    assert fs[0..] == fs;
    WireFrom(fs, tail, k);
    DrainedIff(maxBody, c.before, c.header, c.between, fs[k], more);
    ExactKeeps(maxBody, c, fs[k], more);
    PipelinedCall(0, maxBody, calls, fs, tail, k);
  }

  /** What the decoder of a later call was built over. */
  lemma {:induction false} RestRoomy(maxBody: nat, calls: seq<Call>, fs: seq<Frame>, tail: seq<Byte>, k: nat)
    requires Pipelined(0, maxBody, calls) && AllFit(maxBody, fs) && 0 < k < |calls| <= |fs| && Roomy(fs, tail)
    requires Starts(calls[k - 1].before) && calls[k - 1].before.All() == Wire(fs[k - 1..]) + tail
    requires calls[k - 1].between.rest == [] && KeptAt(calls, fs, k - 1) && AlignedAt(calls, fs, tail, k - 1)
    ensures Starts(calls[k].before) && |calls[k].before.rest| <= Size(0, |fs[k].header|)
  {
    hide BodyStep, DecodeStep, Reads, Bytes, Wire, Size, Beyond, Fits;
    assert PipelinedAt(0, maxBody, calls, k) && PipelinedAt(0, maxBody, calls, k - 1);
    assert FitsAt(maxBody, fs, k - 1) && RoomyAt(fs, tail, k);
    var c := calls[k - 1];
    AfterBody(0, maxBody, c.between, c.body, c.taken, c.after);
    WireFrom(fs, tail, k - 1);
    RestBound(maxBody, c, fs[k - 1], Wire(fs[k..]) + tail);
    assert |c.after.rest| <= |c.after.All()|;
  }

  /** A burst that fits in the first request of a decoder is one. */
  lemma {:induction false} SmallIsRoomy(maxBody: nat, fs: seq<Frame>, tail: seq<Byte>)
    requires AllFit(maxBody, fs) && |Wire(fs) + tail| <= 512
    ensures Roomy(fs, tail)
  {
    hide Bytes, Wire, Fits, Beyond, Size;
    forall k | 0 <= k < |fs| ensures RoomyAt(fs, tail, k) {
      assert FitsAt(maxBody, fs, k);
      WireShrinks(fs, k);
      SizeOf(maxBody, fs[k]);
    }
  }

  lemma {:induction false} SizeOf(maxBody: nat, f: Frame)
    requires Fits(maxBody, f)
    ensures Size(0, |f.header|) >= MIN_READ
  {
  }

  /** And so is every burst of frames of at least 1024 bytes with headers of at most 512. */
  lemma {:induction false} LongFramesAreRoomy(maxBody: nat, fs: seq<Frame>, tail: seq<Byte>)
    requires AllFit(maxBody, fs)
    requires forall i :: 0 <= i < |fs| ==> |fs[i].header| <= 512 && |Bytes(fs[i])| >= 1024
    ensures Roomy(fs, tail)
  {
    hide Bytes, Wire, Fits, Size, Room;
    forall k | 0 <= k < |fs| ensures RoomyAt(fs, tail, k) {
      assert FitsAt(maxBody, fs, k);
      SizeOf(maxBody, fs[k]);
      if k > 0 {
        SmallRoom(|fs[k - 1].header|);
      }
    }
  }

  lemma {:induction false} SmallRoom(h: nat)
    requires h <= MIN_READ
    ensures Room(0, Max(h - 1, 0)) <= 3 * MIN_READ
  {
    var n := Max(h - 1, 0);
    assert Room(0, n) == Room(MIN_READ, n);
    assert Room(3 * MIN_READ, n) == 3 * MIN_READ;
  }

  // ----------------------------------------------------- two calls, exactly

  /** Two calls from a fresh reader of two frames. */
  ghost predicate TwoCalls(maxBody: nat, f0: Frame, f: Frame, tail: seq<Byte>, c0: Call, c: Call) {
    && IsCall(0, maxBody, c0) && IsCall(0, maxBody, c)
    && c0.before == Fresh(Bytes(f0) + (Bytes(f) + tail)) && c.before == c0.after
  }

  /** The most that the first can leave for the second's decoder to be built over. */
  function MostLeft(maxBody: nat, f0: Frame, f: Frame, tail: seq<Byte>): nat {
    var held := Min(Min(Room(0, Max(|f0.header| - 1, 0)), maxBody), |Bytes(f0) + (Bytes(f) + tail)|);
    Max(held - |Bytes(f0)|, 0)
  }

  /** Even with an exact gob decoder a reader of two frames may lose bytes behind the second:
      if and only if the first may leave more than the second header's buffer holds, the
      separator apart when it stands right behind that. */
  lemma {:induction false} UndrainedLosesIff(maxBody: nat, f0: Frame, f: Frame, tail: seq<Byte>)
    requires Fits(maxBody, f0) && Fits(maxBody, f)
    ensures (exists c0, c :: TwoCalls(maxBody, f0, f, tail, c0, c) && !Kept(c, f))
            <==> MostLeft(maxBody, f0, f, tail)
                 > Size(0, |f.header|) + (if Size(0, |f.header|) == |f.header| then 1 else 0)
  {
    hide IsCall, Kept, Fits, Size, Bytes, MostLeft;
    var size := Size(0, |f.header|);
    forall c0, c | TwoCalls(maxBody, f0, f, tail, c0, c) && !Kept(c, f)
      ensures MostLeft(maxBody, f0, f, tail) > size + (if size == |f.header| then 1 else 0)
    {
      FirstLeaves(maxBody, f0, f, tail, c0);
      ExactIff(maxBody, c.before, f, tail);
    }
    if MostLeft(maxBody, f0, f, tail) > size + (if size == |f.header| then 1 else 0) {
      var c0 := FirstCanLeave(maxBody, f0, f, tail);
      ExactIff(maxBody, c0.after, f, tail);
      var c :| IsCall(0, maxBody, c) && c.before == c0.after && !Kept(c, f);
      assert TwoCalls(maxBody, f0, f, tail, c0, c);
    }
  }

  /** For an exact decoder what matters is what is not pulled. */
  lemma {:induction false} ExactIff(maxBody: nat, a: Rx, f: Frame, tail: seq<Byte>)
    requires Fits(maxBody, f) && Starts(a) && a.All() == Bytes(f) + tail
    ensures (forall c :: IsCall(0, maxBody, c) && c.before == a ==> Kept(c, f))
            <==> |a.rest| <= Size(0, |f.header|) + (if Size(0, |f.header|) == |f.header| then 1 else 0)
  {
    hide IsCall, Kept, Fits, Size, Bytes, IsMessage, BodyPart, Overshoots;
    EveryCallKeepsIff(0, maxBody, a, f, tail);
  }

  lemma {:induction false} FirstLeaves(maxBody: nat, f0: Frame, f: Frame, tail: seq<Byte>, c0: Call)
    requires Fits(maxBody, f0) && IsCall(0, maxBody, c0)
    requires c0.before == Fresh(Bytes(f0) + (Bytes(f) + tail))
    ensures Starts(c0.after) && c0.after.All() == Bytes(f) + tail
    ensures |c0.after.rest| <= MostLeft(maxBody, f0, f, tail)
  {
    hide BodyStep, DecodeStep, JsonText.Decode, BodyPart, ReadBlob, Bytes, Fits, Room, Reads;
    var more := Bytes(f) + tail;
    var a := c0.before;
    assert a.All() == Bytes(f0) + more;
    StepFacts(maxBody, a, c0.header, c0.between);
    HeaderReads(maxBody, a, c0.header, c0.between, f0, more);
    ExactKeeps(maxBody, c0, f0, more);
    CallReadsIff(0, maxBody, c0, f0, more);
    AfterBody(0, maxBody, c0.between, c0.body, c0.taken, c0.after);
    LeavesWithin(maxBody, f0, more, c0);
  }

  lemma {:induction false} LeavesWithin(maxBody: nat, f0: Frame, more: seq<Byte>, c0: Call)
    requires Fits(maxBody, f0) && IsCall(0, maxBody, c0) && c0.before == Fresh(Bytes(f0) + more)
    requires Kept(c0, f0) && c0.between.rest == [] && c0.between.All() == BodyPart(f0.sealed) + more
    ensures |c0.after.rest| <= Max(Min(Min(Room(0, Max(|f0.header| - 1, 0)), maxBody), |Bytes(f0) + more|)
                                   - |Bytes(f0)|, 0)
  {
    hide BodyStep, DecodeStep, JsonText.Decode, BodyPart, ReadBlob, JsonText.IsObject, Room;
    var a := c0.before;
    assert a.All() == Bytes(f0) + more;
    RestBound(maxBody, c0, f0, more);
    StepFacts(maxBody, a, c0.header, c0.between);
    assert |c0.between.buf| + |c0.between.net| == |c0.between.All()|;
  }

  lemma {:induction false} FirstCanLeave(maxBody: nat, f0: Frame, f: Frame, tail: seq<Byte>) returns (c0: Call)
    requires Fits(maxBody, f0) && MostLeft(maxBody, f0, f, tail) > 0
    ensures IsCall(0, maxBody, c0) && c0.before == Fresh(Bytes(f0) + (Bytes(f) + tail))
    ensures Starts(c0.after) && c0.after.All() == Bytes(f) + tail
    ensures |c0.after.rest| == MostLeft(maxBody, f0, f, tail)
  {
    hide BodyStep, DecodeStep, ReadBlob, JsonText.IsObject, Room, BodyPart, SealedBlob;
    var more := Bytes(f) + tail;
    var a := Fresh(Bytes(f0) + more);
    assert a.All() == Bytes(f0) + more;
    HeaderFits(maxBody, f0);
    var held := MostLeft(maxBody, f0, f, tail) + |BodyPart(f0.sealed)|;
    var b := HeaderTo(maxBody, a, f0, more, held);
    var r, t, d := BodyExists(0, maxBody, b);
    c0 := Call(a, JsonText.Text(f0.header, |f0.header|), b, r, t, d);
    ExactKeeps(maxBody, c0, f0, more);
    CallReadsIff(0, maxBody, c0, f0, more);
    AfterBody(0, maxBody, b, r, t, d);
    RestBound(maxBody, c0, f0, more);
  }

  /** So the smallest frames lose bytes once enough follows them. */
  lemma {:induction false} TinyBurstLoses(maxBody: nat, tail: seq<Byte>)
    requires maxBody > 524 && |tail| > 500
    ensures exists c0, c :: TwoCalls(maxBody, TINY, TINY, tail, c0, c) && !Kept(c, TINY)
  {
    hide IsCall, Kept, Fits;
    TinyFits();
    TinyFitsMore(maxBody);
    UndrainedLosesIff(maxBody, TINY, TINY, tail);
    assert Room(0, 1) == Room(MIN_READ, 1) == 3 * MIN_READ;
    assert Size(0, 2) == MIN_READ;
  }

  lemma {:induction false} TinyFitsMore(maxBody: nat)
    requires Fits(10, TINY) && maxBody >= 10
    ensures Fits(maxBody, TINY)
  {
  }
}
