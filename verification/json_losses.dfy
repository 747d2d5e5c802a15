/** When reading a sealed body loses bytes of what follows it: exactly, for every size of
    the buffer the gob decoder reads through. */
module JsonLosses {
  import opened Automata
  import opened JsonCrypto
  import opened JsonPull
  import opened JsonDecoder
  import opened JsonHandOff
  import Gob
  import JsonText
  import JsonWrites
  import V2Crypto

  // -------------------------------------------------------- reading one message

  /** A decoder that starts where the message with payload `p` starts. */
  predicate StartsMsg(x: Pulling, p: seq<Byte>) {
    && x.st == FRESH && 0 < |p| < Gob.TOO_BIG && Gob.Stopped(Gob.Deliver({}, p))
    && |Gob.Msg(p)| <= |x.first + x.net| && (x.first + x.net)[..|Gob.Msg(p)|] == Gob.Msg(p)
  }

  /** What the decoder wants with `t` bytes of the message of `m` taken, of which the first `c`
      are its count: a byte, the rest of the count, or the rest of the message, but in long
      messages none beyond the current piece. */
  function Wants(c: nat, m: nat, t: nat): (n: nat)
    requires c <= m && t < m
    ensures 1 <= n <= m - t
  {
    if t == 0 then 1
    else if t < c then c - t
    else Min(m - t, V2Crypto.PIECE - (t - c) % V2Crypto.PIECE)
  }

  lemma {:induction false} StateWithin(ahead: nat, x: Pulling, cs: seq<nat>, p: seq<Byte>)
    requires Legal(ahead, x, cs) && StartsMsg(x, p)
    ensures var t, m, y := Sum(cs), |Gob.Msg(p)|, After(x, cs);
            && (t < m ==> !Gob.Stopped(y.st))
            && (t < m ==> V2Crypto.Wanted(y.st) == Wants(|Gob.EncUint(|p|)|, m, t))
            && (t >= m ==> Gob.Stopped(y.st))
            && t <= |x.first + x.net| && t <= x.left && y.left == x.left - t
            && y.first == x.first[Min(t, |x.first|)..] && |y.net| == |x.first + x.net| - t - |y.first|
  {
    hide Legal, After, Took, Run, Used;
    var t, m := Sum(cs), |Gob.Msg(p)|;
    ReadsTake(ahead, x, cs);
    TookParts(ahead, x, t, After(x, cs));
    TookLength(ahead, x, t, After(x, cs));
    var src := x.first + x.net;
    if t < m {
      assert src[..t] == Gob.Msg(p)[..t];
      Gob.InsideMsg({}, true, p, t);
    } else {
      assert src[..t] == Gob.Msg(p) + src[m..t];
      Gob.RunMsg({}, true, p);
      StopsExtend(Gob.GOB, FRESH, Gob.Msg(p), src[m..t]);
    }
  }

  // ------------------------------------------------- from the buffer: determined

  /** Where reads of at least `n` bytes at a time end that have come to `t`. */
  function EndOf(n: nat, c: nat, m: nat, t: nat): (end: nat)
    requires n > 0 && c <= m
    ensures end >= m && end >= t
    decreases m - t
  {
    if t >= m then t else EndOf(n, c, m, t + Max(n, Wants(c, m, t)))
  }

  lemma {:induction false} EndStep(n: nat, c: nat, m: nat, t: nat)
    requires n > 0 && c <= m
    ensures EndOf(n, c, m, t) == if t >= m then t else EndOf(n, c, m, t + Max(n, Wants(c, m, t)))
  {
  }

  /** They end beyond the message. */
  predicate Overshoots(n: nat, c: nat, m: nat)
    requires n > 0 && c <= m
  {
    EndOf(n, c, m, 0) > m
  }

  /** How many bytes reads out of the buffer have taken, of `avail` within reach: if the message
      is complete, as many as lead to where they end. */
  predicate OnPath(n: nat, c: nat, m: nat, avail: nat, t: nat)
    requires n > 0 && c <= m
  {
    if t < m then EndOf(n, c, m, t) == EndOf(n, c, m, 0) else t == Min(EndOf(n, c, m, 0), avail)
  }

  lemma {:induction false} PathStep(n: nat, c: nat, m: nat, avail: nat, t: nat)
    requires n > 0 && c <= m < avail && t < m && OnPath(n, c, m, avail, t)
    ensures OnPath(n, c, m, avail, t + Min(Max(n, Wants(c, m, t)), avail - t))
  {
    hide Wants, EndOf;
    EndStep(n, c, m, t);
    EndStep(n, c, m, t + Max(n, Wants(c, m, t)));
  }

  lemma {:induction false} ReadsOnPath(ahead: nat, x: Pulling, cs: seq<nat>, p: seq<Byte>)
    requires Legal(ahead, x, cs) && StartsMsg(x, p)
    requires |Gob.Msg(p)| < |x.first| && |Gob.Msg(p)| < x.left
    ensures OnPath(1 + ahead, |Gob.EncUint(|p|)|, |Gob.Msg(p)|, Min(|x.first|, x.left), Sum(cs))
  {
    hide OnPath, After, Run, Gob.EncUint, Wants;
    var n, c, m, avail := 1 + ahead, |Gob.EncUint(|p|)|, |Gob.Msg(p)|, Min(|x.first|, x.left);
    if cs == [] {
      PathStart(n, c, m, avail);
    } else {
      var front := cs[..|cs| - 1];
      ReadsOnPath(ahead, x, front, p);
      StateWithin(ahead, x, front, p);
      PathStep(n, c, m, avail, Sum(front));
    }
  }

  lemma {:induction false} PathStart(n: nat, c: nat, m: nat, avail: nat)
    requires n > 0 && 0 < c <= m
    ensures OnPath(n, c, m, avail, 0)
  {
  }

  /** Where they end is determined: beyond the message exactly if they overshoot. */
  lemma {:induction false} BufferedEnd(ahead: nat, x: Pulling, cs: seq<nat>, p: seq<Byte>)
    requires Ends(ahead, x, cs) && StartsMsg(x, p)
    requires |Gob.Msg(p)| < |x.first| && |Gob.Msg(p)| < x.left
    ensures Sum(cs) >= |Gob.Msg(p)|
    ensures Sum(cs) > |Gob.Msg(p)| <==> Overshoots(1 + ahead, |Gob.EncUint(|p|)|, |Gob.Msg(p)|)
  {
    hide After, Legal, EndOf, Run, Gob.EncUint;
    StateWithin(ahead, x, cs, p);
    ReadsOnPath(ahead, x, cs, p);
  }

  // ------------------------------------------ from the connection: as it delivers

  /** Reading can always go on until it ends. */
  lemma {:induction false} ReadsCanEnd(ahead: nat, x: Pulling, cs: seq<nat>) returns (all: seq<nat>)
    requires Legal(ahead, x, cs)
    ensures Ends(ahead, x, all)
    decreases After(x, cs).left
  {
    hide Legal, After, Run;
    var y := After(x, cs);
    all := cs;
    if !AtEnd(y) {
      var k := Min(Min(Ask(ahead, y.st), y.left), if y.first != [] then |y.first| else |y.net|);
      Snoc(ahead, x, cs, k);
      all := ReadsCanEnd(ahead, x, cs + [k]);
    }
  }

  /** Reads can bring the decoder to any place in the message that lies on the connection. */
  lemma {:induction false} ReadsCanReach(ahead: nat, x: Pulling, cs: seq<nat>, p: seq<Byte>, target: nat)
    returns (all: seq<nat>)
    requires Legal(ahead, x, cs) && StartsMsg(x, p) && |Gob.Msg(p)| <= x.left
    requires Sum(cs) <= target < |Gob.Msg(p)| && |x.first| <= target
    ensures Legal(ahead, x, all) && Sum(all) == target
    decreases target - Sum(cs)
  {
    hide Legal, After, Run;
    all := cs;
    if Sum(cs) < target {
      StateWithin(ahead, x, cs, p);
      var y := After(x, cs);
      var k := if y.first != [] then Min(Min(Ask(ahead, y.st), y.left), |y.first|) else 1;
      Snoc(ahead, x, cs, k);
      all := ReadsCanReach(ahead, x, cs + [k], p, target);
    }
  }

  /** A read that asks for more than the last byte can get more than the last byte. */
  lemma {:induction false} ConnectionCanOvershoot(ahead: nat, x: Pulling, p: seq<Byte>) returns (cs: seq<nat>)
    requires StartsMsg(x, p) && ahead > 0 && |x.first| < |Gob.Msg(p)| < x.left
    requires |Gob.Msg(p)| < |x.first + x.net|
    ensures Ends(ahead, x, cs) && Sum(cs) == |Gob.Msg(p)| + 1
  {
    hide Legal, After, Run;
    var m := |Gob.Msg(p)|;
    LegalNothing(ahead, x);
    cs := ReadsCanReach(ahead, x, [], p, m - 1);
    StateWithin(ahead, x, cs, p);
    Snoc(ahead, x, cs, 2);
    StateWithin(ahead, x, cs + [2], p);
    cs := cs + [2];
  }

  lemma {:induction false} LegalNothing(ahead: nat, x: Pulling)
    ensures Legal(ahead, x, []) && Sum([]) == 0 && After(x, []) == x
  {
  }

  // ------------------------------------------------------------- at a sealed body

  function Payload(f: Frame): seq<Byte>
    requires |f.sealed| < Gob.U64
  {
    Gob.EncInt(Gob.BYTES_ID) + Gob.BytesContent(f.sealed)
  }

  /** A frame's blob is one gob message, whose count is so many of its bytes. */
  predicate IsMessage(f: Frame) {
    && |f.sealed| < Gob.U64 && 0 < |Payload(f)| < Gob.TOO_BIG
    && |Gob.EncUint(|Payload(f)|)| <= |BlobBytes(f.sealed)|
  }

  function CountLen(f: Frame): nat
    requires IsMessage(f)
  {
    |Gob.EncUint(|Payload(f)|)|
  }

  lemma {:induction false} PayloadFits(f: Frame)
    requires JsonWrites.Blob(f.sealed).Some?
    ensures IsMessage(f) && |BodyPart(f.sealed)| == 1 + |MAGIC| + |BlobBytes(f.sealed)|
    ensures BlobBytes(f.sealed) == Gob.Msg(Payload(f)) && Gob.Stopped(Gob.Deliver({}, Payload(f)))
  {
    Gob.DeliverInt({}, Gob.BYTES_ID, Gob.BytesContent(f.sealed));
  }

  /** A reader whose body source stands at the body of a frame, the separator before it taken
      or not. */
  predicate AtBodyAfter(maxBody: nat, a: Rx, sep: seq<Byte>, f: Frame, tail: seq<Byte>) {
    && Fits(maxBody, f) && (sep == [] || sep == [NEWLINE])
    && BodySource(a) == sep + (MAGIC + (BlobBytes(f.sealed) + tail))
  }

  /** A drained reader that stands at the body of a frame. */
  predicate AtBody(maxBody: nat, a: Rx, f: Frame, tail: seq<Byte>) {
    Fits(maxBody, f) && a.rest == [] && a.All() == BodyPart(f.sealed) + tail
  }

  lemma {:induction false} AtBodyIs(maxBody: nat, a: Rx, f: Frame, tail: seq<Byte>)
    requires AtBody(maxBody, a, f, tail)
    ensures AtBodyAfter(maxBody, a, [NEWLINE], f, tail) && BodySource(a) == a.All()
  {
    hide BlobBytes, Fits;
    assert a.rest + a.net == a.net;
    assert BodyPart(f.sealed) + tail == [NEWLINE] + (MAGIC + (BlobBytes(f.sealed) + tail));
  }

  lemma {:induction false} PrefixBegins(maxBody: nat, a: Rx, sep: seq<Byte>, f: Frame, tail: seq<Byte>)
    requires AtBodyAfter(maxBody, a, sep, f, tail)
    ensures var s, u := BodySource(a), |sep| + |MAGIC|;
            && PrefixOutcome(s, maxBody).PrefixEnd? && PrefixLen(s, maxBody) == u
            && u <= |s| && u <= maxBody && s[u..] == BlobBytes(f.sealed) + tail
  {
    hide PrefixOutcome, PrefixLen, BlobBytes, Run, Used;
    var s, u := BodySource(a), |sep| + |MAGIC|;
    PrefixOfBody(sep, []);
    assert s[..u] == sep + (MAGIC + []);
    PrefixBy(s, maxBody, u);
  }

  /** Its blob begins after separator and prefix. */
  lemma {:induction false} BlobBegins(maxBody: nat, a: Rx, sep: seq<Byte>, f: Frame, tail: seq<Byte>)
    requires AtBodyAfter(maxBody, a, sep, f, tail)
    ensures var s, u := BodySource(a), |sep| + |MAGIC|;
            && PrefixOutcome(s, maxBody).PrefixEnd? && PrefixLen(s, maxBody) == u
            && u <= |s| && u <= maxBody && IsMessage(f)
            && |Gob.Msg(Payload(f))| == |BlobBytes(f.sealed)| == |BodyPart(f.sealed)| - 1 - |MAGIC|
            && var x := AtBlob(a, maxBody, u);
               && StartsMsg(x, Payload(f)) && x.left == maxBody - u
               && |x.first| == |a.buf| - Min(u, |a.buf|)
               && |x.first + x.net| == |s| - u == |BlobBytes(f.sealed)| + |tail|
  {
    hide Run, Used, PrefixOutcome, PrefixLen, Gob.Deliver, BodySource, BlobBytes, Payload, Fits;
    PrefixBegins(maxBody, a, sep, f, tail);
    PayloadFits(f) by {
      FitsBlob(maxBody, f);
    }
    LeftAll(a, |sep| + |MAGIC|);
    assert (BlobBytes(f.sealed) + tail)[..|BlobBytes(f.sealed)|] == BlobBytes(f.sealed);
  }

  lemma {:induction false} FitsBlob(maxBody: nat, f: Frame)
    requires Fits(maxBody, f)
    ensures JsonWrites.Blob(f.sealed).Some?
  {
  }

  // ------------------------------------------------------------ the exact losses

  /** A body whose last byte is in the JSON decoder's buffer, with more behind it there: it
      is settled what the read takes, and that is more than the body exactly if the reads
      overshoot. */
  lemma {:induction false} BufferedLosesIff(ahead: nat, maxBody: nat, a: Rx, r: BlobRead, t: nat, b: Rx,
                                            f: Frame, tail: seq<Byte>)
    requires BodyStep(ahead, maxBody, a, r, t, b) && AtBody(maxBody, a, f, tail)
    requires |BodyPart(f.sealed)| < |a.buf| && |BodyPart(f.sealed)| < maxBody
    ensures IsMessage(f)
    ensures b.All() != tail <==> Overshoots(1 + ahead, CountLen(f), |BlobBytes(f.sealed)|)
  {
    hide PrefixOutcome, PrefixLen, BlobBytes, ReadBlob, Overshoots, Left, Ends, Payload, Run;
    AtBodyIs(maxBody, a, f, tail);
    BlobBegins(maxBody, a, [NEWLINE], f, tail);
    PayloadFits(f);
    var u := 1 + |MAGIC|;
    var x := AtBlob(a, maxBody, u);
    var cs :| Ends(ahead, x, cs) && t == u + Sum(cs);
    BufferedEnd(ahead, x, cs, Payload(f));
    DrainedBody(ahead, maxBody, a, r, t, b, f, tail);
  }

  /** What it takes for some read of a body, with `held` bytes in the decoder's buffer, to lose
      bytes of what follows it. */
  predicate Loses(ahead: nat, maxBody: nat, held: nat, f: Frame, tail: seq<Byte>)
    requires IsMessage(f)
  {
    var e := |BodyPart(f.sealed)|;
    && ahead > 0 && tail != [] && e < maxBody
    && (e > held || (e < held && Overshoots(1 + ahead, CountLen(f), |BlobBytes(f.sealed)|)))
  }

  /** At a frame, some read loses bytes exactly when a byte behind the body has arrived and
      the budget reaches it, and either the body ends on the connection, or it ends inside
      the buffer and the reads through the decoder's buffer overshoot it. */
  lemma {:induction false} SomeReadLosesIff(ahead: nat, maxBody: nat, a: Rx, f: Frame, tail: seq<Byte>)
    requires AtBody(maxBody, a, f, tail)
    ensures IsMessage(f)
    ensures (exists t, b :: BodyStep(ahead, maxBody, a, ReadBlob(BodySource(a), maxBody), t, b) && b.All() != tail)
            <==> Loses(ahead, maxBody, |a.buf|, f, tail)
  {
    hide PrefixOutcome, PrefixLen, BlobBytes, ReadBlob, Overshoots, Left, BodyStep, Payload, Rx.All, BodySource;
    var r := ReadBlob(BodySource(a), maxBody);
    PayloadFits(f);
    forall t, b | BodyStep(ahead, maxBody, a, r, t, b) && b.All() != tail
      ensures Loses(ahead, maxBody, |a.buf|, f, tail)
    {
      LosingIsLoses(ahead, maxBody, a, r, t, b, f, tail);
    }
    if Loses(ahead, maxBody, |a.buf|, f, tail) {
      var t, b := SomeReadLoses(ahead, maxBody, a, f, tail);
    }
  }

  lemma {:induction false} LosingIsLoses(ahead: nat, maxBody: nat, a: Rx, r: BlobRead, t: nat, b: Rx,
                                         f: Frame, tail: seq<Byte>)
    requires AtBody(maxBody, a, f, tail) && BodyStep(ahead, maxBody, a, r, t, b) && b.All() != tail
    requires IsMessage(f)
    ensures Loses(ahead, maxBody, |a.buf|, f, tail)
  {
    hide PrefixOutcome, PrefixLen, BlobBytes, ReadBlob, Overshoots, Left, Payload, MayTake;
    TakesWithin(ahead, maxBody, a, r, t, b);
    assert |BodyPart(f.sealed)| > 0;
    assert |BodySource(a)| == |a.All()| == |BodyPart(f.sealed)| + |tail|;
    DrainedBody(ahead, maxBody, a, r, t, b, f, tail);
    if |BodyPart(f.sealed)| < |a.buf| {
      BufferedLosesIff(ahead, maxBody, a, r, t, b, f, tail);
    }
  }

  /** A read that ends gives a body step. */
  lemma {:induction false} StepOf(ahead: nat, maxBody: nat, a: Rx, sep: seq<Byte>, f: Frame, tail: seq<Byte>,
                                  cs: seq<nat>) returns (t: nat, b: Rx)
    requires AtBodyAfter(maxBody, a, sep, f, tail)
    requires var u := |sep| + |MAGIC|;
             u <= |BodySource(a)| && u <= maxBody && Ends(ahead, AtBlob(a, maxBody, u), cs)
    ensures t == |sep| + |MAGIC| + Sum(cs)
    ensures BodyStep(ahead, maxBody, a, ReadBlob(BodySource(a), maxBody), t, b)
  {
    hide PrefixOutcome, PrefixLen, BlobBytes, ReadBlob, Left, Payload, Ends, Fits;
    BlobBegins(maxBody, a, sep, f, tail);
    ReadsEnd(ahead, maxBody, a, cs);
    t := |sep| + |MAGIC| + Sum(cs);
    b := Left(a, t);
  }

  lemma {:induction false} SomeReadLoses(ahead: nat, maxBody: nat, a: Rx, f: Frame, tail: seq<Byte>)
    returns (t: nat, b: Rx)
    requires AtBody(maxBody, a, f, tail) && IsMessage(f)
    requires Loses(ahead, maxBody, |a.buf|, f, tail)
    ensures BodyStep(ahead, maxBody, a, ReadBlob(BodySource(a), maxBody), t, b) && b.All() != tail
  {
    hide PrefixOutcome, PrefixLen, BlobBytes, ReadBlob, Overshoots, Left, Payload, Ends, BodyStep, Run, Legal, After;
    AtBodyIs(maxBody, a, f, tail);
    BlobBegins(maxBody, a, [NEWLINE], f, tail);
    PayloadFits(f);
    var u := 1 + |MAGIC|;
    var x := AtBlob(a, maxBody, u);
    var cs: seq<nat>;
    if |BodyPart(f.sealed)| > |a.buf| {
      cs := ConnectionCanOvershoot(ahead, x, Payload(f));
    } else {
      LegalNothing(ahead, x);
      cs := ReadsCanEnd(ahead, x, []);
    }
    t, b := StepOf(ahead, maxBody, a, [NEWLINE], f, tail, cs);
    var r := ReadBlob(BodySource(a), maxBody);
    DrainedBody(ahead, maxBody, a, r, t, b, f, tail);
    if |BodyPart(f.sealed)| < |a.buf| {
      BufferedLosesIff(ahead, maxBody, a, r, t, b, f, tail);
    }
  }

  const LIBRARY_BUFFER: nat := 4096

  lemma {:induction false} WantsPiece(c: nat, m: nat, t: nat)
    requires 0 < c <= t < m && (t - c) % V2Crypto.PIECE == 0
    ensures Wants(c, m, t) == Min(m - t, V2Crypto.PIECE)
  {
  }

  lemma {:induction false} BehindPieces(x: nat, d: nat)
    requires x % V2Crypto.PIECE == 0
    ensures (x + V2Crypto.PIECE) % V2Crypto.PIECE == 0
    ensures d < V2Crypto.PIECE ==> (x + d) % V2Crypto.PIECE == d
  {
  }

  lemma {:induction false} LastPiece(x: nat, d: nat)
    requires x % V2Crypto.PIECE == 0 && d < V2Crypto.PIECE
    ensures ShortPiece(x + d) <==> 0 < d < LIBRARY_BUFFER
  {
    BehindPieces(x, d);
  }

  predicate ShortPiece(size: nat) {
    0 < size % V2Crypto.PIECE < LIBRARY_BUFFER
  }

  /** Whole pieces, and what is left behind them. */
  lemma {:induction false} PiecesEnd(c: nat, m: nat, t: nat)
    requires 0 < c <= t <= m && (t - c) % V2Crypto.PIECE == 0
    ensures EndOf(LIBRARY_BUFFER, c, m, t) > m <==> ShortPiece(m - c)
    decreases m - t
  {
    hide EndOf, Wants, ShortPiece;
    EndStep(LIBRARY_BUFFER, c, m, t);
    BehindPieces(t - c, 0);
    if m - t < V2Crypto.PIECE {
      LastPiece(t - c, m - t);
    }
    if t < m {
      WantsPiece(c, m, t);
      if m - t >= V2Crypto.PIECE {
        PiecesEnd(c, m, t + V2Crypto.PIECE);
      } else {
        EndStep(LIBRARY_BUFFER, c, m, t + Max(LIBRARY_BUFFER, m - t));
      }
    }
  }

  /** What is wanted behind the first read. */
  lemma {:induction false} WantsNext(c: nat, m: nat)
    requires 0 < c <= 9 && LIBRARY_BUFFER < m
    ensures Wants(c, m, LIBRARY_BUFFER)
            == if m - c <= V2Crypto.PIECE then m - LIBRARY_BUFFER else V2Crypto.PIECE + c - LIBRARY_BUFFER
  {
    assert (LIBRARY_BUFFER - c) % V2Crypto.PIECE == LIBRARY_BUFFER - c;
  }

  lemma {:induction false} LibraryEnds(c: nat, m: nat)
    requires 0 < c <= 9 && c <= m
    ensures var n := LIBRARY_BUFFER;
            Overshoots(n, c, m) <==> m != n && (m < 2 * n || (m - c > V2Crypto.PIECE && ShortPiece(m - c)))
  {
    hide EndOf, Wants, ShortPiece;
    var n := LIBRARY_BUFFER;
    EndStep(n, c, m, 0);
    WantsFirst(c, m);
    EndStep(n, c, m, n);
    if n < m {
      WantsNext(c, m);
      if m - c > V2Crypto.PIECE {
        BehindPieces(0, 0);
        PiecesEnd(c, m, c + V2Crypto.PIECE);
      } else {
        EndStep(n, c, m, n + Max(n, m - n));
      }
    }
  }

  lemma {:induction false} WantsFirst(c: nat, m: nat)
    requires 0 < c <= m
    ensures Wants(c, m, 0) == 1
  {
  }

  /** Through the library's buffer of 4096 bytes, a blob is overshot unless it is just as long
      as the buffer, or at least twice as long and without a last piece shorter than it. */
  lemma {:induction false} LibraryOvershoots(f: Frame)
    requires JsonWrites.Blob(f.sealed).Some?
    ensures IsMessage(f)
    ensures var m, piece := |BlobBytes(f.sealed)|, 10 * 1024 * 1024;
            Overshoots(4096, CountLen(f), m)
            <==> m != 4096 && (m < 8192 || (|Payload(f)| > piece && 0 < |Payload(f)| % piece < 4096))
  {
    PayloadFits(f);
    Gob.DigitsOfU64(|Payload(f)|);
    hide BlobBytes, Payload;
    LibraryEnds(CountLen(f), |BlobBytes(f.sealed)|);
  }

  // ------------------------------------------------------------- a smallest frame

  /** An empty object and an empty sealed text. */
  const TINY: Frame := Frame([0x7B, 0x7D], [])

  lemma {:induction false} TinyFits()
    ensures Fits(10, TINY) && |Bytes(TINY)| == 12
  {
    var st := JsonText.Scan(JsonText.FirstName, JsonText.Within(JsonText.AtName, JsonText.Outermost));
    assert Run(JsonText.JSON, st, [0x7D]) == JsonText.End(false) && Used(JsonText.JSON, st, [0x7D]) == 1 by {
      assert [0x7D][1..] == [];
    }
    assert JsonText.Step(JsonText.START, 0x7B) == st;
    assert TINY.header[1..] == [0x7D];
    assert Gob.EncInt(Gob.BYTES_ID) == [10];
    assert Gob.BytesContent([]) == [0, 0];
    assert Gob.Encode({}, Gob.BytesValue([])) == [3, 10, 0, 0];
  }
}
