/** The v3 JSON-crypto codec, reading side.  A header is a clear JSON text read by a JSON
    decoder, which may read ahead; a body is the CRYPT prefix and a gob byte slice, read
    from what the decoder had buffered and then from the connection.  After a body the
    decoder is rebuilt over what is left of its old buffer.

    How far past its own message the gob decoder may read is a parameter, `ahead`: 0 if it
    reads exactly, 4095 with the buffer of 4096 bytes that gob puts around a reader without
    ReadByte. */
module JsonCrypto {
  import opened Automata
  import Gob
  import JsonText
  import JsonWrites
  import V2Crypto

  const NEWLINE: Byte := 10
  const MAGIC: seq<Byte> := V2Crypto.MAGIC

  // ---------------------------------------------------------- the CRYPT prefix

  /** `Part(k)`: k bytes of the prefix seen; separators are skipped only before it. */
  datatype PrefixState = Part(k: nat) | PrefixEnd | PrefixBad

  predicate PrefixStopped(st: PrefixState) {
    !st.Part?
  }

  function PrefixStep(st: PrefixState, b: Byte): PrefixState {
    if !st.Part? || st.k >= |MAGIC| then st
    else if st.k == 0 && JsonText.IsSpace(b) then st
    else if b != MAGIC[st.k] then PrefixBad
    else if st.k + 1 == |MAGIC| then PrefixEnd
    else Part(st.k + 1)
  }

  const PREFIX: Automaton<PrefixState> := Automaton(PrefixStep, PrefixStopped)

  lemma {:induction false} PrefixTail(k: nat, s: seq<Byte>)
    requires 1 <= k < |MAGIC|
    ensures Run(PREFIX, Part(k), s).PrefixEnd? <==> MAGIC[k..] <= s
    ensures MAGIC[k..] <= s ==> Used(PREFIX, Part(k), s) == |MAGIC| - k
    decreases |MAGIC| - k
  {
    if s != [] && s[0] == MAGIC[k] {
      assert MAGIC[k..] == [MAGIC[k]] + MAGIC[k + 1..];
      assert s == [s[0]] + s[1..];
      if k + 1 < |MAGIC| {
        PrefixTail(k + 1, s[1..]);
      }
    }
  }

  lemma {:induction false} PrefixHead(s: seq<Byte>)
    requires s == [] || !JsonText.IsSpace(s[0])
    ensures Run(PREFIX, Part(0), s).PrefixEnd? <==> MAGIC <= s
    ensures MAGIC <= s ==> Used(PREFIX, Part(0), s) == |MAGIC|
  {
    if s != [] && s[0] == MAGIC[0] {
      assert MAGIC == [MAGIC[0]] + MAGIC[1..];
      assert s == [s[0]] + s[1..];
      PrefixTail(1, s[1..]);
    }
  }

  function LeadingSpaces(s: seq<Byte>): (n: nat)
    ensures n <= |s|
    ensures JsonText.Spaces(s[..n])
    ensures n < |s| ==> !JsonText.IsSpace(s[n])
    decreases |s|
  {
    if s == [] || !JsonText.IsSpace(s[0]) then 0
    else
      var m := LeadingSpaces(s[1..]);
      assert s[..1 + m] == [s[0]] + s[1..][..m];
      1 + m
  }

  /** The scanner accepts exactly separators followed at once by the five bytes, and has
      then taken exactly those; a separator inside the prefix is refused. */
  lemma {:induction false} PrefixAccepts(s: seq<Byte>)
    ensures Run(PREFIX, Part(0), s).PrefixEnd? <==> MAGIC <= s[LeadingSpaces(s)..]
    ensures Run(PREFIX, Part(0), s).PrefixEnd? ==> Used(PREFIX, Part(0), s) == LeadingSpaces(s) + |MAGIC|
    decreases |s|
  {
    if s == [] || !JsonText.IsSpace(s[0]) {
      assert s[0..] == s;
      PrefixHead(s);
    } else {
      PrefixAccepts(s[1..]);
      assert s[LeadingSpaces(s)..] == s[1..][LeadingSpaces(s[1..])..];
    }
  }

  // ------------------------------------------------------- one body, as bytes

  datatype Blob =
    | Sealed(id: int, content: seq<Byte>)
    | BadMagic
    | PrefixCut
    | BlobRefused
    | BlobCut
    | TooLarge

  datatype BlobRead = BlobRead(blob: Blob, len: nat)

  const FRESH: Gob.State := Gob.Count({}, true)

  /** The bytes the scanner takes of a body, when at most `cap` may be read. */
  function PrefixLen(s: seq<Byte>, cap: nat): (u: nat)
    ensures u <= |s| && u <= cap
  {
    UsedBound(PREFIX, Part(0), s[..Min(|s|, cap)]);
    Used(PREFIX, Part(0), s[..Min(|s|, cap)])
  }

  function PrefixOutcome(s: seq<Byte>, cap: nat): PrefixState {
    Run(PREFIX, Part(0), s[..Min(|s|, cap)])
  }

  /** The body at the front of `s` when at most `cap` bytes may be read, and the bytes it
      takes.  Only the body's own bytes have a part in it. */
  function ReadBlob(s: seq<Byte>, cap: nat): (r: BlobRead)
    ensures r.len <= |s| && r.len <= cap
    ensures PrefixLen(s, cap) <= r.len
  {
    var seen := s[..Min(|s|, cap)];
    var u := PrefixLen(s, cap);
    match PrefixOutcome(s, cap)
    case PrefixBad => BlobRead(BadMagic, u)
    case Part(_) => BlobRead(if |s| >= cap then TooLarge else PrefixCut, u)
    case PrefixEnd =>
      UsedBound(Gob.GOB, FRESH, seen[u..]);
      var e := u + Used(Gob.GOB, FRESH, seen[u..]);
      var st := Run(Gob.GOB, FRESH, seen[u..]);
      if st.Value? then BlobRead(Sealed(st.id, st.content), e)
      else if st.Fail? then BlobRead(BlobRefused, e)
      else BlobRead(if |s| >= cap then TooLarge else BlobCut, |seen|)
  }

  /** What a body read reports once its two scans are over, with `left` of the budget. */
  function Reported(pst: PrefixState, gst: Gob.State, left: nat): Blob {
    match pst
    case PrefixBad => BadMagic
    case Part(_) => if left == 0 then TooLarge else PrefixCut
    case PrefixEnd =>
      if gst.Value? then Sealed(gst.id, gst.content)
      else if gst.Fail? then BlobRefused
      else if left == 0 then TooLarge else BlobCut
  }

  /** The prefix state and length are those of the bytes the scanner took. */
  lemma {:induction false} PrefixBy(s: seq<Byte>, cap: nat, u: nat)
    requires u <= |s| && u <= cap && Used(PREFIX, Part(0), s[..u]) == u
    requires !Stops(PREFIX, Part(0), s[..u]) ==> u == Min(|s|, cap)
    ensures PrefixOutcome(s, cap) == Run(PREFIX, Part(0), s[..u]) && PrefixLen(s, cap) == u
  {
    var seen := s[..Min(|s|, cap)];
    assert seen[..u] == s[..u] && seen == seen[..u] + seen[u..];
    if Stops(PREFIX, Part(0), s[..u]) {
      StopsExtend(PREFIX, Part(0), s[..u], seen[u..]);
    }
  }

  /** The report depends on the value's own bytes, whatever was read beyond it. */
  lemma {:induction false} ReadBlobBy(s: seq<Byte>, cap: nat, t: nat)
    requires PrefixOutcome(s, cap).PrefixEnd? && PrefixLen(s, cap) <= t <= Min(|s|, cap)
    requires !Stops(Gob.GOB, FRESH, s[PrefixLen(s, cap)..t]) ==> t == Min(|s|, cap)
    ensures var own := s[PrefixLen(s, cap)..t];
            ReadBlob(s, cap) == BlobRead(Reported(PrefixEnd, Run(Gob.GOB, FRESH, own), cap - t),
                                         PrefixLen(s, cap) + Used(Gob.GOB, FRESH, own))
  {
    var seen, u := s[..Min(|s|, cap)], PrefixLen(s, cap);
    assert seen[u..] == s[u..t] + seen[t..];
    UsedBound(Gob.GOB, FRESH, seen[u..]);
    if Stops(Gob.GOB, FRESH, s[u..t]) {
      StopsExtend(Gob.GOB, FRESH, s[u..t], seen[t..]);
    } else {
      assert seen[u..] == s[u..t];
    }
  }

  /** What the writer puts after a header: the header's newline, the prefix, the blob. */
  function BodyPart(sealed: seq<Byte>): seq<Byte> {
    [NEWLINE] + (MAGIC + BlobBytes(sealed))
  }

  function BlobBytes(sealed: seq<Byte>): seq<Byte> {
    var blob := JsonWrites.Blob(sealed);
    if blob.Some? then blob.value else []
  }

  /** What reading back such a blob yields. */
  function SealedBlob(sealed: seq<Byte>): Blob {
    Sealed(Gob.BYTES_ID, if |sealed| < Gob.U64 then Gob.BytesContent(sealed) else [])
  }

  lemma {:induction false} LeadingSpacesIs(sep: seq<Byte>, t: seq<Byte>)
    requires JsonText.Spaces(sep) && t != [] && !JsonText.IsSpace(t[0])
    ensures LeadingSpaces(sep + t) == |sep|
    decreases |sep|
  {
    if sep == [] {
      assert sep + t == t;
    } else {
      assert (sep + t)[1..] == sep[1..] + t;
      LeadingSpacesIs(sep[1..], t);
    }
  }

  lemma {:induction false} PrefixOfBody(sep: seq<Byte>, t: seq<Byte>)
    requires JsonText.Spaces(sep)
    ensures Run(PREFIX, Part(0), sep + (MAGIC + t)).PrefixEnd?
    ensures Used(PREFIX, Part(0), sep + (MAGIC + t)) == |sep| + |MAGIC|
    ensures (sep + (MAGIC + t))[|sep| + |MAGIC|..] == t
  {
    var s := sep + (MAGIC + t);
    LeadingSpacesIs(sep, MAGIC + t);
    assert s[|sep|..] == MAGIC + t;
    PrefixAccepts(s);
  }

  /** A sealed body after any separators, and with anything following, is read whole and
      exactly if it fits in the budget, and is refused for its size if it does not. */
  lemma {:induction false} ReadSealedAfter(sep: seq<Byte>, sealed: seq<Byte>, tail: seq<Byte>, cap: nat)
    requires JsonText.Spaces(sep) && JsonWrites.Blob(sealed).Some?
    ensures var s, n := sep + (MAGIC + (BlobBytes(sealed) + tail)), |sep| + |MAGIC| + |BlobBytes(sealed)|;
            && (n <= cap ==> ReadBlob(s, cap) == BlobRead(SealedBlob(sealed), n))
            && (n > cap ==> ReadBlob(s, cap).blob == TooLarge)
  {
    var msg := JsonWrites.Blob(sealed).value;
    var s, u := sep + (MAGIC + (msg + tail)), |sep| + |MAGIC|;
    var k := Min(|s|, cap);
    PrefixOfBody(sep, msg + tail);
    StopsWindow(PREFIX, Part(0), s, k);
    Gob.DecodeEncode({}, true, Gob.BytesValue(sealed));
    StopsExtend(Gob.GOB, FRESH, msg, tail);
    if u <= k {
      assert s[..k][u..] == (msg + tail)[..k - u];
      StopsWindow(Gob.GOB, FRESH, msg + tail, k - u);
    } else {
      assert !Stops(PREFIX, Part(0), s[..k]);
    }
  }

  /** A written body, after the header's newline. */
  lemma {:induction false} ReadWritten(sealed: seq<Byte>, tail: seq<Byte>, cap: nat)
    requires JsonWrites.Blob(sealed).Some?
    ensures |BodyPart(sealed)| <= cap ==>
              ReadBlob(BodyPart(sealed) + tail, cap) == BlobRead(SealedBlob(sealed), |BodyPart(sealed)|)
    ensures |BodyPart(sealed)| > cap ==> ReadBlob(BodyPart(sealed) + tail, cap).blob == TooLarge
  {
    hide BlobBytes, SealedBlob, ReadBlob;
    ReadSealedAfter([NEWLINE], sealed, tail, cap);
    assert BodyPart(sealed) + tail == [NEWLINE] + (MAGIC + (BlobBytes(sealed) + tail));
  }

  lemma {:induction false} BlobLength(sealed: seq<Byte>)
    requires JsonWrites.Blob(sealed).Some?
    ensures var c := Gob.BytesContent(sealed); |BlobBytes(sealed)| == |Gob.EncUint(1 + |c|)| + 1 + |c|
  {
    assert Gob.EncInt(Gob.BYTES_ID) == [10];
  }

  /** No read comes to a sealed body in fewer bytes than its writer used. */
  lemma {:induction false} ReadsAtLeast(sealed: seq<Byte>, s: seq<Byte>, cap: nat)
    requires JsonWrites.Blob(sealed).Some? && ReadBlob(s, cap).blob == SealedBlob(sealed)
    ensures |MAGIC| + |BlobBytes(sealed)| <= ReadBlob(s, cap).len
    ensures JsonText.IsSpace(s[0]) ==> 1 + |MAGIC| + |BlobBytes(sealed)| <= ReadBlob(s, cap).len
  {
    hide BlobBytes, Gob.BytesContent, Gob.EncUint, Run, Used, LeadingSpaces;
    var seen, u, content := s[..Min(|s|, cap)], PrefixLen(s, cap), Gob.BytesContent(sealed);
    PrefixAccepts(seen);
    assert LeadingSpaces(seen) + |MAGIC| == u;
    Gob.ShortestForm({}, true, seen[u..], content);
    BlobLength(sealed);
  }

  /** A body cut short is never read as a sealed body, after whatever separators. */
  lemma {:induction false} TornBody(sep: seq<Byte>, sealed: seq<Byte>, n: nat, cap: nat)
    requires JsonText.Spaces(sep) && JsonWrites.Blob(sealed).Some?
    requires n < |sep + (MAGIC + BlobBytes(sealed))|
    ensures !ReadBlob((sep + (MAGIC + BlobBytes(sealed)))[..n], cap).blob.Sealed?
  {
    hide Run, Used, PrefixLen, BlobBytes;
    var whole := sep + (MAGIC + BlobBytes(sealed));
    var s := whole[..n];
    assert s + whole[n..] == whole == sep + (MAGIC + (BlobBytes(sealed) + []));
    ReadSealedAfter(sep, sealed, [], |whole|);
    if ReadBlob(s, cap).blob.Sealed? {
      SealedIsWhole(s, whole[n..], cap);
    }
  }

  /** A sealed body stays what it is when more follows, and with a larger budget. */
  lemma {:induction false} SealedIsWhole(s: seq<Byte>, tail: seq<Byte>, cap: nat)
    requires ReadBlob(s, cap).blob.Sealed?
    ensures ReadBlob(s + tail, |s + tail|) == ReadBlob(s, cap)
  {
    var all, k := s + tail, Min(|s|, cap);
    var u := PrefixLen(s, cap);
    assert all[..|all|] == all == s[..k] + all[k..];
    StopsExtend(PREFIX, Part(0), s[..k], all[k..]);
    assert all[u..] == s[..k][u..] + all[k..];
    StopsExtend(Gob.GOB, FRESH, s[..k][u..], all[k..]);
  }
}
