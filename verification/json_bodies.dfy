/** What the caller of a sealed body read gets, told from the bytes it is read from: a text
    if and only if those bytes are separators, the prefix and a complete blob within the
    budget that opens to it, and otherwise the failure of the first step that fails. */
module JsonBodies {
  import opened Automata
  import opened Aead
  import opened JsonCrypto
  import opened JsonHandOff
  import Gob
  import JsonText

  lemma {:induction false} PrefixCharacters()
    ensures MAGIC == JsonText.Ascii("CRYPT")
  {
  }

  /** Separators, the prefix, and what follows them. */
  predicate PrefixedBy(s: seq<Byte>, sep: seq<Byte>, rest: seq<Byte>) {
    JsonText.Spaces(sep) && s == sep + (MAGIC + rest)
  }

  /** `blob` is, to its last byte, a gob value holding the byte slice `sealed`. */
  ghost predicate IsBlob(blob: seq<Byte>, sealed: seq<Byte>) {
    IsValue(blob) && Run(Gob.GOB, FRESH, blob).id == 5
    && Gob.IsBytes(Run(Gob.GOB, FRESH, blob).content, sealed)
  }

  predicate IsValue(blob: seq<Byte>) {
    Run(Gob.GOB, FRESH, blob).Value? && Used(Gob.GOB, FRESH, blob) == |blob|
  }

  /** The bytes that may be looked at. */
  function Seen(s: seq<Byte>, cap: nat): seq<Byte> {
    s[..Min(|s|, cap)]
  }

  /** Within the budget `s` begins with a sealed body that holds `sealed`. */
  ghost predicate Carries(s: seq<Byte>, cap: nat, sealed: seq<Byte>) {
    exists sep, blob, more :: PrefixedBy(Seen(s, cap), sep, blob + more) && IsBlob(blob, sealed)
  }

  /** Within the budget `s` begins with a sealed value of any kind. */
  ghost predicate CarriesValue(s: seq<Byte>, cap: nat) {
    exists sep, blob, more :: PrefixedBy(Seen(s, cap), sep, blob + more) && IsValue(blob)
  }

  /** Nothing but separators and a front of the prefix, all of it or not. */
  ghost predicate PrefixBegun(seen: seq<Byte>) {
    exists sep, front :: JsonText.Spaces(sep) && seen == sep + front && front <= MAGIC && front != MAGIC
  }

  ghost predicate PrefixDone(seen: seq<Byte>) {
    exists sep, rest :: PrefixedBy(seen, sep, rest)
  }

  /** The blob behind the prefix has begun and neither ended nor gone wrong. */
  ghost predicate BlobBegun(seen: seq<Byte>) {
    exists sep, rest :: PrefixedBy(seen, sep, rest) && !Stops(Gob.GOB, FRESH, rest)
  }

  ghost predicate BlobWrong(seen: seq<Byte>) {
    exists sep, rest :: PrefixedBy(seen, sep, rest) && Run(Gob.GOB, FRESH, rest).Fail?
  }

  /** The text a caller is given, and only such a text. */
  ghost predicate GivesText(o: Opener, s: seq<Byte>, cap: nat, text: seq<Byte>) {
    exists sealed :: Carries(s, cap, sealed) && Opens(o.cipher, sealed, text) && o.accepts(text)
  }

  ghost predicate GivesOther(o: Opener, s: seq<Byte>, cap: nat) {
    exists sealed, text :: Carries(s, cap, sealed) && Opens(o.cipher, sealed, text) && !o.accepts(text)
  }

  /** Exactly what a read of `s` by this caller comes to. */
  ghost predicate ComesTo(o: Opener, s: seq<Byte>, cap: nat, res: BodyResult) {
    var seen := Seen(s, cap);
    && (forall text :: res == Delivered(text) <==> GivesText(o, s, cap, text))
    && (res == Mismatch <==> GivesOther(o, s, cap))
    && (res == DecryptFailed <==> exists sealed :: Carries(s, cap, sealed) && Closed(o.cipher, sealed))
    && (res == NotBytes <==> CarriesValue(s, cap) && forall sealed :: !Carries(s, cap, sealed))
    && (res == Failed(BlobRefused) <==> BlobWrong(seen))
    && (res == Failed(BadMagic) <==> !PrefixBegun(seen) && !PrefixDone(seen))
    && (res == Failed(PrefixCut) <==> PrefixBegun(seen) && |s| < cap)
    && (res == Failed(BlobCut) <==> BlobBegun(seen) && |s| < cap)
    && (res == Failed(TooLarge) <==> (PrefixBegun(seen) || BlobBegun(seen)) && |s| >= cap)
  }

  // -------------------------------------------------------------------- the prefix

  lemma {:induction false} SpacesThenNot(s: seq<Byte>, sep: seq<Byte>, rest: seq<Byte>)
    requires JsonText.Spaces(sep) && s == sep + rest && (rest == [] || !JsonText.IsSpace(rest[0]))
    ensures LeadingSpaces(s) == |sep| && s[LeadingSpaces(s)..] == rest
    decreases |sep|
  {
    if sep == [] {
      assert s == rest;
    } else {
      assert s[0] == sep[0] && s[1..] == sep[1..] + rest;
      SpacesThenNot(s[1..], sep[1..], rest);
      assert s[LeadingSpaces(s)..] == s[1..][LeadingSpaces(s[1..])..];
    }
  }

  /** The prefix is found, refused or cut as the bytes behind the separators say. */
  lemma {:induction false} PrefixTells(s: seq<Byte>)
    ensures var rest := s[LeadingSpaces(s)..];
            var st := Run(PREFIX, Part(0), s);
            && (st.PrefixEnd? <==> MAGIC <= rest)
            && (st.Part? <==> rest <= MAGIC && rest != MAGIC)
    ensures Run(PREFIX, Part(0), s).PrefixEnd? ==> Used(PREFIX, Part(0), s) == LeadingSpaces(s) + |MAGIC|
    decreases |s|
  {
    if s == [] || !JsonText.IsSpace(s[0]) {
      assert s[0..] == s;
      PrefixHead(s);
      PrefixPart(0, s);
    } else {
      PrefixTells(s[1..]);
      assert s[LeadingSpaces(s)..] == s[1..][LeadingSpaces(s[1..])..];
    }
  }

  lemma {:induction false} PrefixPart(k: nat, s: seq<Byte>)
    requires k < |MAGIC| && (k == 0 && s != [] ==> !JsonText.IsSpace(s[0]))
    ensures Run(PREFIX, Part(k), s).Part? <==> s <= MAGIC[k..] && s != MAGIC[k..]
    decreases |s|
  {
    var rest := MAGIC[k..];
    assert rest[0] == MAGIC[k] && rest[1..] == MAGIC[k + 1..];
    if s != [] && s[0] == MAGIC[k] {
      assert s <= rest <==> s[1..] <= rest[1..] by {
        assert s == [s[0]] + s[1..] && rest == [rest[0]] + rest[1..];
      }
      assert s == rest <==> s[1..] == rest[1..] by {
        assert s == [s[0]] + s[1..] && rest == [rest[0]] + rest[1..];
      }
      if k + 1 < |MAGIC| {
        PrefixPart(k + 1, s[1..]);
      } else {
        assert rest[1..] == [];
      }
    }
  }

  /** What is behind the separators, and, where that is the prefix, behind the prefix. */
  function Rest(seen: seq<Byte>): seq<Byte> {
    seen[LeadingSpaces(seen)..]
  }

  function Behind(seen: seq<Byte>): seq<Byte>
    requires MAGIC <= Rest(seen)
  {
    Rest(seen)[|MAGIC|..]
  }

  /** There is one way to see separators and a prefix. */
  lemma {:induction false} PrefixedOnce(seen: seq<Byte>, sep: seq<Byte>, rest: seq<Byte>)
    ensures PrefixedBy(seen, sep, rest)
            <==> sep == seen[..LeadingSpaces(seen)] && MAGIC <= Rest(seen) && rest == Behind(seen)
  {
    var n := LeadingSpaces(seen);
    assert seen == seen[..n] + seen[n..];
    if MAGIC <= Rest(seen) {
      assert Rest(seen) == MAGIC + Behind(seen);
    }
    if PrefixedBy(seen, sep, rest) {
      assert (MAGIC + rest)[0] == MAGIC[0] && (MAGIC + rest)[|MAGIC|..] == rest;
      SpacesThenNot(seen, sep, MAGIC + rest);
      assert seen[..|sep|] == sep;
    }
  }

  lemma {:induction false} PrefixSeen(seen: seq<Byte>)
    ensures PrefixDone(seen) <==> MAGIC <= Rest(seen)
    ensures PrefixBegun(seen) <==> Rest(seen) <= MAGIC && Rest(seen) != MAGIC
  {
    var n := LeadingSpaces(seen);
    if MAGIC <= Rest(seen) {
      PrefixedOnce(seen, seen[..n], Behind(seen));
    }
    if sep, rest :| PrefixedBy(seen, sep, rest) {
      PrefixedOnce(seen, sep, rest);
    }
    assert seen == seen[..n] + Rest(seen);
    if sep, front :| JsonText.Spaces(sep) && seen == sep + front && front <= MAGIC && front != MAGIC {
      assert front != [] ==> front[0] == MAGIC[0];
      SpacesThenNot(seen, sep, front);
    }
  }

  lemma {:induction false} BlobSeen(seen: seq<Byte>)
    ensures BlobBegun(seen) <==> MAGIC <= Rest(seen) && !Stops(Gob.GOB, FRESH, Behind(seen))
    ensures BlobWrong(seen) <==> MAGIC <= Rest(seen) && Run(Gob.GOB, FRESH, Behind(seen)).Fail?
  {
    hide Run, Rest;
    if MAGIC <= Rest(seen) {
      PrefixedOnce(seen, seen[..LeadingSpaces(seen)], Behind(seen));
    }
    forall sep, rest | PrefixedBy(seen, sep, rest) ensures MAGIC <= Rest(seen) && rest == Behind(seen) {
      PrefixedOnce(seen, sep, rest);
    }
  }

  /** A value in front ends where it ends, whatever follows. */
  lemma {:induction false} ValueInFront(blob: seq<Byte>, more: seq<Byte>)
    requires IsValue(blob)
    ensures Run(Gob.GOB, FRESH, blob + more) == Run(Gob.GOB, FRESH, blob)
  {
    StopsExtend(Gob.GOB, FRESH, blob, more);
  }

  lemma {:induction false} ValueSplit(s: seq<Byte>) returns (blob: seq<Byte>, more: seq<Byte>)
    requires Run(Gob.GOB, FRESH, s).Value?
    ensures s == blob + more && IsValue(blob) && Run(Gob.GOB, FRESH, blob) == Run(Gob.GOB, FRESH, s)
  {
    UsedBound(Gob.GOB, FRESH, s);
    var k := Used(Gob.GOB, FRESH, s);
    StopsWindow(Gob.GOB, FRESH, s, k);
    blob, more := s[..k], s[k..];
  }

  lemma {:induction false} CarriesSeen(s: seq<Byte>, cap: nat)
    ensures var seen := Seen(s, cap);
            && (CarriesValue(s, cap) <==> MAGIC <= Rest(seen) && Run(Gob.GOB, FRESH, Behind(seen)).Value?)
            && forall sealed :: Carries(s, cap, sealed)
                 <==> (MAGIC <= Rest(seen) && Run(Gob.GOB, FRESH, Behind(seen)).Value?
                       && var st := Run(Gob.GOB, FRESH, Behind(seen)); Gob.AsBytes(st.id, st.content) == Some(sealed))
  {
    hide Run, Used, Rest, Gob.IsBytes, Gob.AsBytes;
    var seen := Seen(s, cap);
    forall sep, blob, more | PrefixedBy(seen, sep, blob + more) && IsValue(blob)
      ensures MAGIC <= Rest(seen) && Run(Gob.GOB, FRESH, Behind(seen)) == Run(Gob.GOB, FRESH, blob)
    {
      PrefixedOnce(seen, sep, blob + more);
      ValueInFront(blob, more);
    }
    if MAGIC <= Rest(seen) && Run(Gob.GOB, FRESH, Behind(seen)).Value? {
      var blob, more := ValueSplit(Behind(seen));
      PrefixedOnce(seen, seen[..LeadingSpaces(seen)], blob + more);
    }
    forall sealed
      ensures Carries(s, cap, sealed)
              <==> (MAGIC <= Rest(seen) && Run(Gob.GOB, FRESH, Behind(seen)).Value?
                    && var st := Run(Gob.GOB, FRESH, Behind(seen)); Gob.AsBytes(st.id, st.content) == Some(sealed))
    {
      if MAGIC <= Rest(seen) && Run(Gob.GOB, FRESH, Behind(seen)).Value? {
        var st := Run(Gob.GOB, FRESH, Behind(seen));
        Gob.AsBytesIff(st.id, st.content, sealed);
      }
    }
  }

  /** What the read reports, by what is behind the separators. */
  lemma {:induction false} Classified(s: seq<Byte>, cap: nat)
    ensures var seen, full := Seen(s, cap), |s| >= cap;
            ReadBlob(s, cap).blob
            == if MAGIC <= Rest(seen) then
                 var st := Run(Gob.GOB, FRESH, Behind(seen));
                 if st.Value? then Sealed(st.id, st.content)
                 else if st.Fail? then BlobRefused
                 else if full then TooLarge else BlobCut
               else if Rest(seen) <= MAGIC then if full then TooLarge else PrefixCut
               else BadMagic
  {
    var seen := Seen(s, cap);
    PrefixTells(seen);
    if MAGIC <= Rest(seen) {
      assert seen[LeadingSpaces(seen) + |MAGIC|..] == Behind(seen);
    }
  }

  /** A read comes to what its bytes say. */
  lemma {:induction false} ReadComesTo(o: Opener, s: seq<Byte>, cap: nat)
    ensures ComesTo(o, s, cap, Open(o, ReadBlob(s, cap).blob))
  {
    hide Run, Used, Rest, ReadBlob, Gob.AsBytes, Carries, CarriesValue, PrefixBegun, PrefixDone, BlobBegun, BlobWrong;
    var seen, blob := Seen(s, cap), ReadBlob(s, cap).blob;
    PrefixSeen(seen);
    BlobSeen(seen);
    CarriesSeen(s, cap);
    Classified(s, cap);
    assert blob.Sealed? <==> CarriesValue(s, cap);
    OpenTells(o, blob);
    if blob.Sealed? {
      var st := Run(Gob.GOB, FRESH, Behind(seen));
      if Gob.AsBytes(st.id, st.content).Some? {
        assert Carries(s, cap, Gob.AsBytes(st.id, st.content).value);
      }
    }
  }

  /** What is made of a blob, whichever it is. */
  lemma {:induction false} OpenTells(o: Opener, blob: Blob)
    ensures !blob.Sealed? ==> Open(o, blob) == Failed(blob)
    ensures blob.Sealed? && Gob.AsBytes(blob.id, blob.content).None? ==> Open(o, blob) == NotBytes
    ensures blob.Sealed? && Gob.AsBytes(blob.id, blob.content).Some? ==>
              var sealed := Gob.AsBytes(blob.id, blob.content).value;
              && (Closed(o.cipher, sealed) ==> Open(o, blob) == DecryptFailed)
              && forall text :: Opens(o.cipher, sealed, text) ==>
                   Open(o, blob) == if o.accepts(text) then Delivered(text) else Mismatch
  {
    hide Gob.AsBytes;
    if blob.Sealed? && Gob.AsBytes(blob.id, blob.content).Some? {
      DecryptIff(o.cipher, Gob.AsBytes(blob.id, blob.content).value);
    }
  }
}
