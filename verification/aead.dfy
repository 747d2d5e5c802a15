/** Authenticated encryption as the codecs use it: a random nonce goes in front of the
    sealed bytes.  The cipher itself is a parameter with one law, that opening undoes
    sealing (sections 7.1 and 7.2 of NIST SP 800-38D). */
module Aead {
  import opened Automata

  datatype Cipher = Cipher(
    nonceSize: nat,
    seal: (seq<Byte>, seq<Byte>) -> seq<Byte>,
    open: (seq<Byte>, seq<Byte>) -> Option<seq<Byte>>)

  ghost predicate Lawful(c: Cipher) {
    forall nonce, plain :: |nonce| == c.nonceSize ==> c.open(nonce, c.seal(nonce, plain)) == Some(plain)
  }

  function Encrypt(c: Cipher, nonce: seq<Byte>, plain: seq<Byte>): seq<Byte>
    requires |nonce| == c.nonceSize
  {
    nonce + c.seal(nonce, plain)
  }

  function Decrypt(c: Cipher, text: seq<Byte>): Option<seq<Byte>> {
    if |text| < c.nonceSize then None
    else c.open(text[..c.nonceSize], text[c.nonceSize..])
  }

  /** `sealed` is a nonce and something the cipher opens under it to `plain`. */
  predicate Opens(c: Cipher, sealed: seq<Byte>, plain: seq<Byte>) {
    |sealed| >= c.nonceSize && c.open(sealed[..c.nonceSize], sealed[c.nonceSize..]) == Some(plain)
  }

  /** It opens to nothing, as whatever is shorter than a nonce. */
  ghost predicate Closed(c: Cipher, sealed: seq<Byte>) {
    forall plain :: !Opens(c, sealed, plain)
  }

  lemma {:induction false} DecryptIff(c: Cipher, sealed: seq<Byte>)
    ensures forall plain :: Decrypt(c, sealed) == Some(plain) <==> Opens(c, sealed, plain)
    ensures Decrypt(c, sealed) == None <==> Closed(c, sealed)
    ensures |sealed| < c.nonceSize ==> Closed(c, sealed)
  {
    if Decrypt(c, sealed).Some? {
      assert Opens(c, sealed, Decrypt(c, sealed).value);
    }
  }

  lemma {:induction false} DecryptEncrypt(c: Cipher, nonce: seq<Byte>, plain: seq<Byte>)
    requires Lawful(c) && |nonce| == c.nonceSize
    ensures Decrypt(c, Encrypt(c, nonce, plain)) == Some(plain)
  {
    var text := Encrypt(c, nonce, plain);
    assert text[..c.nonceSize] == nonce && text[c.nonceSize..] == c.seal(nonce, plain);
  }
}
