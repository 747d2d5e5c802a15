/** The part of gob's wire format the transports rely on: the integer encodings, the
    length-delimited messages, and type definitions that are sent once per encoder. */
module Gob {
  import opened Automata

  const TOO_BIG: nat := 0x2_0000_0000   // messages of 8 GiB or more are refused by both ends
  const U64: nat := 0x1_0000_0000_0000_0000
  const FIRST_USER_ID: int := 64
  const ID_LIMIT: int := 0x8000_0000
  const BYTES_ID: int := 5              // the predefined type of a byte slice

  // ---------------------------------------------------------------- integers

  function Digits(x: nat): (d: seq<Byte>)
    ensures |d| >= 1
  {
    if x < 256 then [x] else Digits(x / 256) + [x % 256]
  }

  function Horner(acc: nat, s: seq<Byte>): nat
    decreases |s|
  {
    if s == [] then acc else Horner(acc * 256 + s[0], s[1..])
  }

  function Pow256(k: nat): nat {
    if k == 0 then 1 else 256 * Pow256(k - 1)
  }

  lemma {:induction false} HornerSnoc(acc: nat, s: seq<Byte>, b: Byte)
    ensures Horner(acc, s + [b]) == Horner(acc, s) * 256 + b
    decreases |s|
  {
    if s == [] {
      assert s + [b] == [b];
      assert [b][1..] == [];
    } else {
      assert (s + [b])[0] == s[0] && (s + [b])[1..] == s[1..] + [b];
      HornerSnoc(acc * 256 + s[0], s[1..], b);
    }
  }

  lemma {:induction false} HornerDigits(x: nat)
    ensures Horner(0, Digits(x)) == x
  {
    if x < 256 {
      assert [x][1..] == [];
    } else {
      HornerDigits(x / 256);
      HornerSnoc(0, Digits(x / 256), x % 256);
    }
  }

  lemma {:induction false} DigitsLength(x: nat, k: nat)
    requires k >= 1 && x < Pow256(k)
    ensures |Digits(x)| <= k
  {
    if x >= 256 {
      assert Pow256(k) == 256 * Pow256(k - 1);
      assert x / 256 < Pow256(k - 1);
      DigitsLength(x / 256, k - 1);
    }
  }

  lemma {:induction false} DigitsOfU64(x: nat)
    requires x < U64
    ensures |Digits(x)| <= 8
  {
    assert Pow256(4) == 0x1_0000_0000 by {
      assert Pow256(2) == 0x1_0000;
    }
    assert Pow256(8) == U64 by {
      assert Pow256(6) == 0x1_0000_0000_0000;
    }
    DigitsLength(x, 8);
  }

  /** One byte below 128; otherwise the negated byte count, then the bytes, high first. */
  function EncUint(x: nat): (r: seq<Byte>)
    requires x < U64
    ensures r != []
  {
    if x < 128 then [x] else
      DigitsOfU64(x);
      var d := Digits(x);
      [256 - |d|] + d
  }

  /** The unsigned integer at the front of `p` and how many bytes it takes. */
  function TakeUint(p: seq<Byte>): (r: Option<(nat, nat)>)
    ensures r.Some? ==> 1 <= r.value.1 <= |p|
  {
    if p == [] then None
    else if p[0] < 128 then Some((p[0], 1))
    else
      var n := 256 - p[0];
      if n > 8 || |p| < 1 + n then None else Some((Horner(0, p[1..1 + n]), 1 + n))
  }

  lemma {:induction false} UintRoundTrip(x: nat, t: seq<Byte>)
    requires x < U64
    ensures TakeUint(EncUint(x) + t) == Some((x, |EncUint(x)|))
  {
    if x >= 128 {
      DigitsOfU64(x);
      var d := Digits(x);
      var p := EncUint(x) + t;
      assert p[1..1 + |d|] == d;
      HornerDigits(x);
    }
  }

  /** The sign goes to the low bit, a negative number being complemented first. */
  function Zig(i: int): nat {
    if i < 0 then 2 * (-i - 1) + 1 else 2 * i
  }

  function Zag(u: nat): int {
    if u % 2 == 1 then -(u / 2) - 1 else u / 2
  }

  function EncInt(i: int): (r: seq<Byte>)
    requires -ID_LIMIT < i < ID_LIMIT
    ensures r != []
  {
    EncUint(Zig(i))
  }

  // ------------------------------------------------------------ the decoder

  /** Between messages; inside a count; inside a message; a value; a refusal.
      `known` is the set of type ids whose definitions have arrived. */
  datatype State =
    | Count(known: set<int>, first: bool)
    | More(known: set<int>, left: nat, count: nat)
    | Body(known: set<int>, left: nat, payload: seq<Byte>)
    | Value(known: set<int>, id: int, content: seq<Byte>)
    | Fail(known: set<int>)

  predicate Stopped(st: State) {
    st.Value? || st.Fail?
  }

  predicate Usable(known: set<int>, id: int) {
    0 < id < FIRST_USER_ID || id in known
  }

  /** A whole message has arrived: a definition is recorded, a value ends the decode. */
  function Deliver(known: set<int>, p: seq<Byte>): State {
    match TakeUint(p)
    case None => Fail(known)
    case Some((u, k)) =>
      var id := Zag(u);
      if id >= 0 then
        if Usable(known, id) then Value(known, id, p[k..]) else Fail(known)
      else if -id < FIRST_USER_ID || -id in known then Fail(known)
      else Count(known + {-id}, false)
  }

  function Begin(known: set<int>, n: nat): State {
    if n >= TOO_BIG then Fail(known)
    else if n == 0 then Deliver(known, [])
    else Body(known, n, [])
  }

  function Step(st: State, b: Byte): State {
    match st
    case Count(known, _) =>
      if b < 128 then Begin(known, b)
      else if 256 - b > 8 then Fail(known)
      else More(known, 256 - b, 0)
    case More(known, left, acc) =>
      if left <= 1 then Begin(known, acc * 256 + b) else More(known, left - 1, acc * 256 + b)
    case Body(known, left, acc) =>
      if left <= 1 then Deliver(known, acc + [b]) else Body(known, left - 1, acc + [b])
    case _ => st
  }

  const GOB: Automaton<State> := Automaton(Step, Stopped)

  // ------------------------------------------------------------ the encoder

  datatype TypeDef = TypeDef(id: int, body: seq<Byte>)

  /** A value as gob sees it: its type, the definitions that type needs, its bytes. */
  datatype GobValue = GobValue(id: int, defs: seq<TypeDef>, content: seq<Byte>)

  function Ids(defs: seq<TypeDef>): set<int> {
    if defs == [] then {} else {defs[0].id} + Ids(defs[1..])
  }

  predicate DefFits(d: TypeDef) {
    FIRST_USER_ID <= d.id < ID_LIMIT && |EncInt(-d.id)| + |d.body| < TOO_BIG
  }

  /** Values the encoder accepts: the value's own type is among the definitions, and no
      message reaches the size both ends refuse. */
  predicate Encodable(v: GobValue) {
    && 0 < v.id < ID_LIMIT
    && (v.id < FIRST_USER_ID || v.id in Ids(v.defs))
    && (forall i :: 0 <= i < |v.defs| ==> DefFits(v.defs[i]))
    && |EncInt(v.id)| + |v.content| < TOO_BIG
  }

  function Msg(p: seq<Byte>): (r: seq<Byte>)
    requires |p| < TOO_BIG
    ensures |r| > |p|
  {
    EncUint(|p|) + p
  }

  function DefMsg(d: TypeDef): seq<Byte>
    requires DefFits(d)
  {
    Msg(EncInt(-d.id) + d.body)
  }

  /** The definitions not yet sent, in order. */
  function EncDefs(sent: set<int>, defs: seq<TypeDef>): seq<Byte>
    requires forall i :: 0 <= i < |defs| ==> DefFits(defs[i])
    decreases |defs|
  {
    if defs == [] then []
    else if defs[0].id in sent then EncDefs(sent, defs[1..])
    else DefMsg(defs[0]) + EncDefs(sent + {defs[0].id}, defs[1..])
  }

  /** One call of the encoder whose sent-type set is `sent`. */
  function Encode(sent: set<int>, v: GobValue): seq<Byte>
    requires Encodable(v)
  {
    EncDefs(sent, v.defs) + Msg(EncInt(v.id) + v.content)
  }

  function SentAfter(sent: set<int>, v: GobValue): set<int> {
    sent + Ids(v.defs)
  }

  // -------------------------------------------------------------- round trip

  lemma {:induction false} RunMore(known: set<int>, acc: nat, ds: seq<Byte>)
    requires ds != []
    ensures Run(GOB, More(known, |ds|, acc), ds) == Begin(known, Horner(acc, ds))
    ensures Used(GOB, More(known, |ds|, acc), ds) == |ds|
    decreases |ds|
  {
    var st := Step(More(known, |ds|, acc), ds[0]);
    if |ds| == 1 {
      assert ds[1..] == [];
    } else {
      RunMore(known, acc * 256 + ds[0], ds[1..]);
    }
  }

  lemma {:induction false} RunCount(known: set<int>, first: bool, n: nat)
    requires n < U64
    ensures Run(GOB, Count(known, first), EncUint(n)) == Begin(known, n)
    ensures Used(GOB, Count(known, first), EncUint(n)) == |EncUint(n)|
  {
    if n < 128 {
      assert [n][1..] == [];
    } else {
      DigitsOfU64(n);
      var d := Digits(n);
      assert EncUint(n)[1..] == d;
      RunMore(known, 0, d);
      HornerDigits(n);
    }
  }

  lemma {:induction false} RunBody(known: set<int>, acc: seq<Byte>, p: seq<Byte>)
    requires p != []
    ensures Run(GOB, Body(known, |p|, acc), p) == Deliver(known, acc + p)
    ensures Used(GOB, Body(known, |p|, acc), p) == |p|
    decreases |p|
  {
    assert acc + p == acc + [p[0]] + p[1..];
    if |p| == 1 {
      assert p == [p[0]] && p[1..] == [];
    } else {
      RunBody(known, acc + [p[0]], p[1..]);
    }
  }

  /** A framed message is delivered whole, with its last byte. */
  lemma {:induction false} RunMsg(known: set<int>, first: bool, p: seq<Byte>)
    requires |p| < TOO_BIG
    ensures Run(GOB, Count(known, first), Msg(p)) == Deliver(known, p)
    ensures Used(GOB, Count(known, first), Msg(p)) == |Msg(p)|
  {
    RunCount(known, first, |p|);
    RunSplit(GOB, Count(known, first), EncUint(|p|), p);
    if p != [] {
      RunBody(known, [], p);
      assert [] + p == p;
    }
  }

  lemma {:induction false} DeliverInt(known: set<int>, id: int, t: seq<Byte>)
    requires -ID_LIMIT < id < ID_LIMIT
    ensures TakeUint(EncInt(id) + t) == Some((Zig(id), |EncInt(id)|))
    ensures Zag(Zig(id)) == id
    ensures (EncInt(id) + t)[|EncInt(id)|..] == t
  {
    UintRoundTrip(Zig(id), t);
  }

  /** A definition new to the decoder is recorded. */
  lemma {:induction false} RunDef(known: set<int>, first: bool, d: TypeDef)
    requires DefFits(d) && d.id !in known
    ensures Run(GOB, Count(known, first), DefMsg(d)) == Count(known + {d.id}, false)
    ensures Used(GOB, Count(known, first), DefMsg(d)) == |DefMsg(d)|
  {
    DeliverInt(known, -d.id, d.body);
    RunMsg(known, first, EncInt(-d.id) + d.body);
  }

  lemma {:induction false} RunDefs(known: set<int>, first: bool, defs: seq<TypeDef>)
    requires forall i :: 0 <= i < |defs| ==> DefFits(defs[i])
    ensures var st := Run(GOB, Count(known, first), EncDefs(known, defs));
            st.Count? && st.known == known + Ids(defs)
    ensures Used(GOB, Count(known, first), EncDefs(known, defs)) == |EncDefs(known, defs)|
    decreases |defs|
  {
    if defs != [] {
      var d, rest := defs[0], defs[1..];
      if d.id in known {
        RunDefs(known, first, rest);
      } else {
        RunDef(known, first, d);
        RunSplit(GOB, Count(known, first), DefMsg(d), EncDefs(known + {d.id}, rest));
        RunDefs(known + {d.id}, false, rest);
      }
    }
  }

  /** A decoder whose known types are the encoder's sent types reads back the value,
      takes exactly the encoder's bytes, and ends with the encoder's new type set. */
  lemma {:induction false} DecodeEncode(sent: set<int>, first: bool, v: GobValue)
    requires Encodable(v)
    ensures Run(GOB, Count(sent, first), Encode(sent, v)) == Value(SentAfter(sent, v), v.id, v.content)
    ensures Used(GOB, Count(sent, first), Encode(sent, v)) == |Encode(sent, v)|
  {
    var defs, val := EncDefs(sent, v.defs), Msg(EncInt(v.id) + v.content);
    RunDefs(sent, first, v.defs);
    var mid := Run(GOB, Count(sent, first), defs);
    RunSplit(GOB, Count(sent, first), defs, val);
    DeliverInt(mid.known, v.id, v.content);
    RunMsg(mid.known, mid.first, EncInt(v.id) + v.content);
  }

  // -------------------------------------------------------------- byte slices

  /** A byte slice at top level: a zero delta, the length, the bytes. */
  function BytesContent(b: seq<Byte>): seq<Byte>
    requires |b| < U64
  {
    [0] + EncUint(|b|) + b
  }

  function BytesValue(b: seq<Byte>): GobValue
    requires |b| < U64
  {
    GobValue(BYTES_ID, [], BytesContent(b))
  }

  /** What decoding a received value into a byte slice yields. */
  function AsBytes(id: int, content: seq<Byte>): Option<seq<Byte>> {
    if id != BYTES_ID || content == [] || content[0] != 0 then None
    else
      match TakeUint(content[1..])
      case None => None
      case Some((n, k)) =>
        if 1 + k + n != |content| then None else Some(content[1 + k..])
  }

  /** `form` says the number `n`: one byte below 128, or a negated count of one to eight bytes
      and those bytes, high first, leading zeros allowed. */
  predicate IsUint(form: seq<Byte>, n: nat) {
    || (|form| == 1 && form[0] < 128 && n == form[0])
    || (2 <= |form| <= 9 && form[0] == 257 - |form| && n == Horner(0, form[1..]))
  }

  lemma {:induction false} TakeUintIff(p: seq<Byte>, n: nat, k: nat)
    ensures TakeUint(p) == Some((n, k)) <==> k <= |p| && IsUint(p[..k], n)
  {
    if k <= |p| && k >= 1 {
      assert p[..k][1..] == p[1..k];
    }
  }

  /** The content of a byte slice: a zero delta, its length in some form, its bytes. */
  ghost predicate IsBytes(content: seq<Byte>, b: seq<Byte>) {
    exists form :: IsUint(form, |b|) && content == [0] + form + b
  }

  lemma {:induction false} AsBytesIff(id: int, content: seq<Byte>, b: seq<Byte>)
    ensures AsBytes(id, content) == Some(b) <==> id == BYTES_ID && IsBytes(content, b)
  {
    if form :| IsUint(form, |b|) && content == [0] + form + b {
      assert content[1..] == form + b && (form + b)[..|form|] == form;
      TakeUintIff(content[1..], |b|, |form|);
      assert content[1 + |form|..] == b;
    }
    if AsBytes(id, content) == Some(b) {
      var k := TakeUint(content[1..]).value.1;
      TakeUintIff(content[1..], |b|, k);
      assert content == [0] + content[1..][..k] + b;
    }
  }

  lemma {:induction false} BytesRoundTrip(b: seq<Byte>)
    requires |b| < U64
    ensures AsBytes(BYTES_ID, BytesContent(b)) == Some(b)
  {
    var c := BytesContent(b);
    assert c[1..] == EncUint(|b|) + b;
    UintRoundTrip(|b|, b);
    assert c[1 + |EncUint(|b|)|..] == b;
  }

  // -------------------------------------------------- no shorter way to say it

  lemma {:induction false} DigitsOfHorner(s: seq<Byte>)
    requires s != []
    ensures |Digits(Horner(0, s))| <= |s|
    decreases |s|
  {
    var front, b := s[..|s| - 1], s[|s| - 1];
    assert s == front + [b];
    HornerSnoc(0, front, b);
    if front != [] {
      DigitsOfHorner(front);
    }
  }

  lemma {:induction false} DigitsMonotone(m: nat, x: nat)
    requires m <= x
    ensures |Digits(m)| <= |Digits(x)|
  {
    if m >= 256 {
      DigitsMonotone(m / 256, x / 256);
    }
  }

  lemma {:induction false} MoreShort(known: set<int>, left: nat, acc: nat, s: seq<Byte>)
    requires |s| < left
    ensures var st := Run(GOB, More(known, left, acc), s); st.More? && st.left == left - |s|
    decreases |s|
  {
    if s != [] {
      MoreShort(known, left - 1, acc * 256 + s[0], s[1..]);
    }
  }

  lemma {:induction false} BodyShort(known: set<int>, left: nat, acc: seq<Byte>, s: seq<Byte>)
    requires |s| < left
    ensures Run(GOB, Body(known, left, acc), s) == Body(known, left - |s|, acc + s)
    decreases |s|
  {
    if s == [] {
      assert acc + s == acc;
    } else {
      BodyShort(known, left - 1, acc + [s[0]], s[1..]);
      assert acc + [s[0]] + s[1..] == acc + s;
    }
  }

  lemma {:induction false} InsideCount(known: set<int>, first: bool, n: nat, t: nat)
    requires n < TOO_BIG && t < |EncUint(n)|
    ensures var st := Run(GOB, Count(known, first), EncUint(n)[..t]);
            if t == 0 then st.Count? else st.More? && st.left == |EncUint(n)| - t
  {
    if t > 0 {
      var d := Digits(n);
      DigitsOfU64(n);
      assert EncUint(n)[..t][1..] == d[..t - 1];
      MoreShort(known, |d|, 0, d[..t - 1]);
    }
  }

  /** Where the decoder stands inside a message: so many bytes from the end of the count, or of
      the message. */
  lemma {:induction false} InsideMsg(known: set<int>, first: bool, p: seq<Byte>, t: nat)
    requires 0 < |p| < TOO_BIG && t < |Msg(p)|
    ensures var st, c := Run(GOB, Count(known, first), Msg(p)[..t]), |EncUint(|p|)|;
            if t == 0 then st.Count? else if t < c then st.More? && st.left == c - t
            else st == Body(known, |Msg(p)| - t, p[..t - c])
  {
    hide Run, EncUint;
    var head := EncUint(|p|);
    if t < |head| {
      assert Msg(p)[..t] == head[..t];
      InsideCount(known, first, |p|, t);
    } else {
      assert Msg(p)[..t] == head + p[..t - |head|];
      RunCount(known, first, |p|);
      RunSplit(GOB, Count(known, first), head, p[..t - |head|]);
      BodyShort(known, |p|, [], p[..t - |head|]);
      assert [] + p[..t - |head|] == p[..t - |head|];
    }
  }

  /** Where the decoder has been fed something it knows that the stream has begun. */
  predicate Begun(st: State) {
    st.Count? ==> !st.first
  }

  lemma {:induction false} StaysBegun(st: State, s: seq<Byte>)
    requires Begun(st) || s != []
    ensures Stopped(st) || Begun(Run(GOB, st, s))
    decreases |s|
  {
    if !Stopped(st) && s != [] {
      if !Stopped(Step(st, s[0])) {
        StaysBegun(Step(st, s[0]), s[1..]);
      }
    }
  }

  /** A decoder in state `st` comes to a value with this content. */
  predicate Comes(st: State, s: seq<Byte>, content: seq<Byte>) {
    Run(GOB, st, s).Value? && Run(GOB, st, s).content == content
  }

  /** After a count of `n`, `n` bytes follow, with the value or with a definition. */
  lemma {:induction false} BodyTakes(known: set<int>, n: nat, s: seq<Byte>, content: seq<Byte>)
    requires Comes(Begin(known, n), s, content)
    ensures 0 < n <= |s| && n < TOO_BIG
    ensures var after := Deliver(known, s[..n]);
            && Used(GOB, Begin(known, n), s) == n + Used(GOB, after, s[n..])
            && Comes(after, s[n..], content)
            && (1 + |content| <= n || (after.Count? && Used(GOB, Begin(known, n), s) == n + Used(GOB, after, s[n..])))
  {
    if 0 < n < TOO_BIG && |s| < n {
      BodyShort(known, n, [], s);
    } else if 0 < n < TOO_BIG {
      var p, rest := s[..n], s[n..];
      assert s == p + rest;
      RunBody(known, [], p);
      assert [] + p == p;
      RunSplit(GOB, Begin(known, n), p, rest);
    }
  }

  /** The encoder's count and type id are the shortest: no byte string that a decoder takes
      for a value with this content is shorter than the encoder's. */
  lemma {:induction false} ShortestForm(known: set<int>, first: bool, s: seq<Byte>, content: seq<Byte>)
    requires Comes(Count(known, first), s, content)
    ensures 1 + |content| < TOO_BIG
    ensures |EncUint(1 + |content|)| + 1 + |content| <= Used(GOB, Count(known, first), s)
    decreases |s|
  {
    hide Deliver, Begin, Digits, Run, Used;
    CountTakes(known, first, s, content);
    var (n, k) := TakeUint(s).value;
    BodyTakes(known, n, s[k..], content);
    var after := Deliver(known, s[k..][..n]);
    if 1 + |content| > n {
      ShortestForm(after.known, after.first, s[k..][n..], content);
    } else {
      UintMonotone(1 + |content|, n);
    }
  }

  lemma {:induction false} CountFails(known: set<int>, first: bool, s: seq<Byte>)
    ensures s != [] && s[0] >= 128 && 256 - s[0] > 8 ==> Run(GOB, Count(known, first), s).Fail?
  {
  }

  lemma {:induction false} CountTakes(known: set<int>, first: bool, s: seq<Byte>, content: seq<Byte>)
    requires Comes(Count(known, first), s, content)
    ensures TakeUint(s).Some?
    ensures var (n, k) := TakeUint(s).value;
            && Comes(Begin(known, n), s[k..], content)
            && Used(GOB, Count(known, first), s) == k + Used(GOB, Begin(known, n), s[k..])
            && (n < U64 ==> |EncUint(n)| <= k)
  {
    CountFails(known, first, s);
    if s[0] >= 128 && 256 - s[0] <= 8 {
      var k := 256 - s[0];
      if |s| < 1 + k {
        MoreShort(known, k, 0, s[1..]);
      } else {
        var ds, rest := s[1..1 + k], s[1 + k..];
        assert s[1..] == ds + rest;
        RunMore(known, 0, ds);
        RunSplit(GOB, More(known, k, 0), ds, rest);
        DigitsOfHorner(ds);
      }
    }
  }

  lemma {:induction false} UintMonotone(m: nat, n: nat)
    requires m <= n < U64
    ensures |EncUint(m)| <= |EncUint(n)|
  {
    DigitsMonotone(m, n);
  }
}
