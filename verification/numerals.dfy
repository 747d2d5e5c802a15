/** Decimal and hexadecimal numerals. */
module Numerals {
  import opened Automata

  function Digit(c: char): Option<nat> {
    if '0' <= c <= '9' then Some((c - '0') as int) else None
  }

  /** The value of a string of decimal digits, after `acc`. */
  function Decimal(acc: nat, s: string): Option<nat>
    decreases |s|
  {
    if s == "" then Some(acc)
    else if Digit(s[0]).None? then None
    else Decimal(10 * acc + Digit(s[0]).value, s[1..])
  }

  /** A decimal integer: an optional sign, then at least one digit. */
  function Atoi(s: string): Option<int> {
    var signed := s != "" && (s[0] == '+' || s[0] == '-');
    var digits := if signed then s[1..] else s;
    if digits == "" || Decimal(0, digits).None? then None
    else
      var n: int := Decimal(0, digits).value;
      Some(if signed && s[0] == '-' then -n else n)
  }

  function DigitChar(d: nat): (c: char)
    requires d < 10
    ensures Digit(c) == Some(d)
  {
    '0' + d as char
  }

  function Itoa(n: nat): (s: string)
    ensures s != "" && Digit(s[0]).Some?
  {
    if n < 10 then [DigitChar(n)] else Itoa(n / 10) + [DigitChar(n % 10)]
  }

  lemma {:induction false} DecimalSnoc(acc: nat, s: string, c: char)
    requires Decimal(acc, s).Some? && Digit(c).Some?
    ensures Decimal(acc, s + [c]) == Some(10 * Decimal(acc, s).value + Digit(c).value)
    decreases |s|
  {
    if s == "" {
      assert s + [c] == [c] && [c][1..] == "";
    } else {
      assert (s + [c])[0] == s[0] && (s + [c])[1..] == s[1..] + [c];
      DecimalSnoc(10 * acc + Digit(s[0]).value, s[1..], c);
    }
  }

  lemma {:induction false} DecimalItoa(n: nat)
    ensures Decimal(0, Itoa(n)) == Some(n)
    ensures forall i :: 0 <= i < |Itoa(n)| ==> Digit(Itoa(n)[i]).Some?
  {
    if n < 10 {
      assert Itoa(n)[1..] == "";
    } else {
      DecimalItoa(n / 10);
      DecimalSnoc(0, Itoa(n / 10), DigitChar(n % 10));
    }
  }

  lemma {:induction false} AtoiItoa(n: nat)
    ensures Atoi(Itoa(n)) == Some(n)
  {
    DecimalItoa(n);
  }

  /** The value of digits, told from the last one. */
  predicate IsDecimal(s: string, n: nat)
    decreases |s|
  {
    s != "" && '0' <= s[|s| - 1] <= '9'
    && var d := (s[|s| - 1] - '0') as nat;
       if |s| == 1 then n == d else n >= d && (n - d) % 10 == 0 && IsDecimal(s[..|s| - 1], (n - d) / 10)
  }

  lemma {:induction false} DecimalIff(s: string, n: nat)
    ensures s != "" && Decimal(0, s) == Some(n) <==> IsDecimal(s, n)
    decreases |s|
  {
    if s != "" {
      var front, c := s[..|s| - 1], s[|s| - 1];
      assert s == front + [c];
      if Decimal(0, front).Some? && Digit(c).Some? {
        DecimalSnoc(0, front, c);
      }
      DecimalFront(0, front, c);
      if |s| == 1 {
        assert front == "";
      } else if Digit(c).Some? {
        var d := Digit(c).value;
        if n >= d {
          DecimalIff(front, (n - d) / 10);
        }
        if Decimal(0, front).Some? {
          DecimalIff(front, Decimal(0, front).value);
        }
      }
    }
  }

  lemma {:induction false} DecimalFront(acc: nat, s: string, c: char)
    ensures Decimal(acc, s + [c]).Some? ==> Decimal(acc, s).Some? && Digit(c).Some?
    decreases |s|
  {
    if s == "" {
      assert s + [c] == [c];
    } else {
      assert (s + [c])[0] == s[0] && (s + [c])[1..] == s[1..] + [c];
      if Digit(s[0]).Some? {
        DecimalFront(10 * acc + Digit(s[0]).value, s[1..], c);
      }
    }
  }

  /** What is read as a number: digits, with a sign in front or without. */
  ghost predicate IsNumeral(s: string, n: int) {
    || (n >= 0 && (IsDecimal(s, n) || (s != "" && s[0] == '+' && IsDecimal(s[1..], n))))
    || (n <= 0 && s != "" && s[0] == '-' && IsDecimal(s[1..], -n))
  }

  lemma {:induction false} AtoiIff(s: string, n: int)
    ensures Atoi(s) == Some(n) <==> IsNumeral(s, n)
  {
    hide IsDecimal;
    if s != "" {
      if n >= 0 {
        DecimalIff(s, n);
        DecimalIff(s[1..], n);
      }
      if n <= 0 {
        DecimalIff(s[1..], -n);
      }
    } else if n >= 0 {
      DecimalIff(s, n);
    }
  }

  // ------------------------------------------------------------- hexadecimal

  function Nibble(c: char): Option<nat> {
    if '0' <= c <= '9' then Some((c - '0') as int)
    else if 'a' <= c <= 'f' then Some((c - 'a') as int + 10)
    else if 'A' <= c <= 'F' then Some((c - 'A') as int + 10)
    else None
  }

  function NibbleChar(d: nat): (c: char)
    requires d < 16
    ensures Nibble(c) == Some(d)
  {
    if d < 10 then '0' + d as char else 'a' + (d - 10) as char
  }

  function HexDecode(s: string): Option<seq<Byte>>
    decreases |s|
  {
    if s == "" then Some([])
    else if |s| == 1 || Nibble(s[0]).None? || Nibble(s[1]).None? then None
    else
      var more := HexDecode(s[2..]);
      if more.None? then None else Some([16 * Nibble(s[0]).value + Nibble(s[1]).value] + more.value)
  }

  function HexEncode(b: seq<Byte>): (s: string)
    ensures b != [] ==> s != ""
    decreases |b|
  {
    if b == [] then "" else [NibbleChar(b[0] / 16), NibbleChar(b[0] % 16)] + HexEncode(b[1..])
  }

  const LOWER_HEX := "0123456789abcdef"
  const UPPER_HEX := "0123456789ABCDEF"

  /** A digit of either case, by its place among them. */
  predicate IsNibble(c: char, d: nat) {
    d < 16 && (c == LOWER_HEX[d] || c == UPPER_HEX[d])
  }

  lemma {:induction false} NibbleIff(c: char, d: nat)
    ensures Nibble(c) == Some(d) <==> IsNibble(c, d)
  {
  }

  /** Two digits a byte, the high one first. */
  predicate IsHex(s: string, b: seq<Byte>) {
    |s| == 2 * |b| && forall i :: 0 <= i < |b| ==> IsNibble(s[2 * i], b[i] / 16) && IsNibble(s[2 * i + 1], b[i] % 16)
  }

  lemma {:induction false} HexIff(s: string, b: seq<Byte>)
    ensures HexDecode(s) == Some(b) <==> IsHex(s, b)
    decreases |s|
  {
    if |s| >= 2 && b != [] {
      hide Nibble, IsNibble, IsHex;
      HexIff(s[2..], b[1..]);
      NibbleIff(s[0], b[0] / 16);
      NibbleIff(s[1], b[0] % 16);
      NibblePair(s[0], s[1], b[0]);
      HexSplit(s, b);
      assert [b[0]] + b[1..] == b;
    }
  }

  lemma {:induction false} NibblePair(hi: char, lo: char, b: Byte)
    ensures Nibble(hi) == Some(b / 16) && Nibble(lo) == Some(b % 16)
            <==> Nibble(hi).Some? && Nibble(lo).Some? && 16 * Nibble(hi).value + Nibble(lo).value == b
  {
    hide Nibble;
    NibbleSmall(hi);
    NibbleSmall(lo);
  }

  lemma {:induction false} NibbleSmall(c: char)
    ensures Nibble(c).Some? ==> Nibble(c).value < 16
  {
  }

  lemma {:induction false} HexSplit(s: string, b: seq<Byte>)
    requires |s| >= 2 && b != []
    ensures IsHex(s, b) <==> IsNibble(s[0], b[0] / 16) && IsNibble(s[1], b[0] % 16) && IsHex(s[2..], b[1..])
  {
    hide IsNibble;
    if |s| == 2 * |b| {
      if IsHex(s[2..], b[1..]) && IsNibble(s[0], b[0] / 16) && IsNibble(s[1], b[0] % 16) {
        forall i | 0 <= i < |b| ensures IsNibble(s[2 * i], b[i] / 16) && IsNibble(s[2 * i + 1], b[i] % 16) {
          if i > 0 {
            assert s[2..][2 * (i - 1)] == s[2 * i] && s[2..][2 * (i - 1) + 1] == s[2 * i + 1] && b[1..][i - 1] == b[i];
          }
        }
      }
      if IsHex(s, b) {
        assert s[2 * 0] == s[0] && s[2 * 0 + 1] == s[1];
        forall i | 0 <= i < |b| - 1
          ensures IsNibble(s[2..][2 * i], b[1..][i] / 16) && IsNibble(s[2..][2 * i + 1], b[1..][i] % 16)
        {
          assert s[2..][2 * i] == s[2 * (i + 1)] && s[2..][2 * i + 1] == s[2 * (i + 1) + 1] && b[1..][i] == b[i + 1];
        }
      }
    }
  }

  lemma {:induction false} HexRoundTrip(b: seq<Byte>)
    ensures HexDecode(HexEncode(b)) == Some(b)
    decreases |b|
  {
    if b != [] {
      var s := HexEncode(b);
      assert s[2..] == HexEncode(b[1..]);
      HexRoundTrip(b[1..]);
      assert [b[0]] + b[1..] == b;
    }
  }
}
