/** What the decoder's scanner recognises is nothing but JSON: a text it takes is read back
    here as a value of the grammar, part by part. */
module JsonGrammar {
  import opened Automata
  import opened JsonText
  import opened JsonValue

  /** `s` brings the scanner to the end of a text. */
  predicate Finishes(st: State, s: seq<Byte>) {
    Run(JSON, st, s).End?
  }

  lemma {:induction false} FinishesStep(st: State, s: seq<Byte>)
    requires st.Scan? && Finishes(st, s)
    ensures s != [] && s == [s[0]] + s[1..] && Step(st, s[0]) != Bad && Finishes(Step(st, s[0]), s[1..])
  {
    assert Run(JSON, Bad, s[1..]) == Bad;
  }

  lemma {:induction false} FinishesAfter(a: State, s: seq<Byte>, b: State, t: seq<Byte>)
    requires Leads(a, s, b) && Finishes(a, s + t)
    ensures Finishes(b, t)
  {
    RunSplit(JSON, a, s, t);
  }

  lemma {:induction false} TakeBlanks(s: seq<Byte>) returns (sep: seq<Byte>, rest: seq<Byte>)
    ensures s == sep + rest && Spaces(sep) && (rest != [] ==> !IsSpace(rest[0]))
  {
    if s != [] && IsSpace(s[0]) {
      sep, rest := TakeBlanks(s[1..]);
      sep := [s[0]] + sep;
    } else {
      sep, rest := [], s;
    }
  }

  lemma {:induction false} TakeDigits(m: Mark, nest: Nest, s: seq<Byte>) returns (ds: seq<Byte>, rest: seq<Byte>)
    requires m.Whole? || m.Fraction? || m.Power?
    ensures s == ds + rest && (forall i :: 0 <= i < |ds| ==> IsDigit(ds[i])) && (rest != [] ==> !IsDigit(rest[0]))
    ensures Leads(Scan(m, nest), ds, Scan(m, nest))
  {
    hide Leads;
    if s != [] && IsDigit(s[0]) {
      ds, rest := TakeDigits(m, nest, s[1..]);
      ds := [s[0]] + ds;
    } else {
      ds, rest := [], s;
    }
    DigitsLead(m, nest, ds);
  }

  /** A string, from behind its first quote on. */
  lemma {:induction false} TakeUnits(nest: Nest, s: seq<Byte>) returns (us: seq<Unit>, rest: seq<Byte>)
    requires Finishes(Scan(InString, nest), s)
    ensures UnitsProper(us) && s == UnitsBytes(us) + [QUOTE] + rest
    decreases |s|
  {
    hide Finishes, UnitProper;
    var st := Scan(InString, nest);
    FinishesStep(st, s);
    if s[0] == QUOTE {
      us, rest := [], s[1..];
    } else {
      var u, more := TakeUnit(nest, s);
      us, rest := TakeUnits(nest, more);
      us := [u] + us;
      assert us[1..] == us[1..];
    }
  }

  lemma {:induction false} TakeUnit(nest: Nest, s: seq<Byte>) returns (u: Unit, rest: seq<Byte>)
    requires Finishes(Scan(InString, nest), s) && s != [] && s[0] != QUOTE
    ensures UnitProper(u) && s == UnitBytes(u) + rest && |rest| < |s| && Finishes(Scan(InString, nest), rest)
  {
    hide Finishes;
    FinishesStep(Scan(InString, nest), s);
    if s[0] != BACKSLASH {
      return Plain(s[0]), s[1..];
    }
    var t := s[1..];
    FinishesStep(Scan(InEscape, nest), t);
    if IsEscape(t[0]) {
      u, rest := Escaped(t[0]), t[1..];
    } else {
      var hex;
      hex, rest := TakeHex(nest, 4, t[1..]);
      u := Coded(hex);
      assert s == [BACKSLASH] + ([LETTER_U] + (hex + rest));
    }
  }

  lemma {:induction false} TakeHex(nest: Nest, n: nat, s: seq<Byte>) returns (hex: seq<Byte>, rest: seq<Byte>)
    requires 1 <= n <= 4 && Finishes(Scan(InHex(n), nest), s)
    ensures |hex| == n && s == hex + rest && (forall i :: 0 <= i < n ==> IsHex(hex[i]))
    ensures Finishes(Scan(InString, nest), rest)
    decreases n
  {
    hide Finishes;
    FinishesStep(Scan(InHex(n), nest), s);
    if n == 1 {
      hex, rest := s[..1], s[1..];
    } else {
      hex, rest := TakeHex(nest, n - 1, s[1..]);
      hex := [s[0]] + hex;
    }
  }

  /** The rest of a literal. */
  lemma {:induction false} TakeWord(nest: Nest, w: seq<Byte>, s: seq<Byte>)
    requires w != [] && Finishes(Scan(Word(w), nest), s)
    ensures w <= s
    decreases |w|
  {
    hide Finishes;
    FinishesStep(Scan(Word(w), nest), s);
    if |w| > 1 {
      TakeWord(nest, w[1..], s[1..]);
    }
    assert w == [w[0]] + w[1..] && s == [s[0]] + s[1..];
  }

  /** What ends a number: nothing that could go on with it. */
  predicate Delimited(j: Json, nest: Nest, rest: seq<Byte>) {
    rest != [] && After(j, nest).Scan? && Step(After(j, nest), rest[0]) == AfterValue(nest, rest[0])
  }

  /** How a number goes on. */
  lemma {:induction false} NumberSteps(m: Mark, nest: Nest, b: Byte)
    ensures (m.Zero? || (m.Whole? && !IsDigit(b))) && b == POINT ==> Step(Scan(m, nest), b) == Scan(Point, nest)
    ensures m.Point? && Step(Scan(m, nest), b) != Bad ==> IsDigit(b) && Step(Scan(m, nest), b) == Scan(Fraction, nest)
    ensures (m.Zero? || m.Whole? || m.Fraction?) && IsE(b) ==> Step(Scan(m, nest), b) == Scan(Exponent, nest)
    ensures m.Exponent? && Step(Scan(m, nest), b) != Bad ==>
              if IsDigit(b) then Step(Scan(m, nest), b) == Scan(Power, nest)
              else (b == PLUS || b == MINUS) && Step(Scan(m, nest), b) == Scan(Sign, nest)
    ensures m.Sign? && Step(Scan(m, nest), b) != Bad ==> IsDigit(b) && Step(Scan(m, nest), b) == Scan(Power, nest)
  {
  }

  lemma {:induction false} TakeFraction(m: Mark, nest: Nest, s: seq<Byte>)
    returns (frac: Option<seq<Byte>>, m': Mark, rest: seq<Byte>)
    requires (m.Zero? || m.Whole?) && Finishes(Scan(m, nest), s) && s != [] && (m.Whole? ==> !IsDigit(s[0]))
    ensures frac.Some? ==> AllDigits(frac.value)
    ensures m' == if frac.Some? then Fraction else m
    ensures s == (if frac.Some? then [POINT] + frac.value else []) + rest
    ensures rest != [] && (m'.Fraction? || m'.Whole? ==> !IsDigit(rest[0])) && (!m'.Fraction? ==> rest[0] != POINT)
    ensures Finishes(Scan(m', nest), rest)
  {
    hide Finishes, Leads, Step;
    if s[0] != POINT {
      return None, m, s;
    }
    NumberSteps(m, nest, s[0]);
    FinishesStep(Scan(m, nest), s);
    var t := s[1..];
    FinishesStep(Scan(Point, nest), t);
    NumberSteps(Point, nest, t[0]);
    var ds, more := TakeDigits(Fraction, nest, t[1..]);
    FinishesAfter(Scan(Fraction, nest), ds, Scan(Fraction, nest), more);
    frac, m', rest := Some([t[0]] + ds), Fraction, more;
    FinishesSome(Scan(Fraction, nest), more);
  }

  lemma {:induction false} FinishesSome(st: State, s: seq<Byte>)
    requires st.Scan? && Finishes(st, s)
    ensures s != []
  {
  }

  lemma {:induction false} TakeExp(m: Mark, nest: Nest, s: seq<Byte>) returns (e: Exp, rest: seq<Byte>)
    requires (m.Zero? || m.Whole? || m.Fraction?) && Finishes(Scan(m, nest), s) && s != [] && IsE(s[0])
    ensures ExpProper(e) && s == ExpBytes(e) + rest && rest != [] && !IsDigit(rest[0])
    ensures Finishes(Scan(Power, nest), rest)
  {
    hide Finishes, Leads, Step, ExpBytes, AllDigits;
    NumberSteps(m, nest, s[0]);
    FinishesStep(Scan(m, nest), s);
    var t := s[1..];
    FinishesStep(Scan(Exponent, nest), t);
    NumberSteps(Exponent, nest, t[0]);
    var ds;
    if IsDigit(t[0]) {
      ds, rest := TakePower(nest, t);
      e := Exp(s[0], None, ds);
      assert [] + (ds + rest) == t;
    } else {
      FinishesStep(Scan(Sign, nest), t[1..]);
      NumberSteps(Sign, nest, t[1]);
      ds, rest := TakePower(nest, t[1..]);
      e := Exp(s[0], Some(t[0]), ds);
      assert [t[0]] + (ds + rest) == t;
    }
    ExpJoin(e, rest);
  }

  /** The digits of an exponent. */
  lemma {:induction false} TakePower(nest: Nest, u: seq<Byte>) returns (ds: seq<Byte>, rest: seq<Byte>)
    requires u != [] && IsDigit(u[0]) && Finishes(Scan(Power, nest), u[1..])
    ensures AllDigits(ds) && u == ds + rest && rest != [] && !IsDigit(rest[0]) && Finishes(Scan(Power, nest), rest)
  {
    hide Finishes, Leads;
    var more;
    more, rest := TakeDigits(Power, nest, u[1..]);
    FinishesAfter(Scan(Power, nest), more, Scan(Power, nest), rest);
    FinishesSome(Scan(Power, nest), rest);
    ds := [u[0]] + more;
  }

  lemma {:induction false} ExpJoin(e: Exp, rest: seq<Byte>)
    ensures ExpBytes(e) + rest == [e.letter] + ((if e.sign.Some? then [e.sign.value] else []) + (e.digits + rest))
  {
  }

  /** A number, from its first digit on, with or without the sign before it. */
  lemma {:induction false} TakeNumber(m: Mark, nest: Nest, s: seq<Byte>) returns (n: Number, rest: seq<Byte>)
    requires (m.Begin? || m.Minus?) && s != [] && IsDigit(s[0]) && Finishes(Scan(m, nest), s)
    ensures NumberProper(n) && !n.minus && s == NumberBytes(n) + rest && Delimited(Num(n), nest, rest)
  {
    hide Finishes, Leads;
    FinishesStep(Scan(m, nest), s);
    var mark: Mark := if s[0] == 0x30 then Zero else Whole;
    var ds, more := [], s[1..];
    if mark.Whole? {
      ds, more := TakeDigits(Whole, nest, s[1..]);
      FinishesAfter(Scan(Whole, nest), ds, Scan(Whole, nest), more);
    }
    FinishesSome(Scan(mark, nest), more);
    var whole := [s[0]] + ds;
    var frac, mark', t := TakeFraction(mark, nest, more);
    var exp: Option<Exp> := None;
    rest := t;
    if IsE(t[0]) {
      var e;
      e, rest := TakeExp(mark', nest, t);
      exp := Some(e);
    }
    n := Number(false, whole, frac, exp);
    NumberParts(n, more, t, rest);
    assert s == whole + more;
  }

  lemma {:induction false} NumberParts(n: Number, more: seq<Byte>, t: seq<Byte>, rest: seq<Byte>)
    requires !n.minus && more == (if n.fraction.Some? then [POINT] + n.fraction.value else []) + t
    requires t == (if n.exp.Some? then ExpBytes(n.exp.value) else []) + rest
    ensures n.whole + more == NumberBytes(n) + rest
  {
    hide ExpBytes;
    var f: seq<Byte> := if n.fraction.Some? then [POINT] + n.fraction.value else [];
    var x := if n.exp.Some? then ExpBytes(n.exp.value) else [];
    assert NumberBytes(n) == n.whole + (f + x);
    assert n.whole + (f + (x + rest)) == n.whole + (f + x) + rest;
  }

  /** Any value, after blanks. */
  lemma {:induction false} TakeValue(nest: Nest, s: seq<Byte>) returns (sep: seq<Byte>, j: Json, rest: seq<Byte>)
    requires Finishes(Scan(Begin, nest), s) && Depth(nest) <= MAX_DEPTH
    ensures s == sep + (TextOf(j) + rest) && Spaces(sep) && Proper(j) && Depth(nest) + Levels(j) <= MAX_DEPTH
    ensures !(IsGroup(j) && nest.Outermost?) ==> Delimited(j, nest, rest)
    decreases |s|, 2
  {
    hide Finishes, Leads, Delimited;
    var t;
    sep, t := TakeBlanks(s);
    BlanksLead(Begin, nest, sep);
    FinishesAfter(Scan(Begin, nest), sep, Scan(Begin, nest), t);
    FinishesStep(Scan(Begin, nest), t);
    BeginsSo(nest, t[0]);
    if t[0] == OPEN_BRACKET || t[0] == OPEN_BRACE {
      j, rest := TakeGroup(nest, t);
    } else {
      j, rest := TakePlain(nest, t);
      TakenDelimited(nest, j, rest, t);
    }
  }

  /** Values without brackets. */
  lemma {:induction false} TakePlain(nest: Nest, t: seq<Byte>) returns (j: Json, rest: seq<Byte>)
    requires t != [] && !IsSpace(t[0]) && t[0] != OPEN_BRACKET && t[0] != OPEN_BRACE && Finishes(Scan(Begin, nest), t)
    ensures t == TextOf(j) + rest && Proper(j) && !IsGroup(j)
    ensures j.Num? ==> Delimited(j, nest, rest)
  {
    hide Finishes, Leads, Delimited, Step, UnitsBytes, NumberBytes;
    FinishesStep(Scan(Begin, nest), t);
    BeginsSo(nest, t[0]);
    if t[0] == QUOTE {
      var us;
      us, rest := TakeUnits(nest, t[1..]);
      j := Chars(us);
      QuotedJoin(us, rest);
    } else if IsDigit(t[0]) {
      var n;
      n, rest := TakeNumber(Begin, nest, t);
      j := Num(n);
    } else if t[0] == MINUS {
      FinishesStep(Scan(Minus, nest), t[1..]);
      MinusStep(nest, t[1]);
      var n;
      n, rest := TakeNumber(Minus, nest, t[1..]);
      j := Num(n.(minus := true));
      DelimitedMinus(n, nest, rest);
      NumberMinus(n);
    } else {
      var w := if t[0] == TRUE[0] then TRUE else if t[0] == FALSE[0] then FALSE else NULL;
      TakeWord(nest, w[1..], t[1..]);
      j, rest := Literal(w), t[|w|..];
      assert t == [w[0]] + (w[1..] + rest) == w + rest;
    }
  }

  lemma {:induction false} MinusStep(nest: Nest, b: Byte)
    requires Step(Scan(Minus, nest), b) != Bad
    ensures IsDigit(b)
  {
  }

  lemma {:induction false} DelimitedMinus(n: Number, nest: Nest, rest: seq<Byte>)
    requires Delimited(Num(n), nest, rest)
    ensures Delimited(Num(n.(minus := true)), nest, rest)
  {
  }

  lemma {:induction false} NumberMinus(n: Number)
    requires !n.minus
    ensures NumberBytes(n.(minus := true)) == [MINUS] + NumberBytes(n)
  {
    hide ExpBytes;
  }

  /** How a value may begin. */
  lemma {:induction false} BeginsSo(nest: Nest, b: Byte)
    requires !IsSpace(b) && Step(Scan(Begin, nest), b) != Bad
    ensures b == OPEN_BRACE ==> Depth(nest) < MAX_DEPTH
                                && Step(Scan(Begin, nest), b) == Scan(FirstName, Within(AtName, nest))
    ensures b == OPEN_BRACKET ==> Depth(nest) < MAX_DEPTH
                                  && Step(Scan(Begin, nest), b) == Scan(FirstItem, Within(InArray, nest))
    ensures b == QUOTE ==> Step(Scan(Begin, nest), b) == Scan(InString, nest)
    ensures b == MINUS ==> Step(Scan(Begin, nest), b) == Scan(Minus, nest)
    ensures forall w :: w in {TRUE, FALSE, NULL} && b == w[0] ==> Step(Scan(Begin, nest), b) == Scan(Word(w[1..]), nest)
    ensures b in {OPEN_BRACE, OPEN_BRACKET, QUOTE, MINUS, TRUE[0], FALSE[0], NULL[0]} || IsDigit(b)
  {
  }

  /** A value that took a definite end leaves something that delimits it. */
  lemma {:induction false} TakenDelimited(nest: Nest, j: Json, rest: seq<Byte>, t: seq<Byte>)
    requires Proper(j) && !IsGroup(j) && t == TextOf(j) + rest && Finishes(Scan(Begin, nest), t)
    requires Depth(nest) <= MAX_DEPTH && (j.Num? ==> Delimited(j, nest, rest))
    ensures Delimited(j, nest, rest)
  {
    hide Finishes, TextOf, Leads, Run;
    if !j.Num? {
      assert Levels(j) == 0;
      ValueLeads(nest, j);
      FinishesAfter(Scan(Begin, nest), TextOf(j), After(j, nest), rest);
      FinishesSome(After(j, nest), rest);
    }
  }

  /** An array or an object. */
  lemma {:induction false} TakeGroup(nest: Nest, t: seq<Byte>) returns (j: Json, rest: seq<Byte>)
    requires t != [] && (t[0] == OPEN_BRACKET || t[0] == OPEN_BRACE)
    requires Finishes(Scan(Begin, nest), t) && Depth(nest) <= MAX_DEPTH
    ensures t == TextOf(j) + rest && IsGroup(j) && Proper(j) && Depth(nest) + Levels(j) <= MAX_DEPTH
    ensures nest.Within? ==> Delimited(j, nest, rest)
    decreases |t|, 1
  {
    hide Finishes, Leads, Delimited, TextOf, Proper, Levels;
    FinishesStep(Scan(Begin, nest), t);
    BeginsSo(nest, t[0]);
    if t[0] == OPEN_BRACKET {
      j, rest := TakeArray(nest, t[1..]);
    } else {
      j, rest := TakeObject(nest, t[1..]);
    }
    if nest.Within? {
      GroupDelimited(nest, j, rest, t);
    }
  }

  lemma {:induction false} TakeArray(nest: Nest, t: seq<Byte>) returns (j: Json, rest: seq<Byte>)
    requires Finishes(Scan(FirstItem, Within(InArray, nest)), t) && Depth(nest) < MAX_DEPTH
    ensures [OPEN_BRACKET] + t == TextOf(j) + rest && j.Arr? && Proper(j) && Depth(nest) + Levels(j) <= MAX_DEPTH
    decreases |t|, 5
  {
    hide Finishes, Leads, Run, ItemProper;
    var inner, first := Within(InArray, nest), Scan(FirstItem, Within(InArray, nest));
    var sep, s := TakeBlanks(t);
    BlanksLead(FirstItem, inner, sep);
    FinishesAfter(first, sep, first, s);
    FinishesSome(first, s);
    if s[0] == CLOSE_BRACKET {
      j, rest := Arr(sep, []), s[1..];
      assert [OPEN_BRACKET] + t == [OPEN_BRACKET] + (sep + [CLOSE_BRACKET]) + rest;
    } else {
      AsFirstItem(inner, sep, s);
      FinishesAs(first, Scan(Begin, inner), t);
      var items;
      items, rest := TakeItems(inner, t);
      j := Arr([], items);
      assert [OPEN_BRACKET] + t == [OPEN_BRACKET] + (ItemsOf(items) + [CLOSE_BRACKET]) + rest;
    }
  }

  lemma {:induction false} TakeObject(nest: Nest, t: seq<Byte>) returns (j: Json, rest: seq<Byte>)
    requires Finishes(Scan(FirstName, Within(AtName, nest)), t) && Depth(nest) < MAX_DEPTH
    ensures [OPEN_BRACE] + t == TextOf(j) + rest && j.Obj? && Proper(j) && Depth(nest) + Levels(j) <= MAX_DEPTH
    decreases |t|, 5
  {
    hide Finishes, Leads, Run, ItemProper, NameProper;
    var inner, first := Within(AtName, nest), Scan(FirstName, Within(AtName, nest));
    var sep, s := TakeBlanks(t);
    BlanksLead(FirstName, inner, sep);
    FinishesAfter(first, sep, first, s);
    FinishesSome(first, s);
    if s[0] == CLOSE_BRACE {
      j, rest := Obj(sep, []), s[1..];
      assert [OPEN_BRACE] + t == [OPEN_BRACE] + (sep + [CLOSE_BRACE]) + rest;
    } else {
      AsFirstName(inner, sep, s);
      FinishesAs(first, Scan(NextName, inner), t);
      var ms;
      ms, rest := TakeMembers(nest, t);
      j := Obj([], ms);
      assert [OPEN_BRACE] + t == [OPEN_BRACE] + (MembersOf(ms) + [CLOSE_BRACE]) + rest;
    }
  }

  lemma {:induction false} FinishesAs(a: State, b: State, s: seq<Byte>)
    requires Finishes(a, s) && Run(JSON, a, s) == Run(JSON, b, s)
    ensures Finishes(b, s)
  {
  }

  lemma {:induction false} GroupDelimited(nest: Nest, j: Json, rest: seq<Byte>, t: seq<Byte>)
    requires Proper(j) && IsGroup(j) && nest.Within? && t == TextOf(j) + rest && Finishes(Scan(Begin, nest), t)
    requires Depth(nest) + Levels(j) <= MAX_DEPTH
    ensures Delimited(j, nest, rest)
  {
    hide Finishes, TextOf, Leads, Run, Proper;
    ValueLeads(nest, j);
    FinishesAfter(Scan(Begin, nest), TextOf(j), After(j, nest), rest);
    FinishesSome(After(j, nest), rest);
  }

  /** A value and the blanks around it, and what ends them. */
  lemma {:induction false} TakeItem(nest: Nest, s: seq<Byte>) returns (it: Item, rest: seq<Byte>)
    requires Finishes(Scan(Begin, nest), s) && Depth(nest) <= MAX_DEPTH && nest.Within?
    ensures s == ItemOf(it) + rest && ItemProper(it) && Depth(nest) + Levels(it.value) <= MAX_DEPTH
    ensures rest != [] && !IsSpace(rest[0]) && AfterValue(nest, rest[0]) != Bad
    ensures Finishes(AfterValue(nest, rest[0]), rest[1..])
    decreases |s|, 3
  {
    hide Finishes, Leads, TextOf, Proper;
    var sep, j, more := TakeValue(nest, s);
    var after;
    after, rest := TakeBlanks(more);
    it := Item(sep, j, after);
    assert s == sep + (TextOf(j) + (after + rest)) == ItemOf(it) + rest;
    ItemLeads(nest, it);
    FinishesAfter(Scan(Begin, nest), ItemOf(it), AfterItem(it, nest), rest);
    ItemDelimited(nest, it, more, rest);
    FinishesStep(AfterItem(it, nest), rest);
  }

  lemma {:induction false} ItemDelimited(nest: Nest, it: Item, more: seq<Byte>, rest: seq<Byte>)
    requires Delimited(it.value, nest, more) && more == it.after + rest && nest.Within?
    requires Finishes(AfterItem(it, nest), rest)
    ensures AfterItem(it, nest).Scan? && rest != [] && Step(AfterItem(it, nest), rest[0]) == AfterValue(nest, rest[0])
  {
    FinishesSome(AfterItem(it, nest), rest);
  }

  lemma {:induction false} TakeItems(nest: Nest, s: seq<Byte>) returns (items: seq<Item>, rest: seq<Byte>)
    requires Finishes(Scan(Begin, nest), s) && Depth(nest) <= MAX_DEPTH && nest.Within? && nest.inside.InArray?
    ensures items != [] && s == ItemsOf(items) + [CLOSE_BRACKET] + rest
    ensures (forall i :: 0 <= i < |items| ==> ItemProper(items[i])) && Depth(nest) + ItemLevels(items) <= MAX_DEPTH
    decreases |s|, 4
  {
    hide Finishes, ItemOf, ItemProper;
    var it, more := TakeItem(nest, s);
    if more[0] == COMMA {
      var items';
      items', rest := TakeItems(nest, more[1..]);
      items := [it] + items';
      assert items[1..] == items';
      assert more == [COMMA] + (ItemsOf(items') + [CLOSE_BRACKET] + rest);
    } else {
      items, rest := [it], more[1..];
      assert items[1..] == [] && ItemsOf(items) == ItemOf(it) + [];
      assert more == [CLOSE_BRACKET] + rest;
    }
  }

  lemma {:induction false} QuotedJoin(us: seq<Unit>, rest: seq<Byte>)
    ensures Quoted(us) + rest == [QUOTE] + (UnitsBytes(us) + [QUOTE] + rest)
  {
    hide UnitsBytes;
  }

  /** A name and its colon, blanks included. */
  lemma {:induction false} TakeName(out: Nest, s: seq<Byte>) returns (m: Member, rest: seq<Byte>)
    requires Finishes(Scan(NextName, Within(AtName, out)), s)
    ensures s == NameOf(m) + rest && NameProper(m) && Finishes(Scan(Begin, Within(AtValue, out)), rest)
  {
    hide Finishes, Leads, UnitsProper, NameOf;
    var atName := Within(AtName, out);
    var before, t := TakeBlanks(s);
    BlanksLead(NextName, atName, before);
    FinishesAfter(Scan(NextName, atName), before, Scan(NextName, atName), t);
    FinishesStep(Scan(NextName, atName), t);
    var us, more := TakeUnits(atName, t[1..]);
    QuotedLeads(NextName, atName, us);
    QuotedJoin(us, more);
    FinishesAfter(Scan(NextName, atName), Quoted(us), Scan(Done, atName), more);
    var between, u := TakeBlanks(more);
    BlanksAfter(atName, between);
    FinishesAfter(Scan(Done, atName), between, Scan(Done, atName), u);
    FinishesStep(Scan(Done, atName), u);
    m, rest := Member(before, us, between, Item([], Literal(NULL), [])), u[1..];
    NameJoin(m, rest);
  }

  lemma {:induction false} NameJoin(m: Member, rest: seq<Byte>)
    ensures NameOf(m) + rest == m.before + (Quoted(m.name) + (m.between + ([COLON] + rest)))
  {
    hide Quoted;
  }

  lemma {:induction false} TakeMembers(out: Nest, s: seq<Byte>) returns (ms: seq<Member>, rest: seq<Byte>)
    requires Finishes(Scan(NextName, Within(AtName, out)), s) && 1 + Depth(out) <= MAX_DEPTH
    ensures ms != [] && s == MembersOf(ms) + [CLOSE_BRACE] + rest
    ensures forall i :: 0 <= i < |ms| ==> NameProper(ms[i]) && ItemProper(ms[i].item)
    ensures 1 + Depth(out) + MemberLevels(ms) <= MAX_DEPTH
    decreases |s|, 4
  {
    hide Finishes, ItemOf, ItemProper, NameProper, Levels, MembersOf, MemberLevels;
    var m, t := TakeName(out, s);
    assert |t| < |s| by {
      NameLong(m);
    }
    var it, more := TakeItem(Within(AtValue, out), t);
    SameName(m, it);
    m := m.(item := it);
    hide NameOf;
    if more[0] == COMMA {
      var ms';
      ms', rest := TakeMembers(out, more[1..]);
      ms := [m] + ms';
      MembersJoin(m, ms', rest);
    } else {
      ms, rest := [m], more[1..];
      MembersJoin(m, [], rest);
    }
  }

  lemma {:induction false} MembersJoin(m: Member, ms: seq<Member>, rest: seq<Byte>)
    ensures MembersOf([m] + ms) + [CLOSE_BRACE] + rest
            == NameOf(m) + (ItemOf(m.item) + (if ms == [] then [CLOSE_BRACE] + rest
                                              else [COMMA] + (MembersOf(ms) + [CLOSE_BRACE] + rest)))
    ensures MemberLevels([m] + ms) == Max(Levels(m.item.value), MemberLevels(ms))
    ensures [m] + [] == [m] && MemberLevels([]) == 0
  {
    hide ItemOf, NameOf;
    assert ([m] + ms)[1..] == ms;
  }

  lemma {:induction false} NameLong(m: Member)
    ensures |NameOf(m)| > 0
  {
  }

  lemma {:induction false} SameName(m: Member, it: Item)
    ensures NameOf(m.(item := it)) == NameOf(m) && (NameProper(m.(item := it)) <==> NameProper(m))
  {
  }

  /** The scanner recognises exactly the texts of the grammar that nest at most 10000 deep. */
  lemma {:induction false} TextsAreValues(v: seq<Byte>)
    ensures IsText(v) <==> exists j :: Proper(j) && Levels(j) <= 10000 && v == TextOf(j)
  {
    forall j | Proper(j) && Levels(j) <= MAX_DEPTH && v == TextOf(j) ensures IsText(v) {
      EveryValueIsText(j);
    }
    if IsText(v) {
      var j := ValueOf(v);
    }
  }

  lemma {:induction false} ValueOf(v: seq<Byte>) returns (j: Json)
    requires IsText(v)
    ensures Proper(j) && Levels(j) <= MAX_DEPTH && v == TextOf(j)
  {
    hide TextOf, Proper, Step;
    var line := v + [NEWLINE];
    var sep, rest;
    sep, j, rest := TakeValue(Outermost, line);
    NoBlanksFirst(v, sep, TextOf(j) + rest);
    assert line == TextOf(j) + rest;
    ValueLeads(Outermost, j);
    RunSplit(JSON, START, TextOf(j), rest);
    EndsOnce(After(j, Outermost), rest);
    assert |TextOf(j)| == |v|;
    assert line[..|v|] == v && line[..|v|] == TextOf(j);
  }

  lemma {:induction false} BlankFirst(sep: seq<Byte>, more: seq<Byte>)
    requires Spaces(sep)
    ensures sep != [] ==> IsSpace((sep + more)[0])
    ensures sep + more == more || sep != []
  {
    assert sep == [] ==> sep + more == more;
  }

  lemma {:induction false} NoBlanksFirst(v: seq<Byte>, sep: seq<Byte>, more: seq<Byte>)
    requires v != [] && !IsSpace(v[0]) && v + [NEWLINE] == sep + more && Spaces(sep)
    ensures sep == [] && sep + more == more
  {
    BlankFirst(sep, more);
  }

  /** Outside brackets what is behind a value that does not close itself is one byte. */
  lemma {:induction false} EndsOnce(st: State, s: seq<Byte>)
    ensures st == End(false) ==> Used(JSON, st, s) == 0 && Run(JSON, st, s) == st
    ensures st.Scan? && st.nest.Outermost? && s != [] && Step(st, s[0]) == End(true) ==>
              Used(JSON, st, s) == 1 && Run(JSON, st, s) == End(true)
  {
  }

  // ------------------------------------------------------- when there is no hope

  /** No continuation of `p` is ever taken for a text. */
  ghost predicate Hopeless(p: seq<Byte>) {
    forall more, cap: nat :: !Decode(p + more, cap).Text?
  }

  /** Where the scanner is not in a literal that has no bytes left. */
  predicate Sensible(st: State) {
    st.Scan? ==> st.mark.Word? ==> st.mark.rest != []
  }

  lemma {:induction false} StaysSensible(st: State, s: seq<Byte>)
    requires Sensible(st)
    ensures Sensible(Run(JSON, st, s))
    decreases |s|
  {
    if !Stopped(st) && s != [] {
      StaysSensible(Step(st, s[0]), s[1..]);
    }
  }

  /** A value has been scanned as far as it need be. */
  predicate Ended(m: Mark) {
    m.Done? || m.Zero? || m.Whole? || m.Fraction? || m.Power?
  }

  lemma {:induction false} EndedBy(m: Mark, nest: Nest, b: Byte)
    requires Ended(m) && b in {NEWLINE, COMMA, COLON, CLOSE_BRACE, CLOSE_BRACKET}
    ensures Step(Scan(m, nest), b) == AfterValue(nest, b)
  {
  }

  lemma {:induction false} Zeros(nest: Nest, n: nat) returns (hex: seq<Byte>)
    ensures n > 0 ==> Leads(Scan(InHex(n), nest), hex, Scan(InString, nest))
    decreases n
  {
    hide Leads;
    hex := [];
    if n == 1 {
      LeadsByte(Scan(InHex(1), nest), 0x30);
      hex := [0x30];
    } else if n > 1 {
      hex := Zeros(nest, n - 1);
      LeadsFrom(Scan(InHex(n), nest), 0x30, hex, Scan(InString, nest));
      hex := [0x30] + hex;
    }
  }

  /** From anywhere bytes can come that end the value under way, or its brackets. */
  lemma {:induction false} EndValue(m: Mark, nest: Nest) returns (s: seq<Byte>, st: State)
    requires Sensible(Scan(m, nest))
    ensures Leads(Scan(m, nest), s, st)
    ensures st == Pop(nest) || (st.Scan? && st.nest == nest && Ended(st.mark))
  {
    hide Leads;
    var a := Scan(m, nest);
    if Ended(m) {
      LeadsNowhere(a);
      s, st := [], a;
    } else if m.Word? {
      WordLeads(nest, m.rest);
      s, st := m.rest, Scan(Done, nest);
    } else if m.NextName? || m.InEscape? || m.InHex? {
      s := EndString(m, nest);
      st := Scan(Done, nest);
    } else {
      var b := EndByte(m);
      LeadsByte(a, b);
      s, st := [b], Step(a, b);
    }
  }

  /** One byte that is enough. */
  function EndByte(m: Mark): Byte {
    match m
    case FirstItem => CLOSE_BRACKET
    case FirstName => CLOSE_BRACE
    case InString => QUOTE
    case _ => 0x30
  }

  lemma {:induction false} EndString(m: Mark, nest: Nest) returns (s: seq<Byte>)
    requires m.NextName? || m.InEscape? || m.InHex?
    ensures Leads(Scan(m, nest), s, Scan(Done, nest))
  {
    hide Leads;
    var inside, done := Scan(InString, nest), Scan(Done, nest);
    LeadsByte(inside, QUOTE);
    if m.InHex? && m.left > 0 {
      var hex := Zeros(nest, m.left);
      LeadsOn(Scan(m, nest), hex, inside, [QUOTE], done);
      s := hex + [QUOTE];
    } else {
      var b := if m.InHex? then 0x30 else QUOTE;
      LeadsFrom(Scan(m, nest), b, [QUOTE], done);
      s := [b] + [QUOTE];
    }
  }

  /** And then all brackets can be closed. */
  lemma {:induction false} CloseAll(m: Mark, nest: Nest) returns (s: seq<Byte>)
    requires Ended(m)
    ensures Finishes(Scan(m, nest), s)
    decreases nest, 0
  {
    hide Leads, Finishes;
    match nest
    case Outermost =>
      EndedBy(m, nest, NEWLINE);
      s := [];
      FinishesNow(End(true));
      FinishesFrom(Scan(m, nest), NEWLINE, s);
      s := [NEWLINE] + s;
    case Within(AtName, out) =>
      var value := Within(AtValue, out);
      EndedBy(m, nest, COLON);
      EndedBy(Zero, value, CLOSE_BRACE);
      s := Popped(out);
      FinishesFrom(Scan(Zero, value), CLOSE_BRACE, s);
      FinishesFrom(Scan(Begin, value), 0x30, [CLOSE_BRACE] + s);
      FinishesFrom(Scan(m, nest), COLON, [0x30] + ([CLOSE_BRACE] + s));
      s := [COLON] + ([0x30] + ([CLOSE_BRACE] + s));
    case Within(inside, out) =>
      var close := if inside.InArray? then CLOSE_BRACKET else CLOSE_BRACE;
      EndedBy(m, nest, close);
      s := Popped(out);
      FinishesFrom(Scan(m, nest), close, s);
      s := [close] + s;
  }

  lemma {:induction false} Popped(out: Nest) returns (s: seq<Byte>)
    ensures forall inside :: Finishes(Pop(Within(inside, out)), s)
    decreases out, 1
  {
    hide Finishes;
    if out.Outermost? {
      s := [];
      FinishesNow(End(false));
    } else {
      s := CloseAll(Done, out);
    }
  }

  lemma {:induction false} FinishesNow(st: State)
    ensures st.End? ==> Finishes(st, [])
  {
  }

  lemma {:induction false} FinishesFrom(st: State, b: Byte, s: seq<Byte>)
    requires st.Scan? && Finishes(Step(st, b), s)
    ensures Finishes(st, [b] + s)
  {
    assert ([b] + s)[1..] == s;
  }

  lemma {:induction false} CanFinish(st: State) returns (s: seq<Byte>)
    requires st.Scan? && Sensible(st)
    ensures Finishes(st, s)
  {
    hide Leads, Finishes;
    var front, mid := EndValue(st.mark, st.nest);
    if mid.Scan? {
      if Ended(mid.mark) {
        s := CloseAll(mid.mark, mid.nest);
      }
    } else {
      s := [];
      FinishesNow(mid);
    }
    FinishesBehind(st, front, mid, s);
    s := front + s;
  }

  lemma {:induction false} FinishesBehind(a: State, s: seq<Byte>, b: State, t: seq<Byte>)
    requires Leads(a, s, b) && Finishes(b, t)
    ensures Finishes(a, s + t)
  {
    RunSplit(JSON, a, s, t);
  }

  /** What has been seen when a syntax error is reported is the start of no text, whatever may
      follow; and that is when it is reported. */
  lemma {:induction false} SyntaxIff(s: seq<Byte>, cap: nat)
    ensures Decode(s, cap) == Syntax <==> Hopeless(s[..Min(|s|, cap)])
  {
    var seen := s[..Min(|s|, cap)];
    var st := Run(JSON, START, seen);
    if st.Bad? {
      forall more, cap': nat ensures !Decode(seen + more, cap').Text? {
        BadForEver(seen, more, cap');
      }
    } else if st.Scan? {
      StaysSensible(START, seen);
      var more := CanFinish(st);
      RunSplit(JSON, START, seen, more);
      assert (seen + more)[..|seen + more|] == seen + more;
      assert Decode(seen + more, |seen + more|).Text?;
    } else {
      assert seen + [] == seen && seen[..|seen|] == seen;
      assert Decode(seen + [], |seen|).Text?;
    }
  }

  lemma {:induction false} BadForEver(p: seq<Byte>, more: seq<Byte>, cap: nat)
    requires Run(JSON, START, p).Bad?
    ensures !Decode(p + more, cap).Text?
  {
    hide Step;
    var s := p + more;
    var k := Min(|s|, cap);
    var st := Run(JSON, START, s[..k]);
    StopsExtend(JSON, START, p, more);
    assert s == s[..k] + s[k..];
    if st.End? {
      StopsExtend(JSON, START, s[..k], s[k..]);
    }
    assert k == |s| ==> s[..k] == s;
  }
}
