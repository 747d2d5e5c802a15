/** JSON texts as the grammar has them, blanks included, independent of any decoder (sections 2
    to 7 of RFC 8259).  The decoder's scanner is proved to recognise exactly these texts, as
    deep as it lets brackets nest. */
module JsonValue {
  import opened Automata
  import opened JsonText
  import Negotiate

  /** One character of a string: a byte, a byte after a backslash, or a code point in hex. */
  datatype Unit = Plain(b: Byte) | Escaped(b: Byte) | Coded(hex: seq<Byte>)

  datatype Exp = Exp(letter: Byte, sign: Option<Byte>, digits: seq<Byte>)

  datatype Number = Number(minus: bool, whole: seq<Byte>, fraction: Option<seq<Byte>>, exp: Option<Exp>)

  /** A value, and the blanks inside its brackets; `blank` are those of an empty pair. */
  datatype Json =
    | Literal(word: seq<Byte>)
    | Num(n: Number)
    | Chars(units: seq<Unit>)
    | Arr(blank: seq<Byte>, items: seq<Item>)
    | Obj(blank: seq<Byte>, members: seq<Member>)

  datatype Item = Item(before: seq<Byte>, value: Json, after: seq<Byte>)

  datatype Member = Member(before: seq<Byte>, name: seq<Unit>, between: seq<Byte>, item: Item)

  predicate UnitProper(u: Unit) {
    match u
    case Plain(b) => b != QUOTE && b != BACKSLASH && b >= 0x20
    case Escaped(b) => IsEscape(b)
    case Coded(hex) => |hex| == 4 && forall i :: 0 <= i < 4 ==> IsHex(hex[i])
  }

  predicate UnitsProper(us: seq<Unit>) {
    forall i :: 0 <= i < |us| ==> UnitProper(us[i])
  }

  predicate AllDigits(s: seq<Byte>) {
    s != [] && forall i :: 0 <= i < |s| ==> IsDigit(s[i])
  }

  /** The number grammar of section 6 of RFC 8259. */
  predicate NumberProper(n: Number) {
    && AllDigits(n.whole) && (n.whole[0] == 0x30 ==> |n.whole| == 1)
    && (n.fraction.Some? ==> AllDigits(n.fraction.value))
    && (n.exp.Some? ==> ExpProper(n.exp.value))
  }

  predicate ExpProper(e: Exp) {
    IsE(e.letter) && (e.sign.Some? ==> e.sign.value == PLUS || e.sign.value == MINUS) && AllDigits(e.digits)
  }

  predicate Proper(j: Json) {
    match j
    case Literal(w) => w == TRUE || w == FALSE || w == NULL
    case Num(n) => NumberProper(n)
    case Chars(us) => UnitsProper(us)
    case Arr(blank, items) =>
      Spaces(blank) && (items != [] ==> blank == []) && forall i :: 0 <= i < |items| ==> ItemProper(items[i])
    case Obj(blank, ms) =>
      && Spaces(blank) && (ms != [] ==> blank == [])
      && forall i :: 0 <= i < |ms| ==> NameProper(ms[i]) && ItemProper(ms[i].item)
  }

  predicate ItemProper(it: Item) {
    Spaces(it.before) && Proper(it.value) && Spaces(it.after)
  }

  predicate NameProper(m: Member) {
    Spaces(m.before) && UnitsProper(m.name) && Spaces(m.between)
  }

  /** How deep its brackets nest. */
  function Levels(j: Json): nat
    decreases j, 0
  {
    match j
    case Arr(_, items) => 1 + ItemLevels(items)
    case Obj(_, ms) => 1 + MemberLevels(ms)
    case _ => 0
  }

  function Max(a: nat, b: nat): nat {
    if a > b then a else b
  }

  function ItemLevels(items: seq<Item>): nat
    decreases items, 1
  {
    if items == [] then 0 else Max(Levels(items[0].value), ItemLevels(items[1..]))
  }

  function MemberLevels(ms: seq<Member>): nat
    decreases ms, 1
  {
    if ms == [] then 0 else Max(Levels(ms[0].item.value), MemberLevels(ms[1..]))
  }

  function UnitBytes(u: Unit): seq<Byte> {
    match u
    case Plain(b) => [b]
    case Escaped(b) => [BACKSLASH, b]
    case Coded(hex) => [BACKSLASH, LETTER_U] + hex
  }

  function UnitsBytes(us: seq<Unit>): seq<Byte> {
    if us == [] then [] else UnitBytes(us[0]) + UnitsBytes(us[1..])
  }

  function Quoted(us: seq<Unit>): seq<Byte> {
    [QUOTE] + (UnitsBytes(us) + [QUOTE])
  }

  function ExpBytes(e: Exp): seq<Byte> {
    [e.letter] + ((if e.sign.Some? then [e.sign.value] else []) + e.digits)
  }

  function NumberBytes(n: Number): seq<Byte> {
    (if n.minus then [MINUS] else []) + (n.whole
      + ((if n.fraction.Some? then [POINT] + n.fraction.value else [])
         + (if n.exp.Some? then ExpBytes(n.exp.value) else [])))
  }

  function TextOf(j: Json): seq<Byte>
    decreases j, 0
  {
    match j
    case Literal(w) => w
    case Num(n) => NumberBytes(n)
    case Chars(us) => Quoted(us)
    case Arr(blank, items) => [OPEN_BRACKET] + ((if items == [] then blank else ItemsOf(items)) + [CLOSE_BRACKET])
    case Obj(blank, ms) => [OPEN_BRACE] + ((if ms == [] then blank else MembersOf(ms)) + [CLOSE_BRACE])
  }

  function ItemOf(it: Item): seq<Byte>
    decreases it, 0
  {
    it.before + (TextOf(it.value) + it.after)
  }

  function ItemsOf(items: seq<Item>): seq<Byte>
    decreases items, 1
  {
    if items == [] then []
    else ItemOf(items[0]) + (if |items| == 1 then [] else [COMMA] + ItemsOf(items[1..]))
  }

  /** A name, a colon, and blanks around the name. */
  function NameOf(m: Member): seq<Byte> {
    m.before + (Quoted(m.name) + (m.between + [COLON]))
  }

  function MembersOf(ms: seq<Member>): seq<Byte>
    decreases ms, 1
  {
    if ms == [] then []
    else NameOf(ms[0]) + (ItemOf(ms[0].item) + (if |ms| == 1 then [] else [COMMA] + MembersOf(ms[1..])))
  }

  // ------------------------------------------------------------- from state to state

  /** `s` takes the scanner from one state to another, all of it. */
  predicate Leads(st: State, s: seq<Byte>, st': State) {
    Run(JSON, st, s) == st' && Used(JSON, st, s) == |s|
  }

  lemma {:induction false} LeadsOn(a: State, s: seq<Byte>, b: State, t: seq<Byte>, c: State)
    requires Leads(a, s, b) && Leads(b, t, c)
    ensures Leads(a, s + t, c)
  {
    RunSplit(JSON, a, s, t);
  }

  lemma {:induction false} LeadsNowhere(a: State)
    ensures Leads(a, [], a)
  {
  }

  lemma {:induction false} LeadsByte(a: State, b: Byte)
    requires a.Scan?
    ensures Leads(a, [b], Step(a, b))
  {
    assert [b][1..] == [];
  }

  lemma {:induction false} LeadsFrom(a: State, b: Byte, s: seq<Byte>, c: State)
    requires a.Scan? && Leads(Step(a, b), s, c)
    ensures Leads(a, [b] + s, c)
  {
    LeadsByte(a, b);
    LeadsOn(a, [b], Step(a, b), s, c);
  }

  // ----------------------------------------------------------------------- strings

  lemma {:induction false} HexLeads(nest: Nest, hex: seq<Byte>)
    requires 1 <= |hex| <= 4 && forall i :: 0 <= i < |hex| ==> IsHex(hex[i])
    ensures Leads(Scan(InHex(|hex|), nest), hex, Scan(InString, nest))
    decreases |hex|
  {
    var st := Scan(InHex(|hex|), nest);
    assert hex == [hex[0]] + hex[1..];
    if |hex| == 1 {
      LeadsByte(st, hex[0]);
    } else {
      HexLeads(nest, hex[1..]);
      LeadsFrom(st, hex[0], hex[1..], Scan(InString, nest));
    }
  }

  lemma {:induction false} UnitLeads(nest: Nest, u: Unit)
    requires UnitProper(u)
    ensures Leads(Scan(InString, nest), UnitBytes(u), Scan(InString, nest))
  {
    hide Leads;
    var st := Scan(InString, nest);
    match u
    case Plain(b) => LeadsByte(st, b);
    case Escaped(b) =>
      LeadsByte(Scan(InEscape, nest), b);
      LeadsFrom(st, BACKSLASH, [b], st);
      assert [BACKSLASH] + [b] == UnitBytes(u);
    case Coded(hex) =>
      HexLeads(nest, hex);
      LeadsFrom(Scan(InEscape, nest), LETTER_U, hex, st);
      LeadsFrom(st, BACKSLASH, [LETTER_U] + hex, st);
      assert [BACKSLASH] + ([LETTER_U] + hex) == UnitBytes(u);
  }

  lemma {:induction false} UnitsLead(nest: Nest, us: seq<Unit>)
    requires UnitsProper(us)
    ensures Leads(Scan(InString, nest), UnitsBytes(us), Scan(InString, nest))
  {
    hide Leads, UnitProper, UnitBytes;
    var st := Scan(InString, nest);
    LeadsNowhere(st);
    if us != [] {
      UnitLeads(nest, us[0]);
      UnitsLead(nest, us[1..]);
      LeadsOn(st, UnitBytes(us[0]), st, UnitsBytes(us[1..]), st);
    }
  }

  /** From wherever a string may begin. */
  lemma {:induction false} QuotedLeads(m: Mark, nest: Nest, us: seq<Unit>)
    requires UnitsProper(us) && (m.Begin? || m.FirstItem? || m.FirstName? || m.NextName?)
    ensures Leads(Scan(m, nest), Quoted(us), Scan(Done, nest))
  {
    hide Leads;
    var st := Scan(InString, nest);
    UnitsLead(nest, us);
    LeadsByte(st, QUOTE);
    LeadsOn(st, UnitsBytes(us), st, [QUOTE], Scan(Done, nest));
    LeadsFrom(Scan(m, nest), QUOTE, UnitsBytes(us) + [QUOTE], Scan(Done, nest));
  }

  // ------------------------------------------------------- literals and numbers

  lemma {:induction false} WordLeads(nest: Nest, rest: seq<Byte>)
    requires rest != []
    ensures Leads(Scan(Word(rest), nest), rest, Scan(Done, nest))
    decreases |rest|
  {
    var st := Scan(Word(rest), nest);
    assert rest == [rest[0]] + rest[1..];
    if |rest| == 1 {
      LeadsByte(st, rest[0]);
    } else {
      WordLeads(nest, rest[1..]);
      LeadsFrom(st, rest[0], rest[1..], Scan(Done, nest));
    }
  }

  lemma {:induction false} LiteralLeads(nest: Nest, w: seq<Byte>)
    requires w == TRUE || w == FALSE || w == NULL
    ensures Leads(Scan(Begin, nest), w, Scan(Done, nest))
  {
    hide Leads;
    WordLeads(nest, w[1..]);
    LeadsFrom(Scan(Begin, nest), w[0], w[1..], Scan(Done, nest));
    assert [w[0]] + w[1..] == w;
  }

  /** More digits in a row. */
  lemma {:induction false} DigitsLead(m: Mark, nest: Nest, s: seq<Byte>)
    requires (m.Whole? || m.Fraction? || m.Power?) && forall i :: 0 <= i < |s| ==> IsDigit(s[i])
    ensures Leads(Scan(m, nest), s, Scan(m, nest))
    decreases |s|
  {
    hide Leads;
    LeadsNowhere(Scan(m, nest));
    if s != [] {
      DigitsLead(m, nest, s[1..]);
      LeadsFrom(Scan(m, nest), s[0], s[1..], Scan(m, nest));
      assert [s[0]] + s[1..] == s;
    }
  }

  function WholeMark(n: Number): Mark {
    if n.whole == [0x30] then Zero else Whole
  }

  lemma {:induction false} WholeLeads(m: Mark, nest: Nest, n: Number)
    requires NumberProper(n) && (m.Begin? || m.Minus?)
    ensures Leads(Scan(m, nest), n.whole, Scan(WholeMark(n), nest))
  {
    hide Leads;
    if n.whole[0] == 0x30 {
      LeadsByte(Scan(m, nest), n.whole[0]);
      assert [n.whole[0]] == n.whole;
    } else {
      DigitsLead(Whole, nest, n.whole[1..]);
      LeadsFrom(Scan(m, nest), n.whole[0], n.whole[1..], Scan(Whole, nest));
      assert [n.whole[0]] + n.whole[1..] == n.whole;
    }
  }

  lemma {:induction false} FractionLeads(m: Mark, nest: Nest, digits: seq<Byte>)
    requires (m.Zero? || m.Whole?) && AllDigits(digits)
    ensures Leads(Scan(m, nest), [POINT] + digits, Scan(Fraction, nest))
  {
    hide Leads;
    DigitsLead(Fraction, nest, digits[1..]);
    LeadsFrom(Scan(Point, nest), digits[0], digits[1..], Scan(Fraction, nest));
    assert [digits[0]] + digits[1..] == digits;
    LeadsFrom(Scan(m, nest), POINT, digits, Scan(Fraction, nest));
  }

  lemma {:induction false} ExpLeads(m: Mark, nest: Nest, e: Exp)
    requires (m.Zero? || m.Whole? || m.Fraction?) && ExpProper(e)
    ensures Leads(Scan(m, nest), ExpBytes(e), Scan(Power, nest))
  {
    hide Leads;
    var digits, end := e.digits, Scan(Power, nest);
    DigitsLead(Power, nest, digits[1..]);
    assert [digits[0]] + digits[1..] == digits;
    if e.sign.Some? {
      LeadsFrom(Scan(Sign, nest), digits[0], digits[1..], end);
      LeadsFrom(Scan(Exponent, nest), e.sign.value, digits, end);
      LeadsFrom(Scan(m, nest), e.letter, [e.sign.value] + digits, end);
    } else {
      LeadsFrom(Scan(Exponent, nest), digits[0], digits[1..], end);
      LeadsFrom(Scan(m, nest), e.letter, digits, end);
      assert [] + digits == digits;
    }
  }

  /** Where a number leaves the scanner, which cannot know that it has ended. */
  function NumberMark(n: Number): (m: Mark)
    ensures m.Zero? || m.Whole? || m.Fraction? || m.Power?
  {
    if n.exp.Some? then Power else if n.fraction.Some? then Fraction else WholeMark(n)
  }

  lemma {:induction false} NumberLeads(nest: Nest, n: Number)
    requires NumberProper(n)
    ensures Leads(Scan(Begin, nest), NumberBytes(n), Scan(NumberMark(n), nest))
  {
    hide Leads, AllDigits, ExpProper, ExpBytes;
    var end := Scan(NumberMark(n), nest);
    var mid := Scan(if n.fraction.Some? then Fraction else WholeMark(n), nest);
    var frac: seq<Byte> := if n.fraction.Some? then [POINT] + n.fraction.value else [];
    var exp := if n.exp.Some? then ExpBytes(n.exp.value) else [];
    LeadsNowhere(mid);
    if n.exp.Some? {
      ExpLeads(mid.mark, nest, n.exp.value);
    }
    assert Leads(mid, exp, end);
    var whole := Scan(WholeMark(n), nest);
    if n.fraction.Some? {
      FractionLeads(whole.mark, nest, n.fraction.value);
    } else {
      LeadsNowhere(whole);
    }
    LeadsOn(whole, frac, mid, exp, end);
    var first: Mark := if n.minus then Minus else Begin;
    WholeLeads(first, nest, n);
    LeadsOn(Scan(first, nest), n.whole, whole, frac + exp, end);
    if n.minus {
      LeadsFrom(Scan(Begin, nest), MINUS, n.whole + (frac + exp), end);
    } else {
      assert [] + (n.whole + (frac + exp)) == n.whole + (frac + exp);
    }
  }

  // ------------------------------------------------------------------ all values

  predicate IsGroup(j: Json) {
    j.Arr? || j.Obj?
  }

  /** Where a value leaves the scanner. */
  function EndMark(j: Json): (m: Mark)
    ensures m.Done? || m.Zero? || m.Whole? || m.Fraction? || m.Power?
  {
    if j.Num? then NumberMark(j.n) else Done
  }

  function After(j: Json, nest: Nest): State {
    if IsGroup(j) && nest.Outermost? then End(false) else Scan(EndMark(j), nest)
  }

  /** Inside brackets a delimiter ends the value before it. */
  lemma {:induction false} Delimits(j: Json, nest: Nest, b: Byte)
    requires nest.Within? && (b == COMMA || b == CLOSE_BRACE || b == CLOSE_BRACKET)
    ensures Step(After(j, nest), b) == AfterValue(nest, b)
  {
  }

  /** The first byte of a value is no blank and closes no bracket. */
  lemma {:induction false} Opening(j: Json)
    requires Proper(j)
    ensures TextOf(j) != [] && !IsSpace(TextOf(j)[0]) && TextOf(j)[0] != CLOSE_BRACKET
  {
    if j.Num? {
      assert NumberBytes(j.n)[0] == if j.n.minus then MINUS else j.n.whole[0];
    }
  }

  /** Blanks are passed over wherever a value or a name may begin. */
  lemma {:induction false} BlanksLead(m: Mark, nest: Nest, sep: seq<Byte>)
    requires Spaces(sep) && (m.Begin? || m.FirstItem? || m.FirstName? || m.NextName?)
    ensures Leads(Scan(m, nest), sep, Scan(m, nest))
    decreases |sep|
  {
    var st := Scan(m, nest);
    if sep != [] {
      BlanksLead(m, nest, sep[1..]);
      assert IsSpace(sep[0]) && [sep[0]] + sep[1..] == sep;
      LeadsFrom(st, sep[0], sep[1..], st);
    }
  }

  /** Behind a value inside brackets blanks only make sure that it has ended. */
  lemma {:induction false} BlanksAfter(nest: Nest, sep: seq<Byte>)
    requires Spaces(sep) && nest.Within?
    ensures Leads(Scan(Done, nest), sep, Scan(Done, nest))
    decreases |sep|
  {
    var st := Scan(Done, nest);
    if sep != [] {
      BlanksAfter(nest, sep[1..]);
      assert IsSpace(sep[0]) && [sep[0]] + sep[1..] == sep;
      LeadsFrom(st, sep[0], sep[1..], st);
    }
  }

  /** Where an item leaves the scanner. */
  function AfterItem(it: Item, nest: Nest): State {
    if it.after == [] then After(it.value, nest) else Scan(Done, nest)
  }

  /** A delimiter ends the item before it. */
  lemma {:induction false} DelimitsItem(it: Item, nest: Nest, b: Byte)
    requires nest.Within? && (b == COMMA || b == CLOSE_BRACE || b == CLOSE_BRACKET)
    ensures AfterItem(it, nest).Scan? && Step(AfterItem(it, nest), b) == AfterValue(nest, b)
  {
    Delimits(it.value, nest, b);
  }

  lemma {:induction false} BlanksBehind(it: Item, nest: Nest)
    requires ItemProper(it) && nest.Within?
    ensures Leads(After(it.value, nest), it.after, AfterItem(it, nest))
  {
    var sep := it.after;
    if sep != [] {
      BlanksAfter(nest, sep[1..]);
      assert IsSpace(sep[0]) && [sep[0]] + sep[1..] == sep;
      LeadsFrom(After(it.value, nest), sep[0], sep[1..], Scan(Done, nest));
    }
  }

  /** A value that does not nest too deep is passed over. */
  lemma {:induction false} ValueLeads(nest: Nest, j: Json)
    requires Proper(j) && Depth(nest) + Levels(j) <= MAX_DEPTH
    ensures Leads(Scan(Begin, nest), TextOf(j), After(j, nest))
    decreases j, 1
  {
    hide Leads, Step, Quoted, NumberBytes, NumberProper, UnitsProper;
    match j
    case Literal(w) => LiteralLeads(nest, w);
    case Num(n) => NumberLeads(nest, n);
    case Chars(us) => QuotedLeads(Begin, nest, us);
    case Arr(_, _) => ArrayLeads(nest, j);
    case Obj(_, _) => ObjectLeads(nest, j);
  }

  lemma {:induction false} ItemLeads(nest: Nest, it: Item)
    requires ItemProper(it) && nest.Within? && Depth(nest) + Levels(it.value) <= MAX_DEPTH
    ensures Leads(Scan(Begin, nest), ItemOf(it), AfterItem(it, nest))
    decreases it, 2
  {
    hide Leads, Step, TextOf, Proper;
    var begin, done, end := Scan(Begin, nest), After(it.value, nest), AfterItem(it, nest);
    BlanksLead(Begin, nest, it.before);
    ValueLeads(nest, it.value);
    BlanksBehind(it, nest);
    LeadsOn(begin, TextOf(it.value), done, it.after, end);
    LeadsOn(begin, it.before, begin, TextOf(it.value) + it.after, end);
  }

  /** At the first item of an array the scanner does as before any item, if it is one. */
  lemma {:induction false} AsFirstItem(nest: Nest, sep: seq<Byte>, s: seq<Byte>)
    requires Spaces(sep) && s != [] && !IsSpace(s[0]) && s[0] != CLOSE_BRACKET
    ensures Run(JSON, Scan(FirstItem, nest), sep + s) == Run(JSON, Scan(Begin, nest), sep + s)
    ensures Used(JSON, Scan(FirstItem, nest), sep + s) == Used(JSON, Scan(Begin, nest), sep + s)
  {
    BlanksLead(FirstItem, nest, sep);
    BlanksLead(Begin, nest, sep);
    RunSplit(JSON, Scan(FirstItem, nest), sep, s);
    RunSplit(JSON, Scan(Begin, nest), sep, s);
    assert Step(Scan(FirstItem, nest), s[0]) == Step(Scan(Begin, nest), s[0]);
  }

  lemma {:induction false} AsFirstName(nest: Nest, sep: seq<Byte>, s: seq<Byte>)
    requires Spaces(sep) && s != [] && !IsSpace(s[0]) && s[0] != CLOSE_BRACE
    ensures Run(JSON, Scan(FirstName, nest), sep + s) == Run(JSON, Scan(NextName, nest), sep + s)
    ensures Used(JSON, Scan(FirstName, nest), sep + s) == Used(JSON, Scan(NextName, nest), sep + s)
  {
    BlanksLead(FirstName, nest, sep);
    BlanksLead(NextName, nest, sep);
    RunSplit(JSON, Scan(FirstName, nest), sep, s);
    RunSplit(JSON, Scan(NextName, nest), sep, s);
    FirstNameStep(nest, s[0]);
    if Step(Scan(FirstName, nest), s[0]) != Bad {
      assert s[0] == QUOTE;
    }
  }

  lemma {:induction false} FirstNameStep(nest: Nest, b: Byte)
    requires !IsSpace(b) && b != CLOSE_BRACE
    ensures Step(Scan(FirstName, nest), b) == Step(Scan(NextName, nest), b)
  {
  }

  lemma {:induction false} ArrayLeads(nest: Nest, j: Json)
    requires j.Arr? && Proper(j) && Depth(nest) + Levels(j) <= MAX_DEPTH
    ensures Leads(Scan(Begin, nest), TextOf(j), After(j, nest))
    decreases j, 0
  {
    hide Leads;
    var inner, end, items := Within(InArray, nest), After(j, nest), j.items;
    var first, inside := Scan(FirstItem, inner), if items == [] then j.blank else ItemsOf(items);
    if items == [] {
      BlanksLead(FirstItem, inner, j.blank);
      LeadsByte(first, CLOSE_BRACKET);
      LeadsOn(first, j.blank, first, [CLOSE_BRACKET], end);
    } else {
      var last := AfterItem(items[|items| - 1], inner);
      ItemsLead(inner, items);
      FirstItemLeads(inner, items, last);
      DelimitsItem(items[|items| - 1], inner, CLOSE_BRACKET);
      LeadsByte(last, CLOSE_BRACKET);
      LeadsOn(first, ItemsOf(items), last, [CLOSE_BRACKET], end);
    }
    LeadsFrom(Scan(Begin, nest), OPEN_BRACKET, inside + [CLOSE_BRACKET], end);
  }

  /** Items are blanks and then something that is no blank and closes nothing. */
  lemma {:induction false} ItemsOpening(items: seq<Item>) returns (sep: seq<Byte>, s: seq<Byte>)
    requires items != [] && ItemProper(items[0])
    ensures ItemsOf(items) == sep + s && Spaces(sep) && s != [] && !IsSpace(s[0]) && s[0] != CLOSE_BRACKET
  {
    hide TextOf;
    var it := items[0];
    Opening(it.value);
    sep := it.before;
    s := TextOf(it.value) + (it.after + (if |items| == 1 then [] else [COMMA] + ItemsOf(items[1..])));
  }

  lemma {:induction false} FirstItemLeads(nest: Nest, items: seq<Item>, st: State)
    requires items != [] && ItemProper(items[0])
    ensures Run(JSON, Scan(FirstItem, nest), ItemsOf(items)) == Run(JSON, Scan(Begin, nest), ItemsOf(items))
    ensures Leads(Scan(Begin, nest), ItemsOf(items), st) ==> Leads(Scan(FirstItem, nest), ItemsOf(items), st)
  {
    hide Run, Used;
    var sep, s := ItemsOpening(items);
    AsFirstItem(nest, sep, s);
  }

  lemma {:induction false} ItemsLead(nest: Nest, items: seq<Item>)
    requires nest.Within? && nest.inside.InArray? && items != []
    requires (forall i :: 0 <= i < |items| ==> ItemProper(items[i])) && Depth(nest) + ItemLevels(items) <= MAX_DEPTH
    ensures Leads(Scan(Begin, nest), ItemsOf(items), AfterItem(items[|items| - 1], nest))
    decreases items, 3
  {
    hide Leads, ItemOf, Step;
    var v, begin, end := ItemOf(items[0]), Scan(Begin, nest), AfterItem(items[|items| - 1], nest);
    ItemLeads(nest, items[0]);
    if |items| == 1 {
      assert v + [] == v;
    } else {
      ItemsLead(nest, items[1..]);
      DelimitsItem(items[0], nest, COMMA);
      LeadsFrom(AfterItem(items[0], nest), COMMA, ItemsOf(items[1..]), end);
      LeadsOn(begin, v, AfterItem(items[0], nest), [COMMA] + ItemsOf(items[1..]), end);
    }
  }

  lemma {:induction false} ObjectLeads(nest: Nest, j: Json)
    requires j.Obj? && Proper(j) && Depth(nest) + Levels(j) <= MAX_DEPTH
    ensures Leads(Scan(Begin, nest), TextOf(j), After(j, nest))
    decreases j, 0
  {
    hide Leads;
    var inner, end, ms := Within(AtName, nest), After(j, nest), j.members;
    var first, inside := Scan(FirstName, inner), if ms == [] then j.blank else MembersOf(ms);
    if ms == [] {
      BlanksLead(FirstName, inner, j.blank);
      LeadsByte(first, CLOSE_BRACE);
      LeadsOn(first, j.blank, first, [CLOSE_BRACE], end);
    } else {
      var value := Within(AtValue, nest);
      var last := AfterItem(ms[|ms| - 1].item, value);
      MembersLead(nest, ms);
      FirstNameLeads(inner, ms, last);
      DelimitsItem(ms[|ms| - 1].item, value, CLOSE_BRACE);
      LeadsByte(last, CLOSE_BRACE);
      LeadsOn(first, MembersOf(ms), last, [CLOSE_BRACE], end);
    }
    LeadsFrom(Scan(Begin, nest), OPEN_BRACE, inside + [CLOSE_BRACE], end);
  }

  lemma {:induction false} MembersOpening(ms: seq<Member>) returns (s: seq<Byte>)
    requires ms != []
    ensures MembersOf(ms) == ms[0].before + s && s != [] && s[0] == QUOTE
  {
    hide ItemOf;
    var m := ms[0];
    s := Quoted(m.name) + (m.between + ([COLON] + (ItemOf(m.item)
         + (if |ms| == 1 then [] else [COMMA] + MembersOf(ms[1..])))));
  }

  lemma {:induction false} FirstNameLeads(nest: Nest, ms: seq<Member>, st: State)
    requires ms != [] && NameProper(ms[0])
    ensures Run(JSON, Scan(FirstName, nest), MembersOf(ms)) == Run(JSON, Scan(NextName, nest), MembersOf(ms))
    ensures Leads(Scan(NextName, nest), MembersOf(ms), st) ==> Leads(Scan(FirstName, nest), MembersOf(ms), st)
  {
    hide Run, Used;
    var s := MembersOpening(ms);
    AsFirstName(nest, ms[0].before, s);
  }

  /** A name and its colon. */
  lemma {:induction false} NameLeads(out: Nest, m: Member)
    requires NameProper(m)
    ensures Leads(Scan(NextName, Within(AtName, out)), NameOf(m), Scan(Begin, Within(AtValue, out)))
  {
    hide Leads, Quoted, UnitsProper;
    var atName, end := Within(AtName, out), Scan(Begin, Within(AtValue, out));
    var next, done := Scan(NextName, atName), Scan(Done, atName);
    BlanksLead(NextName, atName, m.before);
    QuotedLeads(NextName, atName, m.name);
    BlanksAfter(atName, m.between);
    LeadsByte(done, COLON);
    LeadsOn(done, m.between, done, [COLON], end);
    LeadsOn(next, Quoted(m.name), done, m.between + [COLON], end);
    LeadsOn(next, m.before, next, Quoted(m.name) + (m.between + [COLON]), end);
  }

  lemma {:induction false} MembersLead(out: Nest, ms: seq<Member>)
    requires ms != [] && forall i :: 0 <= i < |ms| ==> NameProper(ms[i]) && ItemProper(ms[i].item)
    requires 1 + Depth(out) + MemberLevels(ms) <= MAX_DEPTH
    ensures Leads(Scan(NextName, Within(AtName, out)), MembersOf(ms),
                  AfterItem(ms[|ms| - 1].item, Within(AtValue, out)))
    decreases ms, 3
  {
    hide Leads, ItemOf, NameOf, NameProper, Step;
    var atValue := Within(AtValue, out);
    var name, v, end := NameOf(ms[0]), ItemOf(ms[0].item), AfterItem(ms[|ms| - 1].item, atValue);
    var begin, done := Scan(Begin, atValue), AfterItem(ms[0].item, atValue);
    var rest: seq<Byte> := if |ms| == 1 then [] else [COMMA] + MembersOf(ms[1..]);
    ItemLeads(atValue, ms[0].item);
    if |ms| == 1 {
      LeadsNowhere(done);
    } else {
      MembersLead(out, ms[1..]);
      CommaNext(out, ms[0].item);
      LeadsFrom(done, COMMA, MembersOf(ms[1..]), end);
    }
    LeadsOn(begin, v, done, rest, end);
    NameLeads(out, ms[0]);
    LeadsOn(Scan(NextName, Within(AtName, out)), name, begin, v + rest, end);
  }

  lemma {:induction false} CommaNext(out: Nest, it: Item)
    ensures var done := AfterItem(it, Within(AtValue, out));
            done.Scan? && Step(done, COMMA) == Scan(NextName, Within(AtName, out))
  {
    DelimitsItem(it, Within(AtValue, out), COMMA);
  }

  // ------------------------------------------------------------ nesting too deep

  /** `s` makes the scanner give up. */
  predicate Breaks(st: State, s: seq<Byte>) {
    Run(JSON, st, s) == Bad
  }

  lemma {:induction false} BreaksOn(a: State, s: seq<Byte>, b: State, t: seq<Byte>, more: seq<Byte>)
    requires Leads(a, s, b) && Breaks(b, t)
    ensures Breaks(a, s + (t + more))
  {
    RunSplit(JSON, b, t, more);
    RunSplit(JSON, a, s, t + more);
  }

  lemma {:induction false} BreaksFirst(a: State, t: seq<Byte>, more: seq<Byte>)
    requires Breaks(a, t)
    ensures Breaks(a, t + more)
  {
    RunSplit(JSON, a, t, more);
  }

  lemma {:induction false} BadBreaks(a: State, s: seq<Byte>, more: seq<Byte>)
    requires Leads(a, s, Bad)
    ensures Breaks(a, s + more)
  {
    RunSplit(JSON, a, s, more);
  }

  lemma {:induction false} ValueBreaks(nest: Nest, j: Json)
    requires Proper(j) && Depth(nest) <= MAX_DEPTH < Depth(nest) + Levels(j)
    ensures Breaks(Scan(Begin, nest), TextOf(j))
    decreases j, 1
  {
    hide Leads, Breaks, Quoted, UnitsProper;
    var begin := Scan(Begin, nest);
    match j
    case Arr(blank, items) =>
      var inner, inside := Within(InArray, nest), if items == [] then blank else ItemsOf(items);
      LeadsByte(begin, OPEN_BRACKET);
      if Depth(nest) == MAX_DEPTH {
        BadBreaks(begin, [OPEN_BRACKET], inside + [CLOSE_BRACKET]);
      } else {
        ItemsBreak(inner, items);
        FirstItemBreaks(inner, items);
        BreaksOn(begin, [OPEN_BRACKET], Scan(FirstItem, inner), ItemsOf(items), [CLOSE_BRACKET]);
      }
    case Obj(blank, ms) =>
      var inner, inside := Within(AtName, nest), if ms == [] then blank else MembersOf(ms);
      LeadsByte(begin, OPEN_BRACE);
      if Depth(nest) == MAX_DEPTH {
        BadBreaks(begin, [OPEN_BRACE], inside + [CLOSE_BRACE]);
      } else {
        MembersBreak(nest, ms);
        FirstNameBreaks(inner, ms);
        BreaksOn(begin, [OPEN_BRACE], Scan(FirstName, inner), MembersOf(ms), [CLOSE_BRACE]);
      }
    case _ =>
  }

  lemma {:induction false} FirstItemBreaks(nest: Nest, items: seq<Item>)
    requires items != [] && ItemProper(items[0]) && Breaks(Scan(Begin, nest), ItemsOf(items))
    ensures Breaks(Scan(FirstItem, nest), ItemsOf(items))
  {
    FirstItemLeads(nest, items, Bad);
  }

  lemma {:induction false} FirstNameBreaks(nest: Nest, ms: seq<Member>)
    requires ms != [] && NameProper(ms[0]) && Breaks(Scan(NextName, nest), MembersOf(ms))
    ensures Breaks(Scan(FirstName, nest), MembersOf(ms))
  {
    FirstNameLeads(nest, ms, Bad);
  }

  /** The value of an item too deep breaks it, after the blanks before it. */
  lemma {:induction false} ItemBreaks(nest: Nest, it: Item, more: seq<Byte>)
    requires ItemProper(it) && Depth(nest) <= MAX_DEPTH < Depth(nest) + Levels(it.value)
    ensures Breaks(Scan(Begin, nest), ItemOf(it) + more)
    decreases it, 2
  {
    hide Leads, Breaks, TextOf;
    BlanksLead(Begin, nest, it.before);
    ValueBreaks(nest, it.value);
    BreaksOn(Scan(Begin, nest), it.before, Scan(Begin, nest), TextOf(it.value), it.after + more);
    assert it.before + (TextOf(it.value) + (it.after + more)) == ItemOf(it) + more;
  }

  lemma {:induction false} ItemsBreak(nest: Nest, items: seq<Item>)
    requires nest.Within? && nest.inside.InArray? && forall i :: 0 <= i < |items| ==> ItemProper(items[i])
    requires Depth(nest) <= MAX_DEPTH < Depth(nest) + ItemLevels(items)
    ensures items != [] && Breaks(Scan(Begin, nest), ItemsOf(items))
    decreases items, 3
  {
    hide Leads, Breaks, ItemOf;
    var v, begin := ItemOf(items[0]), Scan(Begin, nest);
    if Depth(nest) + Levels(items[0].value) > MAX_DEPTH {
      ItemBreaks(nest, items[0], if |items| == 1 then [] else [COMMA] + ItemsOf(items[1..]));
    } else {
      var done := AfterItem(items[0], nest);
      ItemLeads(nest, items[0]);
      ItemsBreak(nest, items[1..]);
      DelimitsItem(items[0], nest, COMMA);
      LeadsByte(done, COMMA);
      LeadsOn(begin, v, done, [COMMA], begin);
      BreaksOn(begin, v + [COMMA], begin, ItemsOf(items[1..]), []);
      assert v + [COMMA] + (ItemsOf(items[1..]) + []) == v + ([COMMA] + ItemsOf(items[1..]));
    }
  }

  lemma {:induction false} MembersBreak(out: Nest, ms: seq<Member>)
    requires forall i :: 0 <= i < |ms| ==> NameProper(ms[i]) && ItemProper(ms[i].item)
    requires 1 + Depth(out) <= MAX_DEPTH < 1 + Depth(out) + MemberLevels(ms)
    ensures ms != [] && Breaks(Scan(NextName, Within(AtName, out)), MembersOf(ms))
    decreases ms, 3
  {
    hide Leads, Breaks, ItemOf, NameOf, NameProper, Step;
    var atValue, first := Within(AtValue, out), Scan(NextName, Within(AtName, out));
    var name, v, begin := NameOf(ms[0]), ItemOf(ms[0].item), Scan(Begin, atValue);
    var rest: seq<Byte> := if |ms| == 1 then [] else [COMMA] + MembersOf(ms[1..]);
    NameLeads(out, ms[0]);
    if Depth(atValue) + Levels(ms[0].item.value) > MAX_DEPTH {
      ItemBreaks(atValue, ms[0].item, rest);
      BreaksOn(first, name, begin, v + rest, []);
      assert v + rest + [] == v + rest;
    } else {
      CommaLeads(out, ms[0].item);
      MembersBreak(out, ms[1..]);
      LeadsOn(first, name, begin, v + [COMMA], first);
      BreaksOn(first, name + (v + [COMMA]), first, MembersOf(ms[1..]), []);
      assert name + (v + [COMMA]) + (MembersOf(ms[1..]) + []) == name + (v + rest);
    }
  }

  /** A member's value and the comma after it. */
  lemma {:induction false} CommaLeads(out: Nest, it: Item)
    requires ItemProper(it) && 1 + Depth(out) + Levels(it.value) <= MAX_DEPTH
    ensures Leads(Scan(Begin, Within(AtValue, out)), ItemOf(it) + [COMMA], Scan(NextName, Within(AtName, out)))
    decreases it, 3
  {
    hide Leads, ItemOf, Step;
    var atValue := Within(AtValue, out);
    var done, next := AfterItem(it, atValue), Scan(NextName, Within(AtName, out));
    ItemLeads(atValue, it);
    CommaNext(out, it);
    LeadsByte(done, COMMA);
    LeadsOn(Scan(Begin, atValue), ItemOf(it), done, [COMMA], next);
  }

  // ------------------------------------------------------------------ at the top

  /** A value's text is framed exactly, the decoder's scanner taking all of it and nothing of
      what follows, if and only if it does not nest too deep. An object needs no byte beyond
      its own. */
  lemma {:induction false} EveryValueIsText(j: Json)
    requires Proper(j)
    ensures IsText(TextOf(j)) <==> Levels(j) <= MAX_DEPTH
    ensures j.Obj? && Levels(j) <= MAX_DEPTH ==> IsObject(TextOf(j))
  {
    hide Step, TextOf;
    var v := TextOf(j);
    Opening(j);
    if Levels(j) <= MAX_DEPTH {
      ValueLeads(Outermost, j);
      RunSplit(JSON, START, v, [NEWLINE]);
      LastByte(j);
      StartsObject(j);
    } else {
      ValueBreaks(Outermost, j);
      BreaksFirst(START, v, [NEWLINE]);
    }
  }

  lemma {:induction false} StartsObject(j: Json)
    ensures j.Obj? ==> TextOf(j) != [] && TextOf(j)[0] == OPEN_BRACE
  {
  }

  lemma {:induction false} LastByte(j: Json)
    ensures var st := After(j, Outermost);
            Run(JSON, st, [NEWLINE]).End? && Used(JSON, st, [NEWLINE]) == Peeked(Run(JSON, st, [NEWLINE]))
  {
    assert [NEWLINE][1..] == [];
  }

  /** Decoding the text of any value, after separators and before anything, gives that text
      back if and only if it fits in what may be looked at and does not nest too deep. */
  lemma {:induction false} EveryValueDecodes(j: Json, sep: seq<Byte>, tail: seq<Byte>, cap: nat)
    requires Proper(j) && Spaces(sep)
    ensures var v := TextOf(j);
            var r := Decode(sep + v + [NEWLINE] + tail, cap);
            if Levels(j) <= MAX_DEPTH then
              IsText(v) && r == if Need(sep, v) <= cap then Text(v, |sep| + |v|) else TooLarge
            else r == Syntax || r == TooLarge
  {
    hide Decode, IsText, TextOf;
    EveryValueIsText(j);
    if Levels(j) <= MAX_DEPTH {
      DecodeText(sep, TextOf(j), tail, cap);
    } else {
      DecodeBroken(sep, TextOf(j), [NEWLINE] + tail, cap) by {
        ValueBreaks(Outermost, j);
      }
      assert sep + TextOf(j) + [NEWLINE] + tail == sep + (TextOf(j) + ([NEWLINE] + tail));
    }
  }

  lemma {:induction false} DecodeBroken(sep: seq<Byte>, v: seq<Byte>, more: seq<Byte>, cap: nat)
    requires Spaces(sep) && Breaks(START, v)
    ensures Decode(sep + (v + more), cap) in {Syntax, TooLarge}
  {
    hide Step;
    var s := sep + (v + more);
    BreaksFirst(START, v, more);
    SpacesKeepStart(sep, v + more);
    StopsWindow(JSON, START, s, Min(|s|, cap));
    UsedBound(JSON, START, s);
  }

  /** A connection that starts with an object starts a JSON stream exactly when the object is
      not the empty one without blanks, which is how the encoder prints an empty one. */
  lemma {:induction false} ObjectIsJsonIff(j: Json, tail: seq<Byte>)
    requires j.Obj? && Proper(j)
    ensures Levels(j) <= MAX_DEPTH && j.blank == [] && (j.members != [] ==> j.members[0].before == []) ==>
              Negotiate.Compact(TextOf(j))
    ensures Negotiate.IsJson(TextOf(j) + tail) <==> TextOf(j) != [OPEN_BRACE, CLOSE_BRACE]
  {
    var v, ms := TextOf(j), j.members;
    EveryValueIsText(j);
    if ms != [] {
      var s := MembersOpening(ms);
      assert v == [OPEN_BRACE] + (ms[0].before + s + [CLOSE_BRACE]);
      assert v[1] == if ms[0].before == [] then QUOTE else ms[0].before[0];
    } else {
      assert v == [OPEN_BRACE] + (j.blank + [CLOSE_BRACE]);
      assert v[1] == if j.blank == [] then CLOSE_BRACE else j.blank[0];
    }
  }
}
