/** The framing of JSON texts in a stream, as the JSON decoder scans them: leading
    whitespace is skipped, an object or array ends with its closing bracket, a string,
    number or literal ends one byte later, at a byte that is left in the stream.  What
    the grammar does not allow stops the scanner with an error. */
module JsonText {
  import opened Automata

  const NEWLINE: Byte := 10
  const SPACE: Byte := 0x20
  const QUOTE: Byte := 0x22
  const PLUS: Byte := 0x2B
  const COMMA: Byte := 0x2C
  const MINUS: Byte := 0x2D
  const POINT: Byte := 0x2E
  const COLON: Byte := 0x3A
  const OPEN_BRACKET: Byte := 0x5B
  const BACKSLASH: Byte := 0x5C
  const CLOSE_BRACKET: Byte := 0x5D
  const OPEN_BRACE: Byte := 0x7B
  const CLOSE_BRACE: Byte := 0x7D

  /** The bytes of `true`, `false` and `null`. */
  const TRUE: seq<Byte> := [0x74, 0x72, 0x75, 0x65]
  const FALSE: seq<Byte> := [0x66, 0x61, 0x6C, 0x73, 0x65]
  const NULL: seq<Byte> := [0x6E, 0x75, 0x6C, 0x6C]

  /** How deep the scanner lets brackets nest. */
  const MAX_DEPTH: nat := 10000

  predicate IsSpace(b: Byte) {
    b == 0x20 || b == 0x09 || b == 0x0A || b == 0x0D
  }

  predicate IsDigit(b: Byte) {
    0x30 <= b <= 0x39
  }

  predicate IsHex(b: Byte) {
    IsDigit(b) || 0x41 <= b <= 0x46 || 0x61 <= b <= 0x66
  }

  /** The letters e and E of an exponent. */
  predicate IsE(b: Byte) {
    b == 0x65 || b == 0x45
  }

  /** What may follow a backslash, but for the u of a code point. */
  predicate IsEscape(b: Byte) {
    b == QUOTE || b == BACKSLASH || b == 0x2F || b == 0x62 || b == 0x66 || b == 0x6E || b == 0x72 || b == 0x74
  }

  const LETTER_U: Byte := 0x75

  /** The bytes of a string of ASCII characters. */
  function Ascii(s: string): seq<Byte>
    requires forall i :: 0 <= i < |s| ==> s[i] as int < 128
  {
    seq(|s|, i requires 0 <= i < |s| => s[i] as int)
  }

  /** The bytes the grammar names are those of its characters. */
  lemma {:induction false} Characters()
    ensures [OPEN_BRACE, CLOSE_BRACE, OPEN_BRACKET, CLOSE_BRACKET, COMMA, COLON] == Ascii("{}[],:")
    ensures [QUOTE, BACKSLASH, LETTER_U, MINUS, PLUS, POINT, SPACE, NEWLINE] == Ascii("\"\\u-+. \n")
    ensures TRUE == Ascii("true") && FALSE == Ascii("false") && NULL == Ascii("null")
  {
  }

  lemma {:induction false} BlankCharacters(b: Byte)
    ensures IsSpace(b) <==> b in Ascii(" \t\n\r")
    ensures IsE(b) <==> b in Ascii("eE")
  {
    assert Ascii(" \t\n\r") == [0x20, 0x09, 0x0A, 0x0D] && Ascii("eE") == [0x65, 0x45];
  }

  lemma {:induction false} EscapeCharacters(b: Byte)
    ensures IsEscape(b) <==> b in Ascii("\"\\/bfnrt")
  {
    assert Ascii("\"\\/bfnrt") == [QUOTE, BACKSLASH, 0x2F, 0x62, 0x66, 0x6E, 0x72, 0x74];
  }

  lemma {:induction false} DigitCharacters(b: Byte)
    ensures IsDigit(b) <==> '0' as int <= b <= '9' as int
    ensures IsHex(b) <==> IsDigit(b) || 'a' as int <= b <= 'f' as int || 'A' as int <= b <= 'F' as int
  {
  }

  /** What the scanner is directly inside of: an array, or an object, at a name or a value. */
  datatype Inside = InArray | AtName | AtValue

  datatype Nest = Outermost | Within(inside: Inside, out: Nest)

  function Depth(n: Nest): nat {
    if n.Outermost? then 0 else 1 + Depth(n.out)
  }

  /** What the scanner has just seen, or expects. */
  datatype Mark =
    | Begin                                                               // a value
    | FirstItem | FirstName | NextName                                    // or a closing bracket, or a name
    | Done                                                                // a value has ended
    | InString | InEscape | InHex(left: nat)
    | Minus | Zero | Whole | Point | Fraction | Exponent | Sign | Power   // a number
    | Word(rest: seq<Byte>)                                               // the rest of a literal

  datatype State =
    | Scan(mark: Mark, nest: Nest)
    | End(peeked: bool)
    | Bad

  const START: State := Scan(Begin, Outermost)

  predicate Stopped(st: State) {
    !st.Scan?
  }

  function Push(nest: Nest, inside: Inside, mark: Mark): State {
    if Depth(nest) < MAX_DEPTH then Scan(mark, Within(inside, nest)) else Bad
  }

  /** A closing bracket. */
  function Pop(nest: Nest): State {
    if nest.Outermost? || nest.out.Outermost? then End(false) else Scan(Done, nest.out)
  }

  function BeginValue(nest: Nest, b: Byte): State {
    if IsSpace(b) then Scan(Begin, nest)
    else if b == OPEN_BRACE then Push(nest, AtName, FirstName)
    else if b == OPEN_BRACKET then Push(nest, InArray, FirstItem)
    else if b == QUOTE then Scan(InString, nest)
    else if b == TRUE[0] then Scan(Word(TRUE[1..]), nest)
    else if b == FALSE[0] then Scan(Word(FALSE[1..]), nest)
    else if b == NULL[0] then Scan(Word(NULL[1..]), nest)
    else if b == MINUS then Scan(Minus, nest)
    else BeginWhole(nest, b)
  }

  function BeginWhole(nest: Nest, b: Byte): State {
    if b == 0x30 then Scan(Zero, nest) else if IsDigit(b) then Scan(Whole, nest) else Bad
  }

  function BeginName(mark: Mark, nest: Nest, b: Byte): State {
    if IsSpace(b) then Scan(mark, nest) else if b == QUOTE then Scan(InString, nest) else Bad
  }

  function AfterValue(nest: Nest, b: Byte): State {
    match nest
    case Outermost => End(true)
    case Within(inside, out) =>
      if IsSpace(b) then Scan(Done, nest)
      else
        match inside
        case AtName => if b == COLON then Scan(Begin, Within(AtValue, out)) else Bad
        case AtValue =>
          if b == COMMA then Scan(NextName, Within(AtName, out)) else if b == CLOSE_BRACE then Pop(nest) else Bad
        case InArray =>
          if b == COMMA then Scan(Begin, nest) else if b == CLOSE_BRACKET then Pop(nest) else Bad
  }

  function AfterWhole(nest: Nest, b: Byte): State {
    if b == POINT then Scan(Point, nest) else AfterFraction(nest, b)
  }

  function AfterFraction(nest: Nest, b: Byte): State {
    if IsE(b) then Scan(Exponent, nest) else AfterValue(nest, b)
  }

  function StepFrom(m: Mark, nest: Nest, b: Byte): State {
    match m
    case Begin => BeginValue(nest, b)
    case FirstItem =>
      if IsSpace(b) then Scan(FirstItem, nest) else if b == CLOSE_BRACKET then Pop(nest) else BeginValue(nest, b)
    case FirstName => if b == CLOSE_BRACE then Pop(nest) else BeginName(m, nest, b)
    case NextName => BeginName(m, nest, b)
    case Done => AfterValue(nest, b)
    case InString =>
      if b == QUOTE then Scan(Done, nest)
      else if b == BACKSLASH then Scan(InEscape, nest)
      else if b < 0x20 then Bad
      else Scan(InString, nest)
    case InEscape =>
      if IsEscape(b) then Scan(InString, nest) else if b == LETTER_U then Scan(InHex(4), nest) else Bad
    case InHex(n) => if !IsHex(b) then Bad else Scan(if n <= 1 then InString else InHex(n - 1), nest)
    case Minus => BeginWhole(nest, b)
    case Zero => AfterWhole(nest, b)
    case Whole => if IsDigit(b) then Scan(Whole, nest) else AfterWhole(nest, b)
    case Point => if IsDigit(b) then Scan(Fraction, nest) else Bad
    case Fraction => if IsDigit(b) then Scan(Fraction, nest) else AfterFraction(nest, b)
    case Exponent =>
      if b == PLUS || b == MINUS then Scan(Sign, nest) else if IsDigit(b) then Scan(Power, nest) else Bad
    case Sign => if IsDigit(b) then Scan(Power, nest) else Bad
    case Power => if IsDigit(b) then Scan(Power, nest) else AfterValue(nest, b)
    case Word(rest) =>
      if rest == [] || b != rest[0] then Bad else Scan(if |rest| == 1 then Done else Word(rest[1..]), nest)
  }

  function Step(st: State, b: Byte): State {
    if st.Scan? then StepFrom(st.mark, st.nest, b) else st
  }

  /** The byte looked at past the end of a text stays in the stream. */
  function Peeked(st: State): nat {
    if st.End? && st.peeked then 1 else 0
  }

  const JSON: Automaton<State> := Automaton(Step, Stopped)

  /** At the end of the stream the decoder lets the scanner see one blank more, and takes
      what it has got if that ends it. */
  predicate EndsText(st: State) {
    st.Scan? && Step(st, SPACE).End?
  }

  lemma {:induction false} EndTakes(s: seq<Byte>)
    requires Run(JSON, START, s).End?
    ensures Used(JSON, START, s) >= 1
  {
  }

  /** What one Decode reports. `len` is how many bytes it takes from the stream. */
  datatype Outcome =
    | Text(text: seq<Byte>, len: nat)
    | TooLarge
    | Eof
    | Truncated
    | Syntax

  function SkipSpaces(s: seq<Byte>): seq<Byte>
    decreases |s|
  {
    if s != [] && IsSpace(s[0]) then SkipSpaces(s[1..]) else s
  }

  /** The outcome of decoding the stream `s` when at most `cap` of its bytes may be
      looked at.  Nothing else, in particular not the cutting of `s` into reads, has a
      part in it. */
  function Decode(s: seq<Byte>, cap: nat): (r: Outcome)
    ensures r.Text? ==> r.len <= |s| && r.len <= cap
  {
    var seen := s[..Min(|s|, cap)];
    var st := Run(JSON, START, seen);
    UsedBound(JSON, START, seen);
    if st.End? then
      EndTakes(seen);
      var n := Used(JSON, START, seen) - Peeked(st);
      Text(SkipSpaces(seen[..n]), n)
    else if st.Bad? then Syntax
    else if |s| >= cap then TooLarge
    else if EndsText(st) then Text(SkipSpaces(s), |s|)
    else if st == START then Eof
    else Truncated
  }

  predicate Spaces(sep: seq<Byte>) {
    forall i :: 0 <= i < |sep| ==> IsSpace(sep[i])
  }

  /** A text the encoder may emit: with the newline the encoder adds, the scanner takes
      it and leaves the newline. */
  predicate IsText(v: seq<Byte>) {
    && v != [] && !IsSpace(v[0])
    && Run(JSON, START, v + [NEWLINE]).End?
    && Used(JSON, START, v + [NEWLINE]) == |v| + Peeked(Run(JSON, START, v + [NEWLINE]))
  }

  /** An object: complete with its closing brace, no look at the next byte needed. */
  predicate IsObject(v: seq<Byte>) {
    && v != [] && v[0] == OPEN_BRACE
    && Run(JSON, START, v) == End(false)
    && Used(JSON, START, v) == |v|
  }

  lemma {:induction false} ObjectIsText(v: seq<Byte>)
    requires IsObject(v)
    ensures IsText(v)
  {
    StopsExtend(JSON, START, v, [NEWLINE]);
  }

  lemma {:induction false} SpacesKeepStart(sep: seq<Byte>, s: seq<Byte>)
    requires Spaces(sep)
    ensures Run(JSON, START, sep + s) == Run(JSON, START, s)
    ensures Used(JSON, START, sep + s) == |sep| + Used(JSON, START, s)
    ensures s != [] && !IsSpace(s[0]) ==> SkipSpaces(sep + s) == s
    decreases |sep|
  {
    if sep == [] {
      assert sep + s == s;
    } else {
      assert (sep + s)[0] == sep[0] && (sep + s)[1..] == sep[1..] + s;
      SpacesKeepStart(sep[1..], s);
    }
  }

  /** How many bytes must be looked at to take `v` after `sep`: the separators, the
      text, and one more byte unless the text closes itself. */
  function Need(sep: seq<Byte>, v: seq<Byte>): nat
    requires IsText(v)
  {
    |sep| + Used(JSON, START, v + [NEWLINE])
  }

  lemma {:induction false} NeedBound(sep: seq<Byte>, v: seq<Byte>)
    requires IsText(v)
    ensures |sep| + |v| <= Need(sep, v) <= |sep| + |v| + 1
  {
    UsedBound(JSON, START, v + [NEWLINE]);
  }

  /** A text followed by a newline is taken exactly, if and only if the bytes it needs
      may be looked at; otherwise the outcome is that it is too large. */
  lemma {:induction false} DecodeText(sep: seq<Byte>, v: seq<Byte>, tail: seq<Byte>, cap: nat)
    requires Spaces(sep) && IsText(v)
    ensures var s := sep + v + [NEWLINE] + tail;
            Decode(s, cap) == if Need(sep, v) <= cap then Text(v, |sep| + |v|) else TooLarge
    ensures (sep + v + [NEWLINE] + tail)[|sep| + |v|..] == [NEWLINE] + tail
  {
    var line := v + [NEWLINE];
    var s := sep + v + [NEWLINE] + tail;
    assert s == sep + (line + tail) == sep + v + ([NEWLINE] + tail);
    NeedBound(sep, v);
    StopsExtend(JSON, START, line, tail);
    SpacesKeepStart(sep, line + tail);
    var k := Min(|s|, cap);
    StopsWindow(JSON, START, s, k);
    if Need(sep, v) <= cap {
      assert s[..k][..|sep| + |v|] == sep + v;
      SpacesKeepStart(sep, v);
    } else {
      assert !Stops(JSON, START, s[..k]);
    }
  }

  /** An object needs no byte beyond its own. */
  lemma {:induction false} DecodeObject(v: seq<Byte>, tail: seq<Byte>, cap: nat)
    requires IsObject(v) && |v| <= cap
    ensures var s := [] + v + [NEWLINE] + tail;
            Decode(s, cap) == Text(v, |v|) && s[|v|..] == [NEWLINE] + tail
  {
    ObjectIsText(v);
    StopsExtend(JSON, START, v, [NEWLINE]);
    DecodeText([], v, tail, cap);
  }

  /** Once a text is complete among the bytes that may be looked at, looking at fewer
      bytes gives the same outcome as long as the text is complete among those. */
  lemma {:induction false} DecodeWindow(s: seq<Byte>, cap: nat, k: nat)
    requires k <= |s| && k <= cap && Stops(JSON, START, s[..k])
    ensures Decode(s[..k], cap) == Decode(s, cap)
    ensures Decode(s, cap).Text? ==> Decode(s, cap).len <= k
  {
    var m := Min(|s|, cap);
    assert s[..m][..k] == s[..k];
    assert s[..m] == s[..k] + s[..m][k..];
    StopsExtend(JSON, START, s[..k], s[..m][k..]);
    assert s[..k][..Min(|s[..k]|, cap)] == s[..k];
    var n := Used(JSON, START, s[..k]);
    UsedBound(JSON, START, s[..k]);
    var st := Run(JSON, START, s[..k]);
    if st.End? {
      EndTakes(s[..k]);
      assert s[..m][..n - Peeked(st)] == s[..k][..n - Peeked(st)];
    }
  }

  /** A text that was not complete within the first `k` bytes takes all of them. */
  lemma {:induction false} TextCovers(s: seq<Byte>, cap: nat, k: nat)
    requires k <= |s| && k <= cap && !Stops(JSON, START, s[..k]) && Decode(s, cap).Text?
    ensures Decode(s, cap).len >= k
  {
    var seen := s[..Min(|s|, cap)];
    assert seen[..k] == s[..k];
    if Stops(JSON, START, seen) {
      StopsWindow(JSON, START, seen, k);
    }
  }

  // ------------------------------------------------- where the stream ends

  /** A text that does not say where it ends: a number. */
  predicate IsNumber(v: seq<Byte>)
    requires v != []
  {
    v[0] == MINUS || IsDigit(v[0])
  }

  /** Scanning a number that stands by itself. */
  predicate InNumber(st: State) {
    st.Scan? ==>
      && st.nest.Outermost?
      && (st.mark.Minus? || st.mark.Zero? || st.mark.Whole? || st.mark.Point? || st.mark.Fraction?
          || st.mark.Exponent? || st.mark.Sign? || st.mark.Power?)
  }

  /** A number has been scanned as far as its last byte, which is a digit or not. */
  lemma {:induction false} NumberRun(st: State, s: seq<Byte>)
    requires InNumber(st)
    ensures var st' := Run(JSON, st, s);
            InNumber(st') && (s != [] && st'.Scan? ==> (EndsText(st') <==> IsDigit(s[|s| - 1])))
    decreases |s|
  {
    if !Stopped(st) && s != [] {
      NumberRun(Step(st, s[0]), s[1..]);
    }
  }

  /** Scanning a string or a literal that stands by itself, or inside brackets. */
  predicate InOther(st: State) {
    st.Scan? && st.nest.Outermost? ==>
      st.mark.InString? || st.mark.InEscape? || st.mark.InHex? || st.mark.Word? || st.mark.Done?
  }

  lemma {:induction false} OtherRun(st: State, s: seq<Byte>)
    requires InOther(st)
    ensures InOther(Run(JSON, st, s))
    decreases |s|
  {
    if !Stopped(st) && s != [] {
      OtherRun(Step(st, s[0]), s[1..]);
    }
  }

  lemma {:induction false} FirstByte(b: Byte)
    ensures (b == MINUS || IsDigit(b)) && Step(START, b).Scan? ==> InNumber(Step(START, b))
    ensures b != MINUS && !IsDigit(b) && !IsSpace(b) ==> InOther(Step(START, b))
    ensures Step(START, b) == START ==> IsSpace(b)
  {
  }

  /** Once something of a text has been scanned, the scanner is in a number or in another text. */
  lemma {:induction false} InsideValue(v: seq<Byte>)
    requires v != [] && !IsSpace(v[0]) && Run(JSON, START, v).Scan?
    ensures var st := Run(JSON, START, v);
            && st != START
            && if IsNumber(v) then EndsText(st) <==> IsDigit(v[|v| - 1])
               else EndsText(st) <==> st == Scan(Done, Outermost)
  {
    var first := Step(START, v[0]);
    hide Step;
    FirstByte(v[0]);
    if IsNumber(v) {
      NumberRun(first, v[1..]);
      FirstDigit(v[0]);
    } else {
      OtherRun(first, v[1..]);
      OtherEnds(Run(JSON, START, v));
    }
  }

  lemma {:induction false} FirstDigit(b: Byte)
    requires b == MINUS || IsDigit(b)
    ensures EndsText(Step(START, b)) <==> IsDigit(b)
  {
  }

  lemma {:induction false} OtherEnds(st: State)
    requires InOther(st) && st.Scan?
    ensures EndsText(st) <==> st == Scan(Done, Outermost)
  {
  }

  /** After a complete value outside brackets any byte ends the scan. */
  lemma {:induction false} EndedByNext(st: State, s: seq<Byte>)
    requires s != []
    ensures st == Scan(Done, Outermost) ==> Run(JSON, st, s) == End(true) && Used(JSON, st, s) == 1
  {
  }

  /** Where the scanner stands inside a text: what it has got so far is a text only if that is
      a number as far as some digit. */
  lemma {:induction false} InsideText(v: seq<Byte>, k: nat)
    requires IsText(v) && 0 < k < |v|
    ensures var st := Run(JSON, START, v[..k]);
            && st.Scan? && st != START
            && (EndsText(st) <==> IsNumber(v) && IsDigit(v[k - 1]))
  {
    hide Step, EndsText;
    var line, head := v + [NEWLINE], v[..k];
    assert line[..k] == head && line == head + line[k..];
    NeedBound([], v);
    StopsWindow(JSON, START, line, k);
    UsedBound(JSON, START, head);
    RunSplit(JSON, START, head, line[k..]);
    InsideValue(head);
    EndedByNext(Run(JSON, START, head), line[k..]);
  }

  /** A stream that ends between texts is reported as ended, and one that ends inside a text
      as cut, unless what has come of the text is a number as far as some digit: that, and
      nothing else, is taken for a text, and it is one. */
  lemma {:induction false} WhereTheStreamEnds(sep: seq<Byte>, v: seq<Byte>, k: nat, cap: nat)
    requires Spaces(sep) && IsText(v) && k < |v| && |sep| + k < cap
    ensures Decode(sep + v[..k], cap)
            == if k == 0 then Eof
               else if IsNumber(v) && IsDigit(v[k - 1]) then Text(v[..k], |sep| + k)
               else Truncated
    ensures k > 0 && IsNumber(v) ==> (IsText(v[..k]) <==> IsDigit(v[k - 1]))
  {
    var s := sep + v[..k];
    assert s[..Min(|s|, cap)] == s;
    SpacesKeepStart(sep, v[..k]);
    if k > 0 {
      InsideText(v, k);
      var st := Run(JSON, START, v[..k]);
      RunSplit(JSON, START, v[..k], [NEWLINE]);
      UsedBound(JSON, START, v[..k]);
    }
  }

  /** A whole text is taken at the end of the stream too. */
  lemma {:induction false} WholeAtTheEnd(sep: seq<Byte>, v: seq<Byte>, cap: nat)
    requires Spaces(sep) && IsText(v) && Need(sep, v) <= cap
    ensures Decode(sep + v, cap) == Text(v, |sep| + |v|)
  {
    var s, line := sep + v, v + [NEWLINE];
    NeedBound(sep, v);
    assert s[..Min(|s|, cap)] == s == s[..|s|];
    SpacesKeepStart(sep, v);
    assert line[..|v|] == v;
    StopsWindow(JSON, START, line, |v|);
    UsedBound(JSON, START, v);
    RunSplit(JSON, START, v, [NEWLINE]);
    EndedByNewline(Run(JSON, START, v));
  }

  lemma {:induction false} EndedByNewline(st: State)
    ensures st.Scan? ==> Run(JSON, st, [NEWLINE]) == Step(st, NEWLINE) && Used(JSON, st, [NEWLINE]) == 1
    ensures st.Scan? && Step(st, NEWLINE).End? ==> EndsText(st)
  {
    assert [NEWLINE][1..] == [];
  }
}
