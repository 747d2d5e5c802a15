/** The v3 plain JSON codec, reading side.  One decoder reads header and body texts in
    turn; before each of them its budget is reset to `maxBody` bytes.  Bytes read ahead of
    a text stay in the decoder and are carried into the next one. */
module JsonCodec {
  import opened Automata
  import opened JsonText
  import opened JsonDecoder
  import opened Streams

  const DEFAULT_MAX_BODY: nat := 0x40_0000

  function Limit(maxBody: int): (r: nat)
    ensures r > 0 && (maxBody > 0 ==> r == maxBody) && (maxBody <= 0 ==> r == 4 * 1024 * 1024)
  {
    if maxBody <= 0 then DEFAULT_MAX_BODY else maxBody
  }

  // --------------------------------------------------------- the byte budget

  /** What a decode leaves read ahead never exceeds the budget, so no text longer than twice
      the budget is ever accepted, nor more than that many bytes held. */
  lemma {:induction false} CarryBound(maxBody: nat, a: Rx, r: Outcome, b: Rx)
    requires DecodeStep(maxBody, a, r, b) && r.Text? && |a.Carry()| <= maxBody
    ensures |b.Carry()| <= maxBody
    ensures r.len <= 2 * maxBody
  {
    hide DecodeStep, Decode;
    StepFacts(maxBody, a, r, b);
    assert |b.All()| == |a.All()| - r.len;
  }

  /** Exactly which texts are accepted: those whose needed bytes, separators counted, fit
      in the budget and the look-ahead together. */
  lemma {:induction false} AcceptedIff(maxBody: nat, a: Rx, r: Outcome, b: Rx,
                                       sep: seq<Byte>, v: seq<Byte>, tail: seq<Byte>)
    requires DecodeStep(maxBody, a, r, b) && Spaces(sep) && IsText(v)
    requires a.All() == sep + v + [NEWLINE] + tail
    ensures r == if Need(sep, v) <= |a.Carry()| + maxBody then Text(v, |sep| + |v|) else TooLarge
  {
    hide Decode, DecodeStep;
    StepFacts(maxBody, a, r, b);
    DecodeText(sep, v, tail, |a.Carry()| + maxBody);
  }

  /** An accepted text is taken with its separators, and nothing after it. */
  lemma {:induction false} AcceptedTakes(maxBody: nat, a: Rx, r: Outcome, b: Rx,
                                         sep: seq<Byte>, v: seq<Byte>, tail: seq<Byte>)
    requires DecodeStep(maxBody, a, r, b) && Spaces(sep) && IsText(v)
    requires a.All() == sep + v + [NEWLINE] + tail && r == Text(v, |sep| + |v|)
    ensures b.All() == [NEWLINE] + tail
  {
    hide Decode, DecodeStep;
    StepFacts(maxBody, a, r, b);
    DecodeText(sep, v, tail, |a.Carry()| + maxBody);
  }

  /** Whatever was read ahead before, a text whose needed bytes fit in one budget is
      accepted and one whose needed bytes exceed two is refused. */
  lemma {:induction false} BudgetDecides(maxBody: nat, a: Rx, r: Outcome, b: Rx,
                                         sep: seq<Byte>, v: seq<Byte>, tail: seq<Byte>)
    requires DecodeStep(maxBody, a, r, b) && Spaces(sep) && IsText(v)
    requires a.All() == sep + v + [NEWLINE] + tail && |a.Carry()| <= maxBody
    ensures Need(sep, v) <= maxBody ==> r == Text(v, |sep| + |v|)
    ensures Need(sep, v) > 2 * maxBody ==> r == TooLarge
  {
    hide DecodeStep;
    AcceptedIff(maxBody, a, r, b, sep, v, tail);
  }

  // --------------------------------------------------------------- whole runs

  /** What the encoder puts on the wire for a sequence of texts. */
  function Lines(texts: seq<seq<Byte>>): seq<Byte> {
    if texts == [] then [] else texts[0] + [NEWLINE] + Lines(texts[1..])
  }

  /** A run: decode after decode, each from where the previous one stood. */
  ghost predicate IsRun(maxBody: nat, rxs: seq<Rx>, rs: seq<Outcome>) {
    && |rxs| == |rs| + 1
    && forall i :: 0 <= i < |rs| ==> StepAt(maxBody, rxs, rs, i)
  }

  ghost predicate StepAt(maxBody: nat, rxs: seq<Rx>, rs: seq<Outcome>, i: nat)
    requires |rxs| == |rs| + 1 && i < |rs|
  {
    DecodeStep(maxBody, rxs[i], rs[i], rxs[i + 1])
  }

  /** Every text, with at most one separator before it, fits in one budget. */
  predicate AllFit(maxBody: nat, texts: seq<seq<Byte>>) {
    forall i :: 0 <= i < |texts| ==> IsText(texts[i]) && Need([NEWLINE], texts[i]) <= maxBody
  }

  lemma {:induction false} LinesFrom(texts: seq<seq<Byte>>, k: nat)
    requires k < |texts|
    ensures Lines(texts[k..]) == texts[k] + [NEWLINE] + Lines(texts[k + 1..])
  {
    assert texts[k..][1..] == texts[k + 1..];
  }

  /** The separator a run meets before its `k`-th text: whatever it started with, and
      from then on the newline the previous text left behind. */
  function SepAt(sep: seq<Byte>, k: nat): seq<Byte> {
    if k == 0 then sep else [NEWLINE]
  }

  /** What a run still has to read before its `k`-th decode. */
  function Ahead(sep: seq<Byte>, texts: seq<seq<Byte>>, tail: seq<Byte>, k: nat): seq<Byte>
    requires k <= |texts|
  {
    SepAt(sep, k) + (Lines(texts[k..]) + tail)
  }

  lemma {:induction false} AheadSplit(sep: seq<Byte>, texts: seq<seq<Byte>>, tail: seq<Byte>, k: nat)
    requires k < |texts|
    ensures Ahead(sep, texts, tail, k) == SepAt(sep, k) + texts[k] + [NEWLINE] + (Lines(texts[k + 1..]) + tail)
    ensures Ahead(sep, texts, tail, k + 1) == [NEWLINE] + (Lines(texts[k + 1..]) + tail)
  {
    LinesFrom(texts, k);
  }

  lemma {:induction false} StepFits(maxBody: nat, a: Rx, r: Outcome, b: Rx,
                 sep: seq<Byte>, texts: seq<seq<Byte>>, tail: seq<Byte>, k: nat)
    requires DecodeStep(maxBody, a, r, b) && AllFit(maxBody, texts) && k < |texts|
    requires Spaces(sep) && |sep| <= 1 && a.All() == Ahead(sep, texts, tail, k)
    ensures r.Text? && r.text == texts[k] && b.All() == Ahead(sep, texts, tail, k + 1)
  {
    hide DecodeStep;
    var v, more := texts[k], Lines(texts[k + 1..]) + tail;
    AheadSplit(sep, texts, tail, k);
    assert Need(SepAt(sep, k), v) <= Need([NEWLINE], v);
    AcceptedIff(maxBody, a, r, b, SepAt(sep, k), v, more);
    AcceptedTakes(maxBody, a, r, b, SepAt(sep, k), v, more);
  }

  /** Texts that each fit in one budget are all recovered, in order, by every run,
      whatever the fragmentation and however far each decode reads ahead. */
  lemma {:induction false} RunRecovers(maxBody: nat, rxs: seq<Rx>, rs: seq<Outcome>,
                                       sep: seq<Byte>, texts: seq<seq<Byte>>, tail: seq<Byte>, k: nat)
    requires IsRun(maxBody, rxs, rs) && |rs| <= |texts| && AllFit(maxBody, texts) && k <= |rs|
    requires Spaces(sep) && |sep| <= 1 && rxs[0].All() == sep + (Lines(texts) + tail)
    ensures forall i :: 0 <= i < k ==> rs[i].Text? && rs[i].text == texts[i]
    ensures rxs[k].All() == Ahead(sep, texts, tail, k)
  {
    hide Decode, DecodeStep;
    if k == 0 {
      assert texts[0..] == texts;
    } else {
      RunRecovers(maxBody, rxs, rs, sep, texts, tail, k - 1);
      assert StepAt(maxBody, rxs, rs, k - 1);
      StepFits(maxBody, rxs[k - 1], rs[k - 1], rxs[k], sep, texts, tail, k - 1);
    }
  }

  lemma {:induction false} RunSnoc(maxBody: nat, rxs: seq<Rx>, rs: seq<Outcome>, a: Rx, r: Outcome, b: Rx)
    requires IsRun(maxBody, rxs, rs) && rxs[|rs|] == a && DecodeStep(maxBody, a, r, b)
    ensures IsRun(maxBody, rxs + [b], rs + [r])
  {
    forall i | 0 <= i < |rs| + 1 ensures StepAt(maxBody, rxs + [b], rs + [r], i) {
      if i < |rs| {
        assert StepAt(maxBody, rxs, rs, i);
      }
    }
  }

  /** Over every run what is read ahead stays within the budget. */
  lemma {:induction false} RunCarryBound(maxBody: nat, rxs: seq<Rx>, rs: seq<Outcome>, k: nat)
    requires IsRun(maxBody, rxs, rs) && k <= |rs| && |rxs[0].Carry()| <= maxBody
    requires forall i :: 0 <= i < k ==> rs[i].Text?
    ensures |rxs[k].Carry()| <= maxBody
    ensures k < |rs| && rs[k].Text? ==> rs[k].len <= 2 * maxBody
  {
    hide DecodeStep;
    if k > 0 {
      RunCarryBound(maxBody, rxs, rs, k - 1);
      assert StepAt(maxBody, rxs, rs, k - 1);
      CarryBound(maxBody, rxs[k - 1], rs[k - 1], rxs[k]);
    }
    if k < |rs| && rs[k].Text? {
      assert StepAt(maxBody, rxs, rs, k);
      CarryBound(maxBody, rxs[k], rs[k], rxs[k + 1]);
    }
  }

  /** If no text of a run from a fresh reader needs more than `n` bytes, nothing beyond what
      the buffer has grown to behind `n` bytes is ever read ahead. */
  lemma {:induction false} RunLookAhead(maxBody: nat, rxs: seq<Rx>, rs: seq<Outcome>, n: nat, k: nat)
    requires IsRun(maxBody, rxs, rs) && k <= |rs| && rxs[0] == Fresh(rxs[0].net)
    requires forall i :: 0 <= i < k ==> rs[i].Text? && Looked(rxs[i].All()) <= n
    ensures rxs[k].rest == [] && rxs[k].Sound() && Room(rxs[k].cap, n) == Room(0, n)
    ensures |rxs[k].Carry()| <= Room(0, n)
  {
    hide DecodeStep, Room, Looked, Rx.All, Rx.Carry;
    if k == 0 {
      FreshHolds(rxs[0].net);
    } else {
      RunLookAhead(maxBody, rxs, rs, n, k - 1);
      assert StepAt(maxBody, rxs, rs, k - 1);
      StepLookAhead(maxBody, rxs[k - 1], rs[k - 1], rxs[k], n);
    }
  }

  lemma {:induction false} FreshHolds(s: seq<Byte>)
    ensures var a := Fresh(s); a.rest == [] && a.Sound() && |a.Carry()| == 0
  {
  }

  lemma {:induction false} StepLookAhead(maxBody: nat, a: Rx, r: Outcome, b: Rx, n: nat)
    requires DecodeStep(maxBody, a, r, b) && r.Text? && Looked(a.All()) <= n
    requires a.rest == [] && a.Sound() && Room(a.cap, n) == Room(0, n) && |a.Carry()| <= Room(0, n)
    ensures b.rest == [] && b.Sound() && Room(b.cap, n) == Room(0, n) && |b.Carry()| <= Room(0, n)
  {
    hide DecodeStep, Decode, Room, Looked;
    StepFacts(maxBody, a, r, b);
    LookAhead(maxBody, a, r, b);
    RoomTwice(a.cap, Max(Looked(a.All()) - 1, 0), n);
    assert b.Carry() == b.buf && a.Carry() == a.buf;
  }

  // ------------------------------------------------ between one budget and more

  function TwoLines(x: seq<Byte>, v: seq<Byte>, tail: seq<Byte>): seq<Byte> {
    x + ([NEWLINE] + (v + ([NEWLINE] + tail)))
  }

  /** Some run over the stream `s` from a fresh reader reports `rs`. */
  ghost predicate CanReport(maxBody: nat, s: seq<Byte>, rs: seq<Outcome>) {
    exists rxs :: IsRun(maxBody, rxs, rs) && rxs[0] == Fresh(s)
  }

  /** The most that a fresh reader may hold when it has read `x`: what its buffer has room for
      behind all that was looked at but the last byte, within the budget. */
  function Most(maxBody: nat, x: seq<Byte>): nat
    requires IsText(x)
  {
    Min(Room(0, Max(Need([], x) - 1, 0)), maxBody)
  }

  lemma {:induction false} FirstLine(maxBody: nat, x: seq<Byte>, v: seq<Byte>, tail: seq<Byte>)
    requires IsText(x) && Need([], x) <= maxBody
    ensures var s := TwoLines(x, v, tail);
            && Decode(s, maxBody) == Text(x, |x|) && s[|x|..] == [NEWLINE] + v + [NEWLINE] + tail
            && Looked(s) == Need([], x) && 0 < Need([], x) <= |x| + 1
            && Completes(s, Need([], x))
  {
    hide Decode, Run, Used, IsText;
    var s, line := TwoLines(x, v, tail), x + [NEWLINE];
    var more := v + ([NEWLINE] + tail);
    assert s == [] + x + [NEWLINE] + more == line + more;
    assert [NEWLINE] + more == [NEWLINE] + v + [NEWLINE] + tail;
    DecodeText([], x, more, maxBody);
    NeedBound([], x);
    TextStops(x);
    StopsExtend(JSON, START, line, more);
    forall m | 0 <= m <= |s| ensures Stops(JSON, START, s[..m]) <==> Need([], x) <= m {
      StopsWindow(JSON, START, s, m);
    }
  }

  lemma {:induction false} TextStops(v: seq<Byte>)
    requires IsText(v)
    ensures v != [] && Stops(JSON, START, v + [NEWLINE])
  {
  }

  /** A fresh reader can come to hold any number of bytes in between. */
  lemma {:induction false} FirstRead(maxBody: nat, x: seq<Byte>, v: seq<Byte>, tail: seq<Byte>, n: nat) returns (b: Rx)
    requires IsText(x) && Need([], x) <= n <= Most(maxBody, x) && n <= |TwoLines(x, v, tail)|
    ensures DecodeStep(maxBody, Fresh(TwoLines(x, v, tail)), Text(x, |x|), b)
    ensures |b.Carry()| == n - |x| && b.Sound() && b.All() == [NEWLINE] + v + [NEWLINE] + tail
  {
    hide Decode, Run, Used, IsText, DecodeStep, Room, Need, Fills, Filled;
    var s := TwoLines(x, v, tail);
    var a := Fresh(s);
    assert a.All() == s;
    FirstLine(maxBody, x, v, tail);
    var cs := CanHold(maxBody, a, Need([], x), n);
    var r;
    r, b := DecodeHolding(maxBody, a, cs, n);
    StepFacts(maxBody, a, r, b);
  }

  lemma {:induction false} RunOfTwo(maxBody: nat, a: Rx, r: Outcome, b: Rx, r': Outcome, c: Rx)
    requires DecodeStep(maxBody, a, r, b) && DecodeStep(maxBody, b, r', c)
    ensures IsRun(maxBody, [a, b, c], [r, r'])
  {
    hide DecodeStep;
    assert StepAt(maxBody, [a, b, c], [r, r'], 0) && StepAt(maxBody, [a, b, c], [r, r'], 1);
  }

  /** With `n` bytes read for the first text, the second is accepted or not accordingly. */
  lemma {:induction false} SecondFollows(maxBody: nat, x: seq<Byte>, v: seq<Byte>, tail: seq<Byte>, n: nat)
    requires IsText(x) && Need([], x) <= n <= Most(maxBody, x) && n <= |TwoLines(x, v, tail)| && IsText(v)
    ensures CanReport(maxBody, TwoLines(x, v, tail),
                      [Text(x, |x|), if Need([NEWLINE], v) <= n - |x| + maxBody then Text(v, 1 + |v|) else TooLarge])
  {
    hide DecodeStep, IsRun, IsText, Need, Most;
    var b := FirstRead(maxBody, x, v, tail, n);
    var r, c := DecodeExists(maxBody, b);
    AcceptedIff(maxBody, b, r, c, [NEWLINE], v, tail);
    RunOfTwo(maxBody, Fresh(TwoLines(x, v, tail)), Text(x, |x|), b, r, c);
  }

  /** In every run that takes the first text, what is held behind it is in between, and
      decides about the second. */
  lemma {:induction false} SecondDecided(maxBody: nat, x: seq<Byte>, v: seq<Byte>, tail: seq<Byte>,
                                         rxs: seq<Rx>, r: Outcome)
    requires IsText(x) && Need([], x) <= maxBody && IsText(v)
    requires IsRun(maxBody, rxs, [Text(x, |x|), r]) && rxs[0] == Fresh(TwoLines(x, v, tail))
    ensures Need([], x) - |x| <= |rxs[1].Carry()| <= Most(maxBody, x) - |x|
    ensures r == if Need([NEWLINE], v) <= |rxs[1].Carry()| + maxBody then Text(v, 1 + |v|) else TooLarge
  {
    hide DecodeStep, IsText, Need, Decode, Looked, Room, Stops;
    var s, rs := TwoLines(x, v, tail), [Text(x, |x|), r];
    assert StepAt(maxBody, rxs, rs, 0) && StepAt(maxBody, rxs, rs, 1);
    var a, b := rxs[0], rxs[1];
    FirstLine(maxBody, x, v, tail);
    assert a.All() == s;
    StepFacts(maxBody, a, rs[0], b);
    LookAhead(maxBody, a, rs[0], b);
    assert |b.All()| == |s| - |x|;
    AcceptedIff(maxBody, b, r, rxs[2], [NEWLINE], v, tail);
  }

  /** Two texts from a fresh reader, the first within the budget: whether the second is taken
      depends on how far the reads for the first happened to go, and exactly so: some run takes
      it if and only if it needs no more than a budget and the most that can be held behind the
      first, and some run refuses it if and only if it needs more than a budget and the least. */
  lemma {:induction false} BetweenItDepends(maxBody: nat, x: seq<Byte>, v: seq<Byte>, tail: seq<Byte>)
    requires IsText(x) && Need([], x) <= maxBody && IsText(v)
    ensures CanReport(maxBody, TwoLines(x, v, tail), [Text(x, |x|), Text(v, 1 + |v|)])
            <==> Need([NEWLINE], v) <= maxBody + (Most(maxBody, x) - |x|)
    ensures CanReport(maxBody, TwoLines(x, v, tail), [Text(x, |x|), TooLarge])
            <==> Need([NEWLINE], v) > maxBody + (Need([], x) - |x|)
  {
    hide StepAt, IsText, Need, Most;
    var s, ok, no := TwoLines(x, v, tail), [Text(x, |x|), Text(v, 1 + |v|)], [Text(x, |x|), TooLarge];
    FirstFits(maxBody, x, v, tail);
    var most := Min(Most(maxBody, x), |s|);
    SecondFollows(maxBody, x, v, tail, most);
    SecondFollows(maxBody, x, v, tail, Need([], x));
    if CanReport(maxBody, s, ok) {
      var rxs :| IsRun(maxBody, rxs, ok) && rxs[0] == Fresh(s);
      SecondDecided(maxBody, x, v, tail, rxs, ok[1]);
    }
    if CanReport(maxBody, s, no) {
      var rxs :| IsRun(maxBody, rxs, no) && rxs[0] == Fresh(s);
      SecondDecided(maxBody, x, v, tail, rxs, no[1]);
    }
  }

  lemma {:induction false} FirstFits(maxBody: nat, x: seq<Byte>, v: seq<Byte>, tail: seq<Byte>)
    requires IsText(x) && Need([], x) <= maxBody && IsText(v)
    ensures var s := TwoLines(x, v, tail);
            Need([], x) <= Min(Most(maxBody, x), |s|) && Need([NEWLINE], v) <= |s| - |x|
  {
    hide IsText;
    NeedBound([], x);
    NeedBound([NEWLINE], v);
  }

  /** With an object of up to 1025 bytes the buffer holds at most 1536, and can hold that. */
  lemma {:induction false} MostBehindSmall(maxBody: nat, x: seq<Byte>)
    requires IsObject(x) && |x| <= 1025
    ensures IsText(x) && Most(maxBody, x) == Min(1536, maxBody)
  {
    NeedOfObject(x);
    var n := |x| - 1;
    assert Room(0, n) == Room(MIN_READ, n) == Room(3 * MIN_READ, n);
  }

  lemma {:induction false} NeedOfObject(x: seq<Byte>)
    requires IsObject(x)
    ensures IsText(x) && Need([], x) == |x| && |x| >= 2
  {
    ObjectIsText(x);
    StopsExtend(JSON, START, x, [NEWLINE]);
    assert Run(JSON, START, x) == Run(JSON, Step(START, x[0]), x[1..]);
  }

  // ------------------------------------------------- the codec over a connection

  /** How the caller takes a body: not at all, or into a value of some type, which may
      turn out not to match the text. */
  datatype Target = Discard | Into(accepts: seq<Byte> -> bool)

  datatype BodyResult = Delivered(text: seq<Byte>) | Discarded | Mismatch | Failed(why: Outcome)

  function Unmarshal(t: Target, r: Outcome): BodyResult {
    if !r.Text? then Failed(r)
    else if t.Discard? then Discarded
    else if t.accepts(r.text) then Delivered(r.text)
    else Mismatch
  }

  /** A text is delivered, dropped or found not to match; what is no text fails as it is. */
  ghost predicate TakenAs(t: Target, r: Outcome, res: BodyResult) {
    && (forall text :: res == Delivered(text) <==> r.Text? && r.text == text && t.Into? && t.accepts(text))
    && (res == Discarded <==> r.Text? && t.Discard?)
    && (res == Mismatch <==> r.Text? && t.Into? && !t.accepts(r.text))
    && (forall why :: res == Failed(why) <==> !r.Text? && r == why)
  }

  lemma {:induction false} UnmarshalTakes(t: Target, r: Outcome)
    ensures TakenAs(t, r, Unmarshal(t, r))
  {
  }

  class Reader {
    const budget: BudgetReader
    const maxBody: nat
    var buf: seq<Byte>              // read by the decoder, not yet taken by a value
    var cap: nat                    // how many bytes the decoder's buffer can hold
    var error: Option<Outcome>      // the decoder's first stream error stays with it

    ghost function State(): Rx
      reads this, budget, budget.conn
    {
      Rx(buf, [], budget.conn.Pending(), cap)
    }

    ghost function Now(): Reading
      reads this, budget, budget.conn
    {
      Reading(State(), budget.left)
    }

    ghost predicate Valid()
      reads this
    {
      maxBody > 0 && |buf| <= cap && (error.None? ==> |buf| <= maxBody) && |buf| <= 2 * maxBody
    }

    constructor (conn: Conn, maxBody: int)
      ensures fresh(budget) && budget.conn == conn && this.maxBody == Limit(maxBody)
      ensures error.None? && State() == Fresh(conn.Pending()) && Valid()
    {
      this.maxBody, this.buf, this.cap, this.error := Limit(maxBody), [], 0, None;
      budget := new BudgetReader(conn, Limit(maxBody));
    }

    /** A decode. */
    method DecodeText() returns (r: Outcome)
      requires Valid() && budget.left == maxBody
      modifies this, budget, budget.conn
      ensures Valid()
      ensures old(error).Some? ==> r == old(error).value && error == old(error) && State() == old(State())
      ensures old(error).None? ==> DecodeStep(maxBody, old(State()), r, State())
      ensures old(error).None? ==> error == if r.Text? then None else Some(r)
    {
      if error.Some? {
        return error.value;
      }
      ghost var a := State();
      ghost var cs := Fill();
      ghost var z := State();
      r := ReportOf(buf, budget.left == 0);
      if r.Text? {
        buf := buf[r.len..];
      } else {
        error := Some(r);
      }
      Held(maxBody, a, cs, z, r);
    }

    method ReadHeader() returns (r: Outcome)
      requires Valid()
      modifies this, budget, budget.conn
      ensures Valid()
      ensures old(error).Some? ==> r == old(error).value && error == old(error) && State() == old(State())
      ensures old(error).None? ==> DecodeStep(maxBody, old(State()), r, State())
      ensures old(error).None? ==> error == if r.Text? then None else Some(r)
    {
      budget.Reset(maxBody);
      r := DecodeText();
    }

    /** The body text is taken in the same way whatever becomes of it: discarded,
        delivered, or found not to match. */
    method ReadBody(t: Target) returns (res: BodyResult, ghost r: Outcome)
      requires Valid()
      modifies this, budget, budget.conn
      ensures Valid() && res == Unmarshal(t, r) && TakenAs(t, r, res)
      ensures old(error).Some? ==> r == old(error).value && error == old(error) && State() == old(State())
      ensures old(error).None? ==> DecodeStep(maxBody, old(State()), r, State())
      ensures old(error).None? ==> error == if r.Text? then None else Some(r)
    {
      budget.Reset(maxBody);
      var out := DecodeText();
      res, r := Unmarshal(t, out), out;
      UnmarshalTakes(t, out);
    }

    /** Reads one text after another until one fails in the stream. */
    method Serve(targets: seq<Target>)
      returns (results: seq<BodyResult>, ghost rxs: seq<Rx>, ghost rs: seq<Outcome>)
      requires Valid() && error.None?
      modifies this, budget, budget.conn
      ensures IsRun(maxBody, rxs, rs) && rxs[0] == old(State()) && rxs[|rs|] == State()
      ensures |results| == |rs| <= |targets|
      ensures forall i :: 0 <= i < |rs| ==>
                results[i] == Unmarshal(targets[i], rs[i]) && TakenAs(targets[i], rs[i], results[i])
      ensures |rs| < |targets| ==> rs != [] && !rs[|rs| - 1].Text?
    {
      hide Decode, DecodeStep, StepAt, Unmarshal, TakenAs, Rx.All;
      results, rxs, rs := [], [State()], [];
      while |results| < |targets| && error.None?
        invariant Valid() && |results| == |rs| <= |targets|
        invariant IsRun(maxBody, rxs, rs) && rxs[0] == old(State()) && rxs[|rs|] == State()
        invariant forall i :: 0 <= i < |rs| ==>
                    results[i] == Unmarshal(targets[i], rs[i]) && TakenAs(targets[i], rs[i], results[i])
        invariant error.Some? ==> rs != [] && !rs[|rs| - 1].Text?
        decreases |targets| - |results|
      {
        ghost var before := State();
        var res, r := ReadBody(targets[|results|]);
        RunSnoc(maxBody, rxs, rs, before, r, State());
        results, rxs, rs := results + [res], rxs + [State()], rs + [r];
      }
    }

    /** One read for the decoder, as large as the free space of its buffer, which is first
        enlarged if there is too little. */
    method More(ghost x: Reading, ghost cs: seq<nat>) returns (stop: bool, ghost cs': seq<nat>)
      requires |buf| <= cap && MayFill(x, cs) && Now() == Filled(x, cs) && !Stops(JSON, START, buf)
      modifies `buf, `cap, budget, budget.conn
      ensures |buf| <= cap && MayFill(x, cs') && Now() == Filled(x, cs')
      ensures stop ==> budget.left == 0 || budget.conn.Pending() == []
      ensures !stop ==> |budget.conn.Pending()| < old(|budget.conn.Pending()|)
    {
      var room := Grown(cap, |buf|);
      var p, tooLarge := budget.Read(room - |buf|);
      stop, cs' := p == [], cs;
      if !stop {
        Pulled(old(Now()), p, budget.conn.Pending(), budget.left);
        FillSnoc(x, cs, |p|);
        buf, cap, cs' := buf + p, room, cs + [|p|];
      }
    }

    /** Reads until the text is complete, the budget is spent or the stream ends. */
    method Fill() returns (ghost cs: seq<nat>)
      requires |buf| <= cap
      modifies `buf, `cap, budget, budget.conn
      ensures |buf| <= cap && Fills(old(Now()), cs) && Now() == Filled(old(Now()), cs)
    {
      ghost var x := Now();
      var stop := false;
      cs := [];
      FillNothing(x, cs);
      while !Stops(JSON, START, buf) && !stop
        invariant |buf| <= cap && MayFill(x, cs) && Now() == Filled(x, cs)
        invariant stop ==> budget.left == 0 || budget.conn.Pending() == []
        decreases !stop, |budget.conn.Pending()|
      {
        stop, cs := More(x, cs);
      }
    }
  }

  /** A read from the connection. */
  lemma {:induction false} Pulled(y: Reading, p: seq<Byte>, net: seq<Byte>, left: nat)
    requires !Stops(JSON, START, y.rx.buf) && y.rx.rest == [] && p != [] && |p| <= Free(y.rx)
    requires y.rx.net == p + net && y.left == left + |p|
    ensures MayRead(y, |p|)
    ensures Read(y, |p|) == Reading(Rx(y.rx.buf + p, [], net, Grown(y.rx.cap, |y.rx.buf|)), left)
  {
    hide Stops;
  }

  /** Taking the text completes the decode; what is held stays within the budget. */
  lemma {:induction false} Held(maxBody: nat, a: Rx, cs: seq<nat>, z: Rx, r: Outcome)
    requires Fills(Reading(a, maxBody), cs) && Filled(Reading(a, maxBody), cs).rx == z
    requires r == Report(Filled(Reading(a, maxBody), cs)) && |a.Carry()| <= maxBody
    ensures DecodeStep(maxBody, a, r, Taken(z, r))
    ensures |z.buf| <= 2 * maxBody && (r.Text? ==> |z.buf| - r.len <= maxBody)
  {
    hide Report, MayFill, Filled, AtRest, Moved;
    var x := Reading(a, maxBody);
    assert DecodeBy(maxBody, a, cs, r, Taken(z, r));
    ReadsMove(x, cs);
    MovedParts(x, |z.buf| - |a.buf|, Filled(x, cs));
    if r.Text? {
      CarryBound(maxBody, a, r, Taken(z, r));
    }
  }
}
