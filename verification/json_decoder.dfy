/** The JSON decoder as a reader of a stream: a buffer that grows, filled by reads as large
    as its free space, until a text is complete.  What was read beyond the text stays in
    the buffer.  Both v3 JSON codecs read through one; the sealed one builds it anew over
    what is left of its buffer after every body. */
module JsonDecoder {
  import opened Automata
  import opened JsonText

  /** The decoder never asks for less; with less free space it grows its buffer first. */
  const MIN_READ: nat := 512

  /** Where a decoder stands: the bytes in its buffer, those it was built over and has not
      pulled, those the connection has still to give, and the size of the buffer. */
  datatype Rx = Rx(buf: seq<Byte>, rest: seq<Byte>, net: seq<Byte>, cap: nat) {
    function All(): seq<Byte> {
      buf + (rest + net)
    }

    /** What came from the connection and was taken by no value. */
    function Carry(): seq<Byte> {
      buf + rest
    }

    predicate Sound() {
      |buf| <= cap
    }
  }

  function Fresh(net: seq<Byte>): Rx {
    Rx([], [], net, 0)
  }

  /** A decode under way, with `left` of its budget of bytes from the connection. */
  datatype Reading = Reading(rx: Rx, left: nat)

  /** The size of the buffer when it holds `n` bytes and more are to be read. */
  function Grown(cap: nat, n: nat): nat {
    if cap < n + MIN_READ then 2 * cap + MIN_READ else cap
  }

  /** A read asks for all the free space. */
  function Free(a: Rx): int {
    Grown(a.cap, |a.buf|) - |a.buf|
  }

  /** A read may return `k` bytes: of those it was built over as many as there are of those
      asked for, from the connection any part of them. */
  predicate MayRead(x: Reading, k: nat) {
    && !Stops(JSON, START, x.rx.buf) && 0 < k <= Free(x.rx)
    && if x.rx.rest != [] then k == Min(Free(x.rx), |x.rx.rest|) else k <= x.left && k <= |x.rx.net|
  }

  function Read(x: Reading, k: nat): Reading {
    var a, cap := x.rx, Grown(x.rx.cap, |x.rx.buf|);
    if a.rest != [] then
      var j := Min(k, |a.rest|);
      Reading(Rx(a.buf + a.rest[..j], a.rest[j..], a.net, cap), x.left)
    else
      var j := Min(Min(k, |a.net|), x.left);
      Reading(Rx(a.buf + a.net[..j], [], a.net[j..], cap), x.left - j)
  }

  /** Read after read, of the given sizes. */
  function Filled(x: Reading, cs: seq<nat>): Reading {
    if cs == [] then x else Read(Filled(x, cs[..|cs| - 1]), cs[|cs| - 1])
  }

  predicate MayFill(x: Reading, cs: seq<nat>) {
    cs == [] || (MayFill(x, cs[..|cs| - 1]) && MayRead(Filled(x, cs[..|cs| - 1]), cs[|cs| - 1]))
  }

  /** Reading stops when the text is complete, the budget is spent or the stream ends. */
  predicate AtRest(x: Reading) {
    Stops(JSON, START, x.rx.buf) || Spent(x) || x.rx.rest + x.rx.net == []
  }

  predicate Fills(x: Reading, cs: seq<nat>) {
    MayFill(x, cs) && AtRest(Filled(x, cs))
  }

  /** What it then reports with `buf` in hand, the budget spent or not. */
  function ReportOf(buf: seq<Byte>, spent: bool): (r: Outcome)
    ensures r.Text? ==> r.len <= |buf|
  {
    var st := Run(JSON, START, buf);
    UsedBound(JSON, START, buf);
    if st.End? then
      EndTakes(buf);
      var n := Used(JSON, START, buf) - Peeked(st);
      Text(SkipSpaces(buf[..n]), n)
    else if st.Bad? then Syntax
    else if spent then TooLarge
    else if EndsText(st) then Text(SkipSpaces(buf), |buf|)
    else if st == START then Eof
    else Truncated
  }

  predicate Spent(x: Reading) {
    x.rx.rest == [] && x.left == 0
  }

  function Report(x: Reading): (r: Outcome)
    ensures r.Text? ==> r.len <= |x.rx.buf|
  {
    ReportOf(x.rx.buf, Spent(x))
  }

  /** A text is taken from the buffer. */
  function Taken(a: Rx, r: Outcome): Rx {
    if r.Text? && r.len <= |a.buf| then Rx(a.buf[r.len..], a.rest, a.net, a.cap) else a
  }

  /** One decode under a fresh budget, by reads of the given sizes. */
  predicate DecodeBy(maxBody: nat, a: Rx, cs: seq<nat>, r: Outcome, b: Rx) {
    var z := Filled(Reading(a, maxBody), cs);
    Fills(Reading(a, maxBody), cs) && r == Report(z) && b == Taken(z.rx, r)
  }

  ghost predicate DecodeStep(maxBody: nat, a: Rx, r: Outcome, b: Rx) {
    exists cs :: DecodeBy(maxBody, a, cs, r, b)
  }

  // --------------------------------------------------------- what reads amount to

  lemma {:induction false} FillSnoc(x: Reading, cs: seq<nat>, k: nat)
    ensures Filled(x, cs + [k]) == Read(Filled(x, cs), k)
    ensures MayFill(x, cs + [k]) <==> MayFill(x, cs) && MayRead(Filled(x, cs), k)
  {
    assert (cs + [k])[..|cs|] == cs;
  }

  /** `t` bytes on from `x`: those it was built over first, then those of the connection, and
      only the latter are charged. */
  predicate Moved(x: Reading, t: nat, y: Reading) {
    var m := Min(t, |x.rx.rest|);
    && t - m <= |x.rx.net| && t - m <= x.left && y.left == x.left - (t - m)
    && y.rx.rest == x.rx.rest[m..] && y.rx.net == x.rx.net[t - m..]
    && y.rx.buf == x.rx.buf + (x.rx.rest + x.rx.net)[..t]
  }

  lemma {:induction false} MovedMore(x: Reading, t: nat, y: Reading, k: nat)
    requires Moved(x, t, y) && MayRead(y, k)
    ensures Moved(x, t + k, Read(y, k))
  {
    hide MayRead, Read;
    MovedFits(x, t, y, k);
    MovedSource(x, t, y, k);
    MovedBuffer(x, t, y, k);
  }

  lemma {:induction false} MovedSource(x: Reading, t: nat, y: Reading, k: nat)
    requires Moved(x, t, y) && t + k <= |x.rx.rest| + |x.rx.net| && (t < |x.rx.rest| ==> t + k <= |x.rx.rest|)
    requires if y.rx.rest != [] then k <= |y.rx.rest| else k <= |y.rx.net| && k <= y.left
    ensures var m, z := Min(t + k, |x.rx.rest|), Read(y, k);
            && t + k - m <= x.left && z.left == x.left - (t + k - m)
            && z.rx.rest == x.rx.rest[m..] && z.rx.net == x.rx.net[t + k - m..]
  {
    hide Read;
    ReadIs(y, k);
    Advance(x.rx.rest, x.rx.net, t, k);
  }

  lemma {:induction false} MovedBuffer(x: Reading, t: nat, y: Reading, k: nat)
    requires Moved(x, t, y) && t + k <= |x.rx.rest| + |x.rx.net| && (t < |x.rx.rest| ==> t + k <= |x.rx.rest|)
    requires if y.rx.rest != [] then k <= |y.rx.rest| else k <= |y.rx.net| && k <= y.left
    ensures Read(y, k).rx.buf == x.rx.buf + (x.rx.rest + x.rx.net)[..t + k]
  {
    hide Read;
    var src := x.rx.rest + x.rx.net;
    ReadIs(y, k);
    Advance(x.rx.rest, x.rx.net, t, k);
    assert Read(y, k).rx.buf == y.rx.buf + src[t..t + k];
    Append(x.rx.buf, src, t, k);
  }

  lemma {:induction false} Append(front: seq<Byte>, s: seq<Byte>, t: nat, k: nat)
    requires t + k <= |s|
    ensures front + s[..t] + s[t..t + k] == front + s[..t + k]
  {
    assert s[..t + k] == s[..t] + s[t..t + k];
  }

  lemma {:induction false} MovedFits(x: Reading, t: nat, y: Reading, k: nat)
    requires Moved(x, t, y) && MayRead(y, k)
    ensures t + k <= |x.rx.rest| + |x.rx.net| && (t < |x.rx.rest| ==> t + k <= |x.rx.rest|)
    ensures if y.rx.rest != [] then k <= |y.rx.rest| else k <= |y.rx.net| && k <= y.left
  {
    hide Stops, Free, Grown;
  }

  lemma {:induction false} ReadIs(y: Reading, k: nat)
    requires if y.rx.rest != [] then k <= |y.rx.rest| else k <= |y.rx.net| && k <= y.left
    ensures var a, z := y.rx, Read(y, k);
            if a.rest != [] then
              z.rx.buf == a.buf + a.rest[..k] && z.rx.rest == a.rest[k..] && z.rx.net == a.net && z.left == y.left
            else
              z.rx.buf == a.buf + a.net[..k] && z.rx.rest == [] && z.rx.net == a.net[k..] && z.left == y.left - k
  {
    hide Grown;
  }

  lemma {:induction false} MovedNothing(x: Reading)
    ensures Moved(x, 0, x)
  {
  }

  /** However the reads are cut, they amount to taking the bytes in order. */
  lemma {:induction false} ReadsMove(x: Reading, cs: seq<nat>)
    requires MayFill(x, cs)
    ensures |x.rx.buf| <= |Filled(x, cs).rx.buf|
    ensures Moved(x, |Filled(x, cs).rx.buf| - |x.rx.buf|, Filled(x, cs))
  {
    hide Moved, MayRead, Read;
    if cs == [] {
      MovedNothing(x);
    } else {
      var front, k := cs[..|cs| - 1], cs[|cs| - 1];
      ReadsMove(x, front);
      var y := Filled(x, front);
      MovedMore(x, |y.rx.buf| - |x.rx.buf|, y, k);
      ReadLength(y, k);
    }
  }

  lemma {:induction false} ReadLength(y: Reading, k: nat)
    requires MayRead(y, k)
    ensures |y.rx.buf| < |Read(y, k).rx.buf| == |y.rx.buf| + k && |Read(y, k).rx.buf| <= Read(y, k).rx.cap
  {
  }

  lemma {:induction false} MovedAll(x: Reading, t: nat, y: Reading)
    requires Moved(x, t, y)
    ensures y.rx.All() == x.rx.All() && y.rx.buf == x.rx.All()[..|x.rx.buf| + t]
    ensures t <= |x.rx.rest| + |x.rx.net| && |y.rx.buf| == |x.rx.buf| + t
  {
    var src := x.rx.rest + x.rx.net;
    Behind(x.rx.rest, x.rx.net, t);
    assert src[t..] == y.rx.rest + y.rx.net;
    Append(x.rx.buf, src, t, |src| - t);
    assert src[..|src|] == src && src[t..|src|] == src[t..];
  }

  lemma {:induction false} Behind(first: seq<Byte>, second: seq<Byte>, t: nat)
    requires t <= |first| + |second|
    ensures var m := Min(t, |first|); (first + second)[t..] == first[m..] + second[t - m..]
  {
    if t <= |first| {
      assert (first + second)[t..] == first[t..] + second && second[0..] == second;
    } else {
      assert (first + second)[t..] == second[t - |first|..] && first[|first|..] == [];
    }
  }

  // ----------------------------------------------------------- how the buffer grows

  /** The size a buffer of size `cap` has grown to once more is read behind `n` bytes. */
  function Room(cap: nat, n: nat): (c: nat)
    ensures c >= cap && c >= n + MIN_READ
    decreases n + MIN_READ - cap
  {
    if n + MIN_READ <= cap then cap else Room(2 * cap + MIN_READ, n)
  }

  lemma {:induction false} RoomTwice(cap: nat, m: nat, n: nat)
    requires m <= n
    ensures Room(Room(cap, m), n) == Room(cap, n)
    ensures Room(cap, m) <= Room(cap, n)
    decreases n + MIN_READ - cap
  {
    if n + MIN_READ > cap {
      RoomTwice(2 * cap + MIN_READ, m, n);
    }
  }

  lemma {:induction false} GrownIsRoom(cap: nat, n: nat)
    requires n <= cap
    ensures Grown(cap, n) == Room(cap, n)
  {
  }

  /** What a decode holds before its last read is no complete text, and its length alone
      settles how large the buffer is after that read. */
  lemma {:induction false} LastRead(x: Reading, cs: seq<nat>)
    requires MayFill(x, cs) && cs != [] && x.rx.Sound()
    ensures var q, y := Filled(x, cs[..|cs| - 1]).rx.buf, Filled(x, cs).rx;
            && |x.rx.buf| <= |q| < |y.buf| <= y.cap && y.cap == Room(x.rx.cap, |q|)
            && |q| <= |x.rx.All()| && q == x.rx.All()[..|q|] && !Stops(JSON, START, q)
    decreases |cs|, 0
  {
    hide Run, Room, Stops, Moved, MayFill, MayRead, Grown;
    var front, k := cs[..|cs| - 1], cs[|cs| - 1];
    var y := Filled(x, front);
    FillFront(x, cs);
    ReadsMove(x, front);
    MovedAll(x, |y.rx.buf| - |x.rx.buf|, y);
    ReadLength(y, k);
    GrownBehind(x, front);
  }

  /** The same, before the next read. */
  lemma {:induction false} GrownBehind(x: Reading, cs: seq<nat>)
    requires MayFill(x, cs) && x.rx.Sound()
    ensures var y := Filled(x, cs).rx; y.Sound() && Grown(y.cap, |y.buf|) == Room(x.rx.cap, |y.buf|)
    decreases |cs|, 1
  {
    hide Run, Room, Stops, MayFill, Grown;
    var y := Filled(x, cs);
    if cs == [] {
      GrownIsRoom(y.rx.cap, |y.rx.buf|);
    } else {
      LastRead(x, cs);
      GrownIsRoom(y.rx.cap, |y.rx.buf|);
      RoomTwice(x.rx.cap, |Filled(x, cs[..|cs| - 1]).rx.buf|, |y.rx.buf|);
    }
  }

  lemma {:induction false} FillFront(x: Reading, cs: seq<nat>)
    requires MayFill(x, cs) && cs != []
    ensures var front, k := cs[..|cs| - 1], cs[|cs| - 1];
            var y := Filled(x, front);
            && MayFill(x, front) && MayRead(y, k) && Filled(x, cs) == Read(y, k)
            && !Stops(JSON, START, y.rx.buf) && Read(y, k).rx.cap == Grown(y.rx.cap, |y.rx.buf|)
  {
    hide Run, Grown, Free;
  }

  // ---------------------------------------------------------------- one decode

  /** At rest, the report is the outcome for the whole stream. */
  lemma {:induction false} OutcomeFromBuffer(x: Reading)
    requires AtRest(x)
    ensures Report(x) == Decode(x.rx.All(), |x.rx.buf| + |x.rx.rest| + x.left)
  {
    var buf, all, cap := x.rx.buf, x.rx.All(), |x.rx.buf| + |x.rx.rest| + x.left;
    assert all[..|buf|] == buf == buf[..Min(|buf|, cap)];
    if Stops(JSON, START, buf) {
      DecodeWindow(all, cap, |buf|);
    } else if Spent(x) {
      assert all[..Min(|all|, cap)] == buf;
    } else {
      assert all == buf == all[..Min(|all|, cap)];
    }
  }

  /** What one decode reports is settled by the bytes held and still to come; it takes a text
      and nothing else; the budget bounds what it reads, and it reads from the connection
      only what the bytes already held do not complete. */
  lemma {:induction false} StepFacts(maxBody: nat, a: Rx, r: Outcome, b: Rx)
    requires DecodeStep(maxBody, a, r, b)
    ensures r == Decode(a.All(), |a.Carry()| + maxBody)
    ensures r.Text? ==> r.len <= |a.All()|
    ensures b.All() == if r.Text? then a.All()[r.len..] else a.All()
    ensures |b.rest| <= |a.rest| && 0 <= |a.net| - |b.net| <= maxBody
    ensures |b.net| < |a.net| ==> b.rest == [] && (r.Text? ==> r.len >= |a.Carry()|)
    ensures a.Sound() ==> b.Sound()
  {
    hide Run, Report, Decode, MayFill, Filled, Moved, AtRest;
    var x := Reading(a, maxBody);
    var cs :| DecodeBy(maxBody, a, cs, r, b);
    var z := Filled(x, cs);
    ReadsMove(x, cs);
    MovedParts(x, |z.rx.buf| - |a.buf|, z);
    OutcomeFromBuffer(z);
    TakenAll(z.rx, r);
    if |b.net| < |a.net| && r.Text? {
      NetCovers(x, cs);
    }
    if a.Sound() && cs != [] {
      LastRead(x, cs);
    }
    FillNothing(x, cs);
  }

  lemma {:induction false} FillNothing(x: Reading, cs: seq<nat>)
    ensures cs == [] ==> MayFill(x, cs) && Filled(x, cs) == x
  {
  }

  lemma {:induction false} MovedParts(x: Reading, t: nat, y: Reading)
    requires Moved(x, t, y)
    ensures y.rx.All() == x.rx.All() && |y.rx.buf| == |x.rx.buf| + t
    ensures |y.rx.rest| == |x.rx.rest| - Min(t, |x.rx.rest|)
    ensures |y.rx.net| == |x.rx.net| - (t - Min(t, |x.rx.rest|)) && y.left == x.left - (t - Min(t, |x.rx.rest|))
  {
    MovedAll(x, t, y);
  }

  lemma {:induction false} TakenAll(a: Rx, r: Outcome)
    requires r.Text? ==> r.len <= |a.buf|
    ensures Taken(a, r).All() == if r.Text? then a.All()[r.len..] else a.All()
    ensures |Taken(a, r).buf| <= |a.buf|
    ensures Taken(a, r).rest == a.rest && Taken(a, r).net == a.net && Taken(a, r).cap == a.cap
  {
  }

  /** Once the connection was read, the text covers everything that was held before. */
  lemma {:induction false} NetCovers(x: Reading, cs: seq<nat>)
    requires Fills(x, cs) && |Filled(x, cs).rx.net| < |x.rx.net| && Report(Filled(x, cs)).Text?
    ensures Report(Filled(x, cs)).len >= |x.rx.Carry()|
  {
    hide Run, Report, Decode, Moved;
    if cs != [] {
      var z := Filled(x, cs);
      var k := HeldIncomplete(x, cs);
      ReadsMove(x, cs);
      MovedParts(x, |z.rx.buf| - |x.rx.buf|, z);
      OutcomeFromBuffer(z);
      TextCovers(x.rx.All(), |x.rx.buf| + |x.rx.rest| + x.left, k);
    }
  }

  /** Some read was made with all of that in the buffer and no text complete. */
  lemma {:induction false} HeldIncomplete(x: Reading, cs: seq<nat>) returns (k: nat)
    requires MayFill(x, cs) && |Filled(x, cs).rx.net| < |x.rx.net|
    ensures |x.rx.Carry()| <= k <= |x.rx.Carry()| + x.left && k <= |x.rx.All()|
    ensures !Stops(JSON, START, x.rx.All()[..k])
  {
    hide Run, Stops, Moved, Free, Grown;
    var front := cs[..|cs| - 1];
    var y := Filled(x, front);
    ReadsMove(x, front);
    MovedParts(x, |y.rx.buf| - |x.rx.buf|, y);
    MovedAll(x, |y.rx.buf| - |x.rx.buf|, y);
    if |y.rx.net| < |x.rx.net| {
      k := HeldIncomplete(x, front);
    } else {
      k := |y.rx.buf|;
    }
  }

  /** The bytes the scanner looks at to find a text complete, or all there are. */
  function Looked(s: seq<Byte>): nat {
    Used(JSON, START, s)
  }

  /** How far a decode can have read ahead of the text it took: at least to the byte that ends
      it, at most as far as the buffer has grown for reading behind an incomplete text. */
  lemma {:induction false} LookAhead(maxBody: nat, a: Rx, r: Outcome, b: Rx)
    requires DecodeStep(maxBody, a, r, b) && r.Text? && a.Sound()
    ensures var most := Room(a.cap, Max(Looked(a.All()) - 1, 0));
            && Looked(a.All()) <= r.len + |b.buf| <= Max(|a.buf|, most)
            && (b.cap == a.cap || b.cap <= most)
    ensures forall n: nat :: n >= Looked(a.All()) - 1 ==> Room(b.cap, n) == Room(a.cap, n)
  {
    hide Run, Used, Report, MayFill, Filled, Moved, AtRest, Room;
    var x := Reading(a, maxBody);
    var cs :| DecodeBy(maxBody, a, cs, r, b);
    var z := Filled(x, cs);
    FillNothing(x, cs);
    ReadsMove(x, cs);
    MovedAll(x, |z.rx.buf| - |a.buf|, z);
    TextLooked(z);
    if cs != [] {
      LastRead(x, cs);
      var q := Filled(x, cs[..|cs| - 1]).rx.buf;
      IncompleteUsed(a.All(), |q|);
      RoomTwice(a.cap, |q|, Looked(a.All()) - 1);
      forall n: nat | n >= Looked(a.All()) - 1 ensures Room(b.cap, n) == Room(a.cap, n) {
        RoomTwice(a.cap, |q|, n);
      }
    }
  }

  function Max(a: int, b: int): int {
    if a > b then a else b
  }

  /** A text is reported with all that was looked at in the buffer. */
  lemma {:induction false} TextLooked(z: Reading)
    requires AtRest(z) && Report(z).Text?
    ensures Looked(z.rx.All()) <= |z.rx.buf|
  {
    if Stops(JSON, START, z.rx.buf) {
      StopsExtend(JSON, START, z.rx.buf, z.rx.rest + z.rx.net);
    } else {
      assert z.rx.All() == z.rx.buf;
      UsedBound(JSON, START, z.rx.buf);
    }
  }

  lemma {:induction false} IncompleteUsed(s: seq<Byte>, k: nat)
    requires k < |s| && !Stops(JSON, START, s[..k])
    ensures k < Looked(s)
  {
    assert s == s[..k] + s[k..];
    RunSplit(JSON, START, s[..k], s[k..]);
    UsedBound(JSON, START, s[..k]);
  }

  // -------------------------------------------------------------- which reads exist

  /** Reading can always go on until it ends. */
  lemma {:induction false} FillsCanEnd(x: Reading, cs: seq<nat>) returns (all: seq<nat>)
    requires MayFill(x, cs) && Filled(x, cs).rx.Sound()
    ensures Fills(x, all)
    decreases |Filled(x, cs).rx.rest| + |Filled(x, cs).rx.net|
  {
    hide MayFill, Filled, Run;
    var y := Filled(x, cs);
    all := cs;
    if !AtRest(y) {
      var k := Min(Free(y.rx), if y.rx.rest != [] then |y.rx.rest| else Min(y.left, |y.rx.net|));
      FillSnoc(x, cs, k);
      ReadLength(y, k);
      all := FillsCanEnd(x, cs + [k]);
    }
  }

  /** Reads can bring the buffer to any length that takes them to the connection and is short of
      a complete text. */
  lemma {:induction false} FillsCanReach(x: Reading, cs: seq<nat>, n: nat) returns (all: seq<nat>)
    requires MayFill(x, cs) && x.rx.Sound() && |x.rx.Carry()| <= n && |Filled(x, cs).rx.buf| <= n
    requires n <= |x.rx.Carry()| + Min(x.left, |x.rx.net|)
    requires forall m :: 0 <= m < n ==> !Stops(JSON, START, x.rx.All()[..m])
    ensures MayFill(x, all) && |Filled(x, all).rx.buf| == n
    decreases n - |Filled(x, cs).rx.buf|
  {
    hide MayFill, Filled, Run, Moved, Room;
    var y := Filled(x, cs);
    all := cs;
    if |y.rx.buf| < n {
      ReadsMove(x, cs);
      MovedParts(x, |y.rx.buf| - |x.rx.buf|, y);
      MovedAll(x, |y.rx.buf| - |x.rx.buf|, y);
      GrownBehind(x, cs);
      var k := if y.rx.rest != [] then Min(Free(y.rx), |y.rx.rest|) else 1;
      FillSnoc(x, cs, k);
      ReadLength(y, k);
      all := FillsCanReach(x, cs + [k], n);
    }
  }

  /** The stream `s` holds a complete text once `u` bytes of it have been seen. */
  predicate Completes(s: seq<Byte>, u: nat) {
    forall m :: 0 <= m <= |s| ==> (Stops(JSON, START, s[..m]) <==> u <= m)
  }

  /** Where the first text is complete with `u` bytes, which are not all held, the buffer may
      come to hold any `n` bytes from that on, as far as it has grown behind the last but one of
      them. */
  lemma {:induction false} CanHold(maxBody: nat, a: Rx, u: nat, n: nat) returns (cs: seq<nat>)
    requires a.Sound() && |a.Carry()| < u <= n <= Room(a.cap, u - 1)
    requires n <= |a.Carry()| + Min(maxBody, |a.net|) && Completes(a.All(), u)
    ensures var x := Reading(a, maxBody);
            Fills(x, cs) && |Filled(x, cs).rx.buf| == n && Filled(x, cs).rx.rest == []
  {
    hide MayFill, Filled, Run, Moved, Room;
    var x := Reading(a, maxBody);
    FillNothing(x, []);
    cs := FillsCanReach(x, [], u - 1);
    var y := Filled(x, cs);
    ReadsMove(x, cs);
    MovedParts(x, u - 1 - |a.buf|, y);
    MovedAll(x, u - 1 - |a.buf|, y);
    GrownBehind(x, cs);
    var k := n - (u - 1);
    FillSnoc(x, cs, k);
    ReadLength(y, k);
    cs := cs + [k];
    ReadsMove(x, cs);
    MovedParts(x, n - |a.buf|, Filled(x, cs));
    MovedAll(x, n - |a.buf|, Filled(x, cs));
  }

  /** What a decode that holds `n` bytes at its end reports and leaves. */
  lemma {:induction false} DecodeHolding(maxBody: nat, a: Rx, cs: seq<nat>, n: nat) returns (r: Outcome, b: Rx)
    requires Fills(Reading(a, maxBody), cs) && |Filled(Reading(a, maxBody), cs).rx.buf| == n
    requires Filled(Reading(a, maxBody), cs).rx.rest == []
    ensures DecodeStep(maxBody, a, r, b) && b.rest == []
    ensures r.Text? ==> r.len <= n && |b.buf| == n - r.len
  {
    hide Run, Stops, Report, MayFill, Filled, AtRest;
    var z := Filled(Reading(a, maxBody), cs);
    r, b := Report(z), Taken(z.rx, Report(z));
    assert DecodeBy(maxBody, a, cs, r, b);
  }

  /** The connection is not read for a text that is held. */
  lemma {:induction false} NetUntouched(maxBody: nat, a: Rx, r: Outcome, b: Rx, u: nat)
    requires DecodeStep(maxBody, a, r, b) && Completes(a.All(), u) && u <= |a.Carry()|
    ensures b.net == a.net
  {
    hide Run, Stops, Report, MayFill, Filled, AtRest, Moved;
    var x := Reading(a, maxBody);
    var cs :| DecodeBy(maxBody, a, cs, r, b);
    var z := Filled(x, cs);
    ReadsMove(x, cs);
    MovedParts(x, |z.rx.buf| - |a.buf|, z);
    if |z.rx.net| < |a.net| {
      var k := HeldIncomplete(x, cs);
    }
    MovedNet(x, |z.rx.buf| - |a.buf|, z);
  }

  lemma {:induction false} MovedNet(x: Reading, t: nat, y: Reading)
    requires Moved(x, t, y) && |y.rx.net| == |x.rx.net|
    ensures y.rx.net == x.rx.net
  {
  }

  /** A decode can always be made. */
  lemma {:induction false} DecodeExists(maxBody: nat, a: Rx) returns (r: Outcome, b: Rx)
    requires a.Sound()
    ensures DecodeStep(maxBody, a, r, b)
  {
    hide MayFill, Filled;
    var x := Reading(a, maxBody);
    FillNothing(x, []);
    var cs := FillsCanEnd(x, []);
    r := Report(Filled(x, cs));
    b := Taken(Filled(x, cs).rx, r);
    assert DecodeBy(maxBody, a, cs, r, b);
  }

  // ------------------------------------------------- a decoder built over some bytes

  /** The first size of the buffer, from `cap` on, that holds `n` bytes. */
  function Size(cap: nat, n: nat): (c: nat)
    ensures c >= cap && c >= n
    decreases n - cap
  {
    if n <= cap then cap else Size(2 * cap + MIN_READ, n)
  }

  /** A decoder with nothing in its buffer pulls what it was built over in full reads. */
  lemma {:induction false} FullReads(x: Reading, cs: seq<nat>, u: nat)
    requires MayFill(x, cs) && x.rx.buf == [] && x.rx.cap == 0 && Completes(x.rx.All(), u)
    ensures var y := Filled(x, cs).rx;
            if y.rest != [] then |y.buf| == y.cap && Size(y.cap, u) == Size(0, u)
            else |x.rx.rest| <= Size(0, u)
  {
    hide Run, Stops, Size, Moved, MayRead, Read;
    if cs == [] {
      SizeHolds(0, u);
    } else {
      var front, k := cs[..|cs| - 1], cs[|cs| - 1];
      var q, y := Filled(x, front), Filled(x, cs);
      FullReads(x, front, u);
      ReadsMove(x, front);
      MovedParts(x, |q.rx.buf|, q);
      MovedAll(x, |q.rx.buf|, q);
      assert |q.rx.buf| < u by {
        StillIncomplete(q, k);
        assert q.rx.buf == x.rx.All()[..|q.rx.buf|];
      }
      FullRead(q, k, u);
      ReadsMove(x, cs);
      MovedParts(x, |y.rx.buf|, y);
    }
  }

  lemma {:induction false} SizeHolds(cap: nat, u: nat)
    ensures Size(cap, u) >= cap
  {
  }

  lemma {:induction false} StillIncomplete(q: Reading, k: nat)
    requires MayRead(q, k)
    ensures !Stops(JSON, START, q.rx.buf)
  {
  }

  lemma {:induction false} FullRead(q: Reading, k: nat, u: nat)
    requires MayRead(q, k) && |q.rx.buf| < u
    ensures var y := Read(q, k).rx;
            && (q.rx.rest == [] ==> y.rest == [])
            && (q.rx.rest != [] && |q.rx.buf| == q.rx.cap ==>
                  if y.rest != [] then |y.buf| == y.cap && Size(y.cap, u) == Size(q.rx.cap, u)
                  else |q.rx.buf| + |q.rx.rest| <= Size(q.rx.cap, u))
  {
    hide Stops;
  }

  /** What it has not pulled when it has taken a text: what its buffer had no room for. */
  lemma {:induction false} RestAfter(maxBody: nat, a: Rx, r: Outcome, b: Rx, u: nat)
    requires DecodeStep(maxBody, a, r, b) && r.Text? && a.buf == [] && a.cap == 0
    requires Completes(a.All(), u) && 0 < u <= |a.All()|
    ensures b.rest == a.rest[Min(Size(0, u), |a.rest|)..]
  {
    hide Run, Size, Moved, MayFill, Filled, Report;
    var x := Reading(a, maxBody);
    var cs :| DecodeBy(maxBody, a, cs, r, b);
    var z := Filled(x, cs);
    FullReads(x, cs, u);
    ReadsMove(x, cs);
    MovedAll(x, |z.rx.buf|, z);
    MovedRest(x, |z.rx.buf|, z);
    TextLooked(z);
    assert a.All()[..|a.All()|] == a.All();
    LookedIs(a.All(), u);
    if z.rx.rest != [] {
      SizeReached(z.rx.cap, u);
    }
  }

  lemma {:induction false} SizeReached(cap: nat, u: nat)
    requires u <= cap
    ensures Size(cap, u) == cap
  {
  }

  lemma {:induction false} MovedRest(x: Reading, t: nat, y: Reading)
    requires Moved(x, t, y)
    ensures y.rx.rest == x.rx.rest[Min(t, |x.rx.rest|)..]
  {
  }

  lemma {:induction false} LookedIs(s: seq<Byte>, u: nat)
    requires Completes(s, u) && 0 < u <= |s|
    ensures Looked(s) == u
  {
    assert s[..|s|] == s && Stops(JSON, START, s[..u]) && !Stops(JSON, START, s[..u - 1]);
    StopsWindow(JSON, START, s, u);
    StopsWindow(JSON, START, s, u - 1);
  }

  /** An object is complete with its own bytes. */
  lemma {:induction false} ObjectCompletes(v: seq<Byte>, tail: seq<Byte>)
    requires IsObject(v)
    ensures Completes(v + tail, |v|) && v != []
  {
    hide Run, Used, Step;
    var s := v + tail;
    StopsExtend(JSON, START, v, tail);
    forall m | 0 <= m <= |s| ensures Stops(JSON, START, s[..m]) <==> |v| <= m {
      StopsWindow(JSON, START, s, m);
    }
  }
}
