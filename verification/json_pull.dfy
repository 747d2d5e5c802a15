/** How a gob decoder pulls bytes from a source it cannot read byte by byte: the bytes its
    caller had buffered, then the connection.  The library puts a buffer of its own around
    such a source, and a read fills that buffer, so it may ask for more than the decoder
    wants; what is read beyond the decoder's value is out of everyone's reach. */
module JsonPull {
  import opened Automata
  import Gob
  import V2Crypto

  /** The decoder's state, what is left of the buffered bytes, what the connection has
      still to give, and what is left of the budget. */
  datatype Pulling = Pulling(st: Gob.State, first: seq<Byte>, net: seq<Byte>, left: nat)

  /** What a read asks for, through a buffer of `1 + ahead` bytes. */
  function Ask(ahead: nat, st: Gob.State): (n: nat)
    ensures V2Crypto.Wanted(st) <= n && 1 + ahead <= n
  {
    if V2Crypto.Wanted(st) > 1 + ahead then V2Crypto.Wanted(st) else 1 + ahead
  }

  /** A read may return `k` bytes: from the buffered bytes as many as there are of those
      asked for, from the connection any part of them. */
  predicate MayPull(ahead: nat, x: Pulling, k: nat) {
    && !Gob.Stopped(x.st) && 0 < k <= x.left
    && if x.first != [] then k == Min(Min(Ask(ahead, x.st), x.left), |x.first|)
       else k <= Ask(ahead, x.st) && k <= |x.net|
  }

  function Pull(x: Pulling, k: nat): Pulling {
    if x.first != [] then
      var j := Min(Min(k, |x.first|), x.left);
      Pulling(Run(Gob.GOB, x.st, x.first[..j]), x.first[j..], x.net, x.left - j)
    else
      var j := Min(Min(k, |x.net|), x.left);
      Pulling(Run(Gob.GOB, x.st, x.net[..j]), [], x.net[j..], x.left - j)
  }

  /** Read after read, of the given sizes. */
  function After(x: Pulling, cs: seq<nat>): Pulling {
    if cs == [] then x else Pull(After(x, cs[..|cs| - 1]), cs[|cs| - 1])
  }

  predicate Legal(ahead: nat, x: Pulling, cs: seq<nat>) {
    cs == [] ||
    (Legal(ahead, x, cs[..|cs| - 1]) && MayPull(ahead, After(x, cs[..|cs| - 1]), cs[|cs| - 1]))
  }

  function Sum(cs: seq<nat>): nat {
    if cs == [] then 0 else Sum(cs[..|cs| - 1]) + cs[|cs| - 1]
  }

  lemma {:induction false} Snoc(ahead: nat, x: Pulling, cs: seq<nat>, k: nat)
    ensures After(x, cs + [k]) == Pull(After(x, cs), k) && Sum(cs + [k]) == Sum(cs) + k
    ensures Legal(ahead, x, cs + [k]) <==> Legal(ahead, x, cs) && MayPull(ahead, After(x, cs), k)
  {
    assert (cs + [k])[..|cs|] == cs;
  }

  /** Reading ends with the decoder's value, or with nothing left to read. */
  predicate AtEnd(x: Pulling) {
    Gob.Stopped(x.st) || x.left == 0 || x.first + x.net == []
  }

  // ------------------------------------------------------------ what reads amount to

  /** `y` is where `t` bytes lead from `x`. */
  predicate Took(ahead: nat, x: Pulling, t: nat, y: Pulling) {
    && t <= |x.first + x.net| && t <= x.left && y.left == x.left - t
    && y.first == x.first[Min(t, |x.first|)..] && y.net == x.net[t - Min(t, |x.first|)..]
    && (var s := (x.first + x.net)[..t];
        && y.st == Run(Gob.GOB, x.st, s)
        && Used(Gob.GOB, x.st, s) <= t <= Used(Gob.GOB, x.st, s) + ahead
        && (!Gob.Stopped(y.st) ==> Used(Gob.GOB, x.st, s) == t)
        && (Used(Gob.GOB, x.st, s) <= |x.first| ==> t <= |x.first|))
  }

  /** However the reads are cut, they amount to taking the bytes in order, at most `ahead`
      of them beyond the decoder's value and none of those across the buffered bytes' end. */
  lemma {:induction false} ReadsTake(ahead: nat, x: Pulling, cs: seq<nat>)
    requires Legal(ahead, x, cs)
    ensures Took(ahead, x, Sum(cs), After(x, cs))
  {
    hide Took, MayPull, Pull;
    if cs == [] {
      TookNothing(ahead, x);
    } else {
      var front, k := cs[..|cs| - 1], cs[|cs| - 1];
      ReadsTake(ahead, x, front);
      TookMore(ahead, x, Sum(front), After(x, front), k);
    }
  }

  lemma {:induction false} TookNothing(ahead: nat, x: Pulling)
    ensures Took(ahead, x, 0, x)
  {
    assert x.first[0..] == x.first && x.net[0..] == x.net;
  }

  lemma {:induction false} TookMore(ahead: nat, x: Pulling, t: nat, y: Pulling, k: nat)
    requires Took(ahead, x, t, y) && MayPull(ahead, y, k)
    ensures Took(ahead, x, t + k, Pull(y, k))
  {
    hide MayPull, Run, Used;
    PullTakes(ahead, x, t, y, k);
    var all := x.first + x.net;
    var p := all[t..t + k];
    assert all[..t + k] == all[..t] + p;
    RunSplit(Gob.GOB, x.st, all[..t], p);
    V2Crypto.FeedChunk(y.st, p);
  }

  /** What a read returns is there, and within the budget. */
  lemma {:induction false} PullFits(ahead: nat, x: Pulling, t: nat, y: Pulling, k: nat)
    requires Took(ahead, x, t, y) && MayPull(ahead, y, k)
    ensures t + k <= |x.first| + |x.net| && k <= y.left && k <= Ask(ahead, y.st)
    ensures t < |x.first| ==> t + k <= |x.first|
    ensures k <= if y.first != [] then |y.first| else |y.net|
  {
    hide Run, Used, Ask;
  }

  lemma {:induction false} PullParts(y: Pulling, k: nat)
    requires k <= y.left && k <= if y.first != [] then |y.first| else |y.net|
    ensures var z := Pull(y, k);
            && z.left == y.left - k
            && if y.first != [] then
                 z.first == y.first[k..] && z.net == y.net && z.st == Run(Gob.GOB, y.st, y.first[..k])
               else
                 z.first == [] && z.net == y.net[k..] && z.st == Run(Gob.GOB, y.st, y.net[..k])
  {
    hide Run;
  }

  /** One read takes the next `k` bytes. */
  lemma {:induction false} PullTakes(ahead: nat, x: Pulling, t: nat, y: Pulling, k: nat)
    requires Took(ahead, x, t, y) && MayPull(ahead, y, k)
    ensures t + k <= |x.first + x.net| && k <= y.left && 0 < k <= Ask(ahead, y.st) && !Gob.Stopped(y.st)
    ensures var z := Pull(y, k);
            && z.left == y.left - k
            && z.first == x.first[Min(t + k, |x.first|)..] && z.net == x.net[t + k - Min(t + k, |x.first|)..]
            && z.st == Run(Gob.GOB, y.st, (x.first + x.net)[t..t + k])
    ensures t < |x.first| ==> t + k <= |x.first|
  {
    hide Run, Used, Ask, Pull;
    PullFits(ahead, x, t, y, k);
    PullParts(y, k);
    Advance(x.first, x.net, t, k);
  }
}
