/** Bytes and byte automata.

    Every framing the transports put on one byte stream (a JSON text, the CRYPT
    prefix, a gob value with its type definitions) is recognised by reading one byte
    at a time until the recogniser stops.  What the codecs need from all of them is
    proved once, here: where a recogniser stops does not depend on how the bytes were
    cut into reads, nor on what follows. */
module Automata {
  type Byte = b: int | 0 <= b < 256

  datatype Option<+T> = None | Some(value: T)

  function Min(a: int, b: int): int {
    if a <= b then a else b
  }

  datatype Automaton<!S> = Automaton(step: (S, Byte) -> S, stopped: S -> bool)

  /** The state after feeding `s`; a stopped recogniser takes no more bytes. */
  function Run<S>(a: Automaton<S>, st: S, s: seq<Byte>): S
    decreases |s|
  {
    if a.stopped(st) || s == [] then st else Run(a, a.step(st, s[0]), s[1..])
  }

  /** How many bytes of `s` are fed before the recogniser stops (all if it does not). */
  function Used<S>(a: Automaton<S>, st: S, s: seq<Byte>): nat
    decreases |s|
  {
    if a.stopped(st) || s == [] then 0 else 1 + Used(a, a.step(st, s[0]), s[1..])
  }

  predicate Stops<S>(a: Automaton<S>, st: S, s: seq<Byte>) {
    a.stopped(Run(a, st, s))
  }

  lemma {:induction false} UsedBound<S>(a: Automaton<S>, st: S, s: seq<Byte>)
    ensures Used(a, st, s) <= |s|
    ensures !Stops(a, st, s) ==> Used(a, st, s) == |s|
    decreases |s|
  {
    if !a.stopped(st) && s != [] {
      UsedBound(a, a.step(st, s[0]), s[1..]);
    }
  }

  /** Feeding in two pieces is feeding the whole: fragmentation does not matter. */
  lemma {:induction false} RunSplit<S>(a: Automaton<S>, st: S, s: seq<Byte>, t: seq<Byte>)
    ensures Run(a, st, s + t) == Run(a, Run(a, st, s), t)
    ensures Used(a, st, s + t) == Used(a, st, s) + Used(a, Run(a, st, s), t)
    decreases |s|
  {
    if s == [] {
      assert s + t == t;
    } else if !a.stopped(st) {
      assert (s + t)[0] == s[0] && (s + t)[1..] == s[1..] + t;
      RunSplit(a, a.step(st, s[0]), s[1..], t);
    }
  }

  /** A recogniser that stops on `s` stops at the same place whatever follows. */
  lemma {:induction false} StopsExtend<S>(a: Automaton<S>, st: S, s: seq<Byte>, t: seq<Byte>)
    requires Stops(a, st, s)
    ensures Run(a, st, s + t) == Run(a, st, s)
    ensures Used(a, st, s + t) == Used(a, st, s) <= |s|
  {
    RunSplit(a, st, s, t);
    UsedBound(a, st, s);
  }

  /** Seen through a window of `k` bytes, a recogniser that stops on `s` has stopped
      exactly when the window holds the bytes it uses. */
  lemma {:induction false} StopsWindow<S>(a: Automaton<S>, st: S, s: seq<Byte>, k: nat)
    requires k <= |s| && Stops(a, st, s)
    ensures Stops(a, st, s[..k]) <==> Used(a, st, s) <= k
    ensures Stops(a, st, s[..k]) ==> Run(a, st, s[..k]) == Run(a, st, s) && Used(a, st, s[..k]) == Used(a, st, s)
  {
    assert s == s[..k] + s[k..];
    RunSplit(a, st, s[..k], s[k..]);
    UsedBound(a, st, s[..k]);
    UsedBound(a, st, s);
  }

  // ------------------------------------------------------ two sources, one behind the other

  /** `k` bytes behind the first `t` of them: of the first source... */
  lemma {:induction false} InFirst(first: seq<Byte>, second: seq<Byte>, t: nat, k: nat)
    requires t + k <= |first|
    ensures first[t..][..k] == (first + second)[t..t + k] && first[t..][k..] == first[t + k..]
  {
  }

  /** ... or of the second. */
  lemma {:induction false} InSecond(first: seq<Byte>, second: seq<Byte>, t: nat, k: nat)
    requires |first| <= t && t + k <= |first| + |second|
    ensures second[t - |first|..][..k] == (first + second)[t..t + k]
    ensures second[t - |first|..][k..] == second[t + k - |first|..] && first[|first|..] == []
  {
  }

  /** Taking `k` more bytes, not across the end of the first source. */
  lemma {:induction false} Advance(first: seq<Byte>, second: seq<Byte>, t: nat, k: nat)
    requires t + k <= |first| + |second| && (t < |first| ==> t + k <= |first|)
    ensures var m, n := Min(t, |first|), Min(t + k, |first|);
            var f, g := first[m..], second[t - m..];
            if f != [] then
              f[..k] == (first + second)[t..t + k] && f[k..] == first[n..] && g == second[t + k - n..]
            else
              g[..k] == (first + second)[t..t + k] && g[k..] == second[t + k - n..] && first[n..] == []
  {
    if t < |first| {
      InFirst(first, second, t, k);
    } else {
      InSecond(first, second, t, k);
    }
  }
}
