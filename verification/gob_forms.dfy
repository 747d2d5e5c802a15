/** What a gob decoder takes, told without the decoder: messages whose counts and type ids
    may stand in any form, definitions first and then a value; and what makes it refuse. */
module GobForms {
  import opened Automata
  import opened Gob

  /** A message with payload `p`: its length in some form, and the payload. */
  ghost predicate IsMsg(m: seq<Byte>, p: seq<Byte>) {
    |p| < 8 * 1024 * 1024 * 1024 && exists form :: IsUint(form, |p|) && m == form + p
  }

  /** A payload begins with a type id in some form. */
  ghost predicate Says(p: seq<Byte>, id: int, content: seq<Byte>) {
    exists form :: IsUint(form, Zig(id)) && p == form + content
  }

  /** A type a value may be of: a predefined one, or one that was defined. */
  predicate MayUse(known: set<int>, id: int) {
    1 <= id <= 63 || id in known
  }

  /** A type that may be defined: a user's, and not known yet. */
  predicate MayDefine(known: set<int>, id: int) {
    id >= 64 && id !in known
  }

  /** A payload that defines type `d`. */
  ghost predicate SaysNew(p: seq<Byte>, d: int) {
    SaysId(p, -d)
  }

  ghost predicate SaysId(p: seq<Byte>, id: int) {
    exists c :: Says(p, id, c)
  }

  /** One more definition in front of `rest`. */
  ghost predicate Defines(s: seq<Byte>, rest: seq<Byte>, id: int) {
    exists m, p :: m != [] && s == m + rest && IsMsg(m, p) && SaysNew(p, id)
  }

  ghost predicate IsValue(known: set<int>, s: seq<Byte>, known': set<int>, id: int, content: seq<Byte>)
    decreases |s|
  {
    || (known' == known && id >= 0 && MayUse(known, id) && exists p :: IsMsg(s, p) && Says(p, id, content))
    || exists d, rest :: |rest| < |s| && Defines(s, rest, d) && MayDefine(known, d)
                         && IsValue(known + {d}, rest, known', id, content)
  }

  ghost predicate Acceptable(known: set<int>, p: seq<Byte>) {
    exists id, c :: Says(p, id, c) && if id >= 0 then MayUse(known, id) else MayDefine(known, -id)
  }

  /** A count of more than eight bytes, a length beyond all bounds, or a message that is neither
      a value of a known type nor a definition of a new one. */
  ghost predicate IsRefused(known: set<int>, s: seq<Byte>)
    decreases |s|
  {
    || (|s| == 1 && 128 <= s[0] < 248)
    || (exists n: nat :: IsUint(s, n) && n >= 8 * 1024 * 1024 * 1024)
    || (exists p :: IsMsg(s, p) && !Acceptable(known, p))
    || exists d, rest :: |rest| < |s| && Defines(s, rest, d) && MayDefine(known, d) && IsRefused(known + {d}, rest)
  }

  // ------------------------------------------------------------------ one payload

  lemma {:induction false} ZigZag(id: int, u: nat)
    ensures u == Zig(id) <==> id == Zag(u)
  {
  }

  lemma {:induction false} SaysIff(p: seq<Byte>, id: int, content: seq<Byte>)
    ensures Says(p, id, content)
            <==> TakeUint(p).Some? && Zag(TakeUint(p).value.0) == id && p[TakeUint(p).value.1..] == content
  {
    if form :| IsUint(form, Zig(id)) && p == form + content {
      assert p[..|form|] == form && p[|form|..] == content;
      TakeUintIff(p, Zig(id), |form|);
      ZigZag(id, Zig(id));
    }
    if TakeUint(p).Some? {
      var (u, k) := TakeUint(p).value;
      TakeUintIff(p, u, k);
      ZigZag(Zag(u), u);
      assert p == p[..k] + p[k..];
    }
  }

  lemma {:induction false} DeliverTells(known: set<int>, p: seq<Byte>)
    ensures var st := Deliver(known, p);
            && (forall id, content :: st == Value(known, id, content)
                  <==> (id >= 0 && MayUse(known, id) && Says(p, id, content)))
            && (st.Value? ==> st.known == known)
            && (st.Value? || st.Fail? || st.Count?) && (st.Fail? <==> !Acceptable(known, p))
            && (st.Count? <==> exists d :: SaysNew(p, d) && MayDefine(known, d))
            && (st.Count? ==> !st.first && forall d :: SaysNew(p, d) && MayDefine(known, d) ==>
                                                st.known == known + {d})
  {
    hide Zag, TakeUint, Says;
    forall id, content {:trigger Says(p, id, content)}
      ensures Says(p, id, content)
              <==> TakeUint(p).Some? && Zag(TakeUint(p).value.0) == id && p[TakeUint(p).value.1..] == content
    {
      SaysIff(p, id, content);
    }
    if TakeUint(p).Some? {
      var (u, k) := TakeUint(p).value;
      assert Says(p, Zag(u), p[k..]);
      assert -(-Zag(u)) == Zag(u);
      assert SaysId(p, Zag(u)) && SaysNew(p, -Zag(u));
    }
  }

  // ------------------------------------------------------------------ one message

  lemma {:induction false} RunForm(known: set<int>, first: bool, form: seq<Byte>, n: nat)
    requires IsUint(form, n)
    ensures Run(GOB, Count(known, first), form) == Begin(known, n)
    ensures Used(GOB, Count(known, first), form) == |form|
  {
    if |form| == 1 {
      assert form[1..] == [];
    } else {
      RunMore(known, 0, form[1..]);
    }
  }

  lemma {:induction false} RunAnyMsg(known: set<int>, first: bool, m: seq<Byte>, p: seq<Byte>)
    requires IsMsg(m, p)
    ensures Run(GOB, Count(known, first), m) == Deliver(known, p)
    ensures Used(GOB, Count(known, first), m) == |m|
  {
    var form :| IsUint(form, |p|) && m == form + p;
    RunForm(known, first, form, |p|);
    RunSplit(GOB, Count(known, first), form, p);
    if p != [] {
      RunBody(known, [], p);
      assert [] + p == p;
    }
  }

  /** What a decoder that stops somewhere in `s` finds in front. */
  datatype Front = Message(m: seq<Byte>, p: seq<Byte>) | Wrong(bytes: seq<Byte>)

  ghost predicate InFront(s: seq<Byte>, f: Front) {
    match f
    case Message(m, p) => m != [] && m <= s && IsMsg(m, p)
    case Wrong(b) => b <= s && ((|b| == 1 && 128 <= b[0] < 248) || exists n: nat :: IsUint(b, n) && n >= TOO_BIG)
  }

  lemma {:induction false} FindFront(known: set<int>, first: bool, s: seq<Byte>) returns (f: Front)
    requires Stops(GOB, Count(known, first), s)
    ensures InFront(s, f)
  {
    hide Run, IsUint;
    var form, n := FindCount(known, first, s);
    if form == [] {
      return Wrong(s[..1]);
    }
    var rest := s[|form|..];
    assert s == form + rest;
    if n >= TOO_BIG {
      return Wrong(form);
    }
    RunForm(known, first, form, n);
    RunSplit(GOB, Count(known, first), form, rest);
    BodyComes(known, n, rest);
    var p := rest[..n];
    assert form + p <= s by {
      assert (form + p) + rest[n..] == s;
    }
    return Message(form + p, p);
  }

  /** The count in front; none if its first byte is wrong. */
  lemma {:induction false} FindCount(known: set<int>, first: bool, s: seq<Byte>) returns (form: seq<Byte>, n: nat)
    requires Stops(GOB, Count(known, first), s)
    ensures s != [] && (form == [] ==> 128 <= s[0] < 248)
    ensures form != [] ==> form <= s && IsUint(form, n)
  {
    if s[0] < 128 {
      form, n := s[..1], s[0];
    } else if 256 - s[0] > 8 {
      form, n := [], 0;
    } else {
      var k := 257 - s[0];
      if |s| < k {
        MoreShort(known, k - 1, 0, s[1..]);
        assert false;
      }
      form := s[..k];
      n := Horner(0, form[1..]);
    }
  }

  lemma {:induction false} BodyComes(known: set<int>, n: nat, rest: seq<Byte>)
    requires n < TOO_BIG && Stops(GOB, Begin(known, n), rest)
    ensures n <= |rest|
  {
    if |rest| < n {
      BodyShort(known, n, [], rest);
      assert false;
    }
  }

  lemma {:induction false} RunWrong(known: set<int>, first: bool, b: seq<Byte>)
    requires (|b| == 1 && 128 <= b[0] < 248) || exists n: nat :: IsUint(b, n) && n >= TOO_BIG
    ensures Run(GOB, Count(known, first), b).Fail? && Used(GOB, Count(known, first), b) == |b|
  {
    if n: nat :| IsUint(b, n) && n >= TOO_BIG {
      RunForm(known, first, b, n);
    } else {
      assert b[1..] == [];
    }
  }

  // ----------------------------------------------------------------- whole values

  /** Stopping with the last byte of `s`. */
  predicate Ends(known: set<int>, first: bool, s: seq<Byte>) {
    Stops(GOB, Count(known, first), s) && Used(GOB, Count(known, first), s) == |s|
  }

  /** Behind a definition the decode goes on as it would from there. */
  lemma {:induction false} PastDefinition(known: set<int>, first: bool, s: seq<Byte>, rest: seq<Byte>, d: int)
    requires Defines(s, rest, d) && MayDefine(known, d)
    ensures Run(GOB, Count(known, first), s) == Run(GOB, Count(known + {d}, false), rest)
    ensures Ends(known, first, s) <==> Ends(known + {d}, false, rest)
  {
    hide Run, Used, Deliver;
    var m, p :| m != [] && s == m + rest && IsMsg(m, p) && SaysNew(p, d);
    RunAnyMsg(known, first, m, p);
    DeliverTells(known, p);
    RunSplit(GOB, Count(known, first), m, rest);
  }

  /** The decoder comes to a value with the last byte of `s` if and only if `s` is definitions
      of new types, one after another, and then a value of a known one, in whatever forms; it
      ends with the types known and defined. */
  lemma {:induction false} ValueIff(known: set<int>, first: bool, s: seq<Byte>, known': set<int>, id: int,
                                    content: seq<Byte>)
    ensures Ends(known, first, s) && Run(GOB, Count(known, first), s) == Value(known', id, content)
            <==> IsValue(known, s, known', id, content)
    decreases |s|
  {
    hide Run, Used, Deliver, Says, IsMsg, Defines;
    if Ends(known, first, s) && Run(GOB, Count(known, first), s) == Value(known', id, content) {
      var f := FindFront(known, first, s);
      EndsBehind(known, first, s, f);
      if f.m == s {
        RunAnyMsg(known, first, s, f.p);
        DeliverTells(known, f.p);
      } else {
        var d, rest := DefinitionOf(known, first, s, f);
        PastDefinition(known, first, s, rest, d);
        ValueIff(known + {d}, false, rest, known', id, content);
      }
    }
    if IsValue(known, s, known', id, content) {
      if p :| known' == known && id >= 0 && MayUse(known, id) && IsMsg(s, p) && Says(p, id, content) {
        RunAnyMsg(known, first, s, p);
        DeliverTells(known, p);
      } else {
        var d, rest :| |rest| < |s| && Defines(s, rest, d) && MayDefine(known, d)
                       && IsValue(known + {d}, rest, known', id, content);
        PastDefinition(known, first, s, rest, d);
        ValueIff(known + {d}, false, rest, known', id, content);
      }
    }
  }

  /** A message in front of more bytes that end the decode is a definition. */
  lemma {:induction false} DefinitionOf(known: set<int>, first: bool, s: seq<Byte>, f: Front)
    returns (d: int, rest: seq<Byte>)
    requires Ends(known, first, s) && InFront(s, f) && f.Message? && f.m != s
    ensures |rest| < |s| && Defines(s, rest, d) && MayDefine(known, d)
  {
    hide Run, Used, Deliver, Says, IsMsg;
    rest := s[|f.m|..];
    assert s == f.m + rest;
    RunAnyMsg(known, first, f.m, f.p);
    RunSplit(GOB, Count(known, first), f.m, rest);
    DeliverTells(known, f.p);
    if Stopped(Deliver(known, f.p)) {
      StoppedUses(Deliver(known, f.p), rest);
      assert false;
    }
    d :| SaysNew(f.p, d) && MayDefine(known, d);
  }

  lemma {:induction false} StoppedUses(st: State, s: seq<Byte>)
    requires Stopped(st)
    ensures Used(GOB, st, s) == 0 && Run(GOB, st, s) == st
  {
  }

  /** If what is in front is wrong, that is all. */
  lemma {:induction false} EndsBehind(known: set<int>, first: bool, s: seq<Byte>, f: Front)
    requires Ends(known, first, s) && InFront(s, f)
    ensures f.Wrong? ==> f.bytes == s && Run(GOB, Count(known, first), s).Fail?
  {
    hide Run, Used;
    if f.Wrong? {
      var rest := s[|f.bytes|..];
      assert s == f.bytes + rest;
      RunWrong(known, first, f.bytes);
      RunSplit(GOB, Count(known, first), f.bytes, rest);
      StoppedUses(Run(GOB, Count(known, first), f.bytes), rest);
      assert rest == [];
    }
  }

  /** It refuses with the last byte of `s` if and only if `s` is definitions of new types and
      then something that is none of what it takes. */
  lemma {:induction false} RefusedIff(known: set<int>, first: bool, s: seq<Byte>)
    ensures Ends(known, first, s) && Run(GOB, Count(known, first), s).Fail? <==> IsRefused(known, s)
    decreases |s|
  {
    hide Run, Used, Deliver, Says, IsMsg, Defines, Acceptable;
    if Ends(known, first, s) && Run(GOB, Count(known, first), s).Fail? {
      var f := FindFront(known, first, s);
      EndsBehind(known, first, s, f);
      if f.Message? && f.m == s {
        RunAnyMsg(known, first, s, f.p);
        DeliverTells(known, f.p);
      } else if f.Message? {
        var d, rest := DefinitionOf(known, first, s, f);
        PastDefinition(known, first, s, rest, d);
        RefusedIff(known + {d}, false, rest);
      }
    }
    if IsRefused(known, s) {
      if (|s| == 1 && 128 <= s[0] < 248) || exists n: nat :: IsUint(s, n) && n >= TOO_BIG {
        RunWrong(known, first, s);
      } else if p :| IsMsg(s, p) && !Acceptable(known, p) {
        RunAnyMsg(known, first, s, p);
        DeliverTells(known, p);
      } else {
        var d, rest :| |rest| < |s| && Defines(s, rest, d) && MayDefine(known, d) && IsRefused(known + {d}, rest);
        PastDefinition(known, first, s, rest, d);
        RefusedIff(known + {d}, false, rest);
      }
    }
  }
}
