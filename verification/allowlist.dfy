/** Which methods the proxy lets through, and where it routes them. */
module Allow {
  import opened Automata
  import opened Text

  // ---------------------------------------------------------------- splitting

  /** The service a method is routed to; None if the method has no service or no name. */
  function SplitMethod(m: string): (r: Option<string>)
    ensures r == Some(m[..IndexOf(m, '.')]) || r == None
    ensures r.Some? <==> 0 < IndexOf(m, '.') < |m| - 1
  {
    var i := IndexOf(m, '.');
    if i == 0 || i == |m| || i == |m| - 1 then None else Some(m[..i])
  }

  // ---------------------------------------------------------------- the entries

  datatype Parsed = Blank | Bad | Exact(entry: string) | Wildcard(service: string)

  /** What one entry of the list stands for. */
  function Parse(raw: string): Parsed {
    var e := TrimSpace(raw);
    var i := IndexOf(e, '.');
    if e == [] then Blank
    else if i == |e| || i == 0 || i == |e| - 1 then Bad
    else if '.' in e[i + 1..] then Bad
    else if e[i + 1..] == "*" then Wildcard(e[..i])
    else Exact(e)
  }

  /** A service and a name, each without dots, around the only dot. */
  predicate TwoParts(e: string, s: string, name: string) {
    e == s + "." + name && s != "" && name != "" && '.' !in s && '.' !in name
  }

  /** The entries refused are those that hold something, but not a service and a name. */
  lemma {:induction false} BadIff(raw: string)
    ensures Parse(raw).Bad? <==> TrimSpace(raw) != "" && !exists s, name :: TwoParts(TrimSpace(raw), s, name)
  {
    hide IndexOf, TrimSpace;
    var e := TrimSpace(raw);
    var i := IndexOf(e, '.');
    if 0 < i < |e| - 1 && '.' !in e[i + 1..] {
      assert TwoParts(e, e[..i], e[i + 1..]);
    }
    if s, name :| TwoParts(e, s, name) {
      assert e[..|s|] == s && e[|s|] == '.' && e[|s| + 1..] == name;
      IndexOfIs(e, '.', |s|);
    }
  }

  const DEFAULT: int := 0
  const DENY_EMPTY: int := 1

  datatype Allowlist = Allowlist(policy: int, exact: set<string>, services: set<string>)

  datatype Built = Ok(list: Allowlist) | BadEntry(raw: string)

  ghost predicate Collects(raws: seq<string>, a: Allowlist) {
    && (forall e :: e in a.exact <==> exists i :: 0 <= i < |raws| && Parse(raws[i]) == Exact(e))
    && (forall s :: s in a.services <==> exists i :: 0 <= i < |raws| && Parse(raws[i]) == Wildcard(s))
  }

  /** The list holds what the entries stand for; the first bad entry is reported. */
  ghost predicate Builds(raws: seq<string>, policy: int, r: Built) {
    match r
    case Ok(a) => a.policy == policy && Collects(raws, a) && forall i :: 0 <= i < |raws| ==> !Parse(raws[i]).Bad?
    case BadEntry(raw) =>
      exists i :: 0 <= i < |raws| && raws[i] == raw && Parse(raw).Bad?
                  && forall j :: 0 <= j < i ==> !Parse(raws[j]).Bad?
  }

  /** Adds what one entry stands for; None if it is bad. */
  method Insert(a: Allowlist, raw: string) returns (r: Option<Allowlist>)
    ensures r.None? <==> Parse(raw).Bad?
    ensures r.Some? ==> r.value == a.(
              exact := a.exact + (if Parse(raw).Exact? then {Parse(raw).entry} else {}),
              services := a.services + (if Parse(raw).Wildcard? then {Parse(raw).service} else {}))
  {
    var entry := TrimSpace(raw);
    if entry == [] {
      return Some(a);
    }
    var i := IndexOf(entry, '.');
    if i == |entry| || i == 0 || i == |entry| - 1 {
      return None;
    }
    var rest := entry[i + 1..];
    if '.' in rest {
      return None;
    }
    if rest == "*" {
      return Some(a.(services := a.services + {entry[..i]}));
    }
    r := Some(a.(exact := a.exact + {entry}));
  }

  method NewAllowlist(raws: seq<string>, policy: int) returns (r: Built)
    ensures Builds(raws, policy, r)
  {
    hide Parse, Collects;
    var a := Allowlist(policy, {}, {});
    CollectsNone(raws[..0], a);
    for n := 0 to |raws|
      invariant a.policy == policy && Collects(raws[..n], a)
      invariant forall i :: 0 <= i < n ==> !Parse(raws[i]).Bad?
    {
      var more := Insert(a, raws[n]);
      if more.None? {
        return BadEntry(raws[n]);
      }
      CollectsOne(raws[..n], raws[n], a, more.value);
      assert raws[..n + 1] == raws[..n] + [raws[n]];
      a := more.value;
    }
    assert raws[..|raws|] == raws;
    r := Ok(a);
  }

  lemma {:induction false} CollectsNone(raws: seq<string>, a: Allowlist)
    requires raws == [] && a.exact == {} && a.services == {}
    ensures Collects(raws, a)
  {
  }

  lemma {:induction false} CollectsOne(raws: seq<string>, raw: string, a: Allowlist, b: Allowlist)
    requires Collects(raws, a) && b.policy == a.policy
    requires b.exact == a.exact + (if Parse(raw).Exact? then {Parse(raw).entry} else {})
    requires b.services == a.services + (if Parse(raw).Wildcard? then {Parse(raw).service} else {})
    ensures Collects(raws + [raw], b)
  {
    hide Parse;
    var more := raws + [raw];
    assert more[|raws|] == raw && forall i :: 0 <= i < |raws| ==> more[i] == raws[i];
    forall e ensures e in b.exact <==> exists i :: 0 <= i < |more| && Parse(more[i]) == Exact(e) {
      if e in a.exact {
        var i :| 0 <= i < |raws| && Parse(raws[i]) == Exact(e);
        assert Parse(more[i]) == Exact(e);
      }
    }
    forall s ensures s in b.services <==> exists i :: 0 <= i < |more| && Parse(more[i]) == Wildcard(s) {
      if s in a.services {
        var i :| 0 <= i < |raws| && Parse(raws[i]) == Wildcard(s);
        assert Parse(more[i]) == Wildcard(s);
      }
    }
  }

  // ------------------------------------------------------------------ decisions

  datatype Decision = Allowed | NotAllowed | UnknownPolicy

  predicate Empty(a: Allowlist) {
    a.exact == {} && a.services == {}
  }

  predicate Allows(a: Allowlist, m: string) {
    m in a.exact || (SplitMethod(m).Some? && SplitMethod(m).value in a.services)
  }

  /** No list at all lets everything through. */
  function Decide(a: Option<Allowlist>, m: string): Decision {
    if a.None? then Allowed
    else if a.value.policy == DEFAULT then
      if Empty(a.value) || Allows(a.value, m) then Allowed else NotAllowed
    else if a.value.policy == DENY_EMPTY then
      if Allows(a.value, m) then Allowed else NotAllowed
    else UnknownPolicy
  }

  /** An entry read directly: the method itself, or any method of the entry's service. */
  ghost predicate Admits(raw: string, m: string) {
    var e := TrimSpace(raw);
    || (e == m && e != [])
    || exists s, name :: NamesMethod(m, s, name) && e == s + ".*"
  }

  predicate NamesMethod(m: string, s: string, name: string) {
    m == s + "." + name && s != "" && name != "" && '.' !in s
  }

  lemma {:induction false} SplitNames(m: string, s: string)
    ensures SplitMethod(m) == Some(s) <==> exists name :: NamesMethod(m, s, name)
  {
    if SplitMethod(m) == Some(s) {
      var name := m[|s| + 1..];
      assert NamesMethod(m, s, name);
    }
    if name :| NamesMethod(m, s, name) {
      assert m[..|s|] == s;
      IndexOfIs(m, '.', |s|);
    }
  }

  lemma {:induction false} EntryAdmits(raw: string, m: string)
    requires !Parse(raw).Bad?
    ensures Admits(raw, m)
            <==> Parse(raw) == Exact(m) || (Parse(raw).Wildcard? && SplitMethod(m) == Some(Parse(raw).service))
  {
    hide IndexOf, TrimSpace, SplitMethod;
    var e := TrimSpace(raw);
    if s, name :| NamesMethod(m, s, name) && e == s + ".*" {
      assert e[..|s|] == s && e[|s| + 1..] == "*";
      IndexOfIs(e, '.', |s|);
      SplitNames(m, s);
    }
    if Parse(raw).Wildcard? {
      var s := Parse(raw).service;
      assert e == s + ".*";
      SplitNames(m, s);
      if e == m {
        assert NamesMethod(m, s, "*");
      }
    }
  }

  /** Under the default policy a method is let through exactly when the list names nothing
      or some entry, read directly, admits it; under the strict one only in the latter
      case; under a policy there is not, never. */
  lemma {:induction false} AllowedIff(raws: seq<string>, a: Allowlist, m: string)
    requires Builds(raws, a.policy, Ok(a))
    ensures a.policy == DEFAULT ==>
              (Decide(Some(a), m) == Allowed
               <==> (forall i :: 0 <= i < |raws| ==> TrimSpace(raws[i]) == "")
                    || exists i :: 0 <= i < |raws| && Admits(raws[i], m))
    ensures a.policy == DENY_EMPTY ==>
              (Decide(Some(a), m) == Allowed <==> exists i :: 0 <= i < |raws| && Admits(raws[i], m))
    ensures a.policy !in {DEFAULT, DENY_EMPTY} ==> Decide(Some(a), m) == UnknownPolicy
  {
    hide Builds, Admits, Allows, Empty;
    EmptyIff(raws, a);
    AllowsIff(raws, a, m);
  }

  /** Whether a method gets past the list, if there is one, told from the entries it was built
      from: the policies are 0, under which a list that names nothing lets everything through,
      and 1. */
  ghost predicate LetsThrough(list: Option<Allowlist>, raws: seq<string>, m: string) {
    list.Some? ==>
      || (list.value.policy == 0 && forall i :: 0 <= i < |raws| ==> TrimSpace(raws[i]) == "")
      || (list.value.policy in {0, 1} && exists i :: 0 <= i < |raws| && Admits(raws[i], m))
  }

  /** A list, if there is one, is built from these entries. */
  ghost predicate BuiltFrom(list: Option<Allowlist>, raws: seq<string>) {
    list.Some? ==> Builds(raws, list.value.policy, Ok(list.value))
  }

  /** Exactly what the decision is. */
  lemma {:induction false} DecideIff(list: Option<Allowlist>, raws: seq<string>, m: string)
    requires BuiltFrom(list, raws)
    ensures Decide(list, m) == Allowed <==> LetsThrough(list, raws, m)
    ensures Decide(list, m) == UnknownPolicy <==> list.Some? && list.value.policy !in {0, 1}
  {
    hide Builds, Admits, Allows, Empty;
    if list.Some? {
      AllowedIff(raws, list.value, m);
      EmptyIff(raws, list.value);
    }
  }

  lemma {:induction false} EmptyIff(raws: seq<string>, a: Allowlist)
    requires Builds(raws, a.policy, Ok(a))
    ensures Empty(a) <==> forall i :: 0 <= i < |raws| ==> TrimSpace(raws[i]) == ""
  {
    forall i | 0 <= i < |raws| ensures Empty(a) ==> Parse(raws[i]).Blank? {
      var p := Parse(raws[i]);
      assert p.Exact? ==> p.entry in a.exact;
      assert p.Wildcard? ==> p.service in a.services;
    }
  }

  lemma {:induction false} AllowsIff(raws: seq<string>, a: Allowlist, m: string)
    requires Builds(raws, a.policy, Ok(a))
    ensures Allows(a, m) <==> exists i :: 0 <= i < |raws| && Admits(raws[i], m)
  {
    hide Parse, Admits, SplitMethod;
    forall i | 0 <= i < |raws| ensures Admits(raws[i], m) ==> Allows(a, m) {
      EntryAdmits(raws[i], m);
    }
    if Allows(a, m) {
      if m in a.exact {
        var i :| 0 <= i < |raws| && Parse(raws[i]) == Exact(m);
        EntryAdmits(raws[i], m);
      } else {
        var i :| 0 <= i < |raws| && Parse(raws[i]) == Wildcard(SplitMethod(m).value);
        EntryAdmits(raws[i], m);
      }
    }
  }

  /** Neither the order of the entries nor their repetition matters. */
  lemma {:induction false} OrderFree(raws: seq<string>, raws': seq<string>, policy: int, a: Allowlist, r: Built)
    requires forall x :: x in raws <==> x in raws'
    requires Builds(raws, policy, Ok(a)) && Builds(raws', policy, r)
    ensures r == Ok(a)
  {
    hide Parse;
    if r.BadEntry? {
      Found(raws, raws', Parse(r.raw));
    } else {
      forall x ensures x in a.exact <==> x in r.list.exact {
        Found(raws, raws', Exact(x));
      }
      forall x ensures x in a.services <==> x in r.list.services {
        Found(raws, raws', Wildcard(x));
      }
    }
  }

  lemma {:induction false} Found(raws: seq<string>, raws': seq<string>, p: Parsed)
    requires forall x :: x in raws <==> x in raws'
    ensures (exists i :: 0 <= i < |raws| && Parse(raws[i]) == p)
            <==> (exists i :: 0 <= i < |raws'| && Parse(raws'[i]) == p)
  {
    hide Parse;
    if i :| 0 <= i < |raws| && Parse(raws[i]) == p {
      assert raws[i] in raws';
      var j :| 0 <= j < |raws'| && raws'[j] == raws[i];
      assert Parse(raws'[j]) == p;
    }
    if i :| 0 <= i < |raws'| && Parse(raws'[i]) == p {
      assert raws'[i] in raws;
      var j :| 0 <= j < |raws| && raws[j] == raws'[i];
      assert Parse(raws[j]) == p;
    }
  }

  // -------------------------------------------------------- allowing and routing

  function ServicePart(raw: string): string {
    var e := TrimSpace(raw);
    e[..IndexOf(e, '.')]
  }

  /** A method that a non-empty list lets through can be routed, and the service it is
      routed to is the service part of some entry. */
  lemma {:induction false} AllowedIsRouted(raws: seq<string>, a: Allowlist, m: string)
    requires Builds(raws, a.policy, Ok(a)) && !Empty(a) && Decide(Some(a), m) == Allowed
    ensures SplitMethod(m).Some?
    ensures exists i :: 0 <= i < |raws| && !Parse(raws[i]).Blank? && ServicePart(raws[i]) == SplitMethod(m).value
  {
    hide Parse, ServicePart, SplitMethod;
    if m in a.exact {
      var i :| 0 <= i < |raws| && Parse(raws[i]) == Exact(m);
      ExactAgain(raws[i], m);
    } else {
      var i :| 0 <= i < |raws| && Parse(raws[i]) == Wildcard(SplitMethod(m).value);
      WildcardAgain(raws[i], SplitMethod(m).value);
    }
  }

  // ------------------------------------------------------------------- listing

  ghost predicate Lists(a: Allowlist, out: seq<string>) {
    forall x :: x in out <==> x in a.exact || exists s :: s in a.services && x == s + ".*"
  }

  method Entries(a: Option<Allowlist>) returns (out: seq<string>)
    ensures a.None? ==> out == []
    ensures a.Some? ==> Lists(a.value, out) && |out| == |a.value.exact| + |a.value.services|
  {
    out := [];
    if a.None? {
      return;
    }
    var todo := a.value.exact;
    while todo != {}
      invariant todo <= a.value.exact && |out| == |a.value.exact| - |todo|
      invariant forall x :: x in out <==> x in a.value.exact - todo
      decreases |todo|
    {
      var e :| e in todo;
      out, todo := out + [e], todo - {e};
    }
    ghost var first := out;
    var rest := a.value.services;
    while rest != {}
      invariant rest <= a.value.services && |out| == |a.value.exact| + |a.value.services| - |rest|
      invariant forall x :: x in out <==>
                    x in a.value.exact || exists s :: s in a.value.services - rest && x == s + ".*"
      decreases |rest|
    {
      var s :| s in rest;
      out, rest := out + [s + ".*"], rest - {s};
    }
  }

  /** A list built again from its own listing, in whatever order it came, is the same. */
  lemma {:induction false} ListingRebuilds(raws: seq<string>, a: Allowlist, out: seq<string>, r: Built)
    requires Builds(raws, a.policy, Ok(a)) && Lists(a, out)
    requires Builds(out, a.policy, r)
    ensures r == Ok(a)
  {
    hide Parse;
    forall i | 0 <= i < |out|
      ensures (Parse(out[i]).Exact? && Parse(out[i]).entry in a.exact)
              || (Parse(out[i]).Wildcard? && Parse(out[i]).service in a.services)
    {
      ListedEntry(raws, a, out, i);
    }
    if r.Ok? {
      forall x | x in a.exact ensures x in r.list.exact {
        ParseAgain(raws, a, x);
        assert x in out;
        var i :| 0 <= i < |out| && out[i] == x;
      }
      forall s | s in a.services ensures s in r.list.services {
        ParseAgainService(raws, a, s);
        assert s + ".*" in out;
        var i :| 0 <= i < |out| && out[i] == s + ".*";
      }
    }
  }

  lemma {:induction false} ListedEntry(raws: seq<string>, a: Allowlist, out: seq<string>, i: nat)
    requires Builds(raws, a.policy, Ok(a)) && Lists(a, out) && i < |out|
    ensures (Parse(out[i]).Exact? && Parse(out[i]).entry in a.exact)
            || (Parse(out[i]).Wildcard? && Parse(out[i]).service in a.services)
  {
    hide Parse;
    assert out[i] in out;
    if out[i] in a.exact {
      ParseAgain(raws, a, out[i]);
    } else {
      var s :| s in a.services && out[i] == s + ".*";
      ParseAgainService(raws, a, s);
    }
  }

  lemma {:induction false} ParseAgain(raws: seq<string>, a: Allowlist, x: string)
    requires Builds(raws, a.policy, Ok(a)) && x in a.exact
    ensures Parse(x) == Exact(x)
  {
    hide Parse;
    var i :| 0 <= i < |raws| && Parse(raws[i]) == Exact(x);
    ExactAgain(raws[i], x);
  }

  lemma {:induction false} ExactAgain(raw: string, x: string)
    requires Parse(raw) == Exact(x)
    ensures Parse(x) == Exact(x)
    ensures SplitMethod(x) == Some(ServicePart(raw))
  {
    hide IndexOf, TrimSpace;
    TrimSpaceTrims(raw);
    TrimSpaceTrims(x);
  }

  lemma {:induction false} ParseAgainService(raws: seq<string>, a: Allowlist, s: string)
    requires Builds(raws, a.policy, Ok(a)) && s in a.services
    ensures Parse(s + ".*") == Wildcard(s)
  {
    hide Parse;
    var i :| 0 <= i < |raws| && Parse(raws[i]) == Wildcard(s);
    WildcardAgain(raws[i], s);
  }

  lemma {:induction false} WildcardAgain(raw: string, s: string)
    requires Parse(raw) == Wildcard(s)
    ensures Parse(s + ".*") == Wildcard(s)
    ensures ServicePart(raw) == s
  {
    hide IndexOf, TrimSpace;
    var e := TrimSpace(raw);
    assert e == s + ".*";
    TrimSpaceTrims(raw);
    TrimSpaceTrims(e);
  }
}
