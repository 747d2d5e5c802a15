/** Writing a routing table as environment variables, and reading it back. */
module ConfigRender {
  import opened Automata
  import opened Text
  import opened Numerals
  import opened Address
  import opened Config

  predicate Lower(s: string) {
    forall i :: 0 <= i < |s| ==> LowerChar(s[i]) == s[i]
  }

  const TRANSPORT_TAIL := "_transport"
  const SECRET_TAIL := "_secret"

  /** A name whose variable would be read as another service's setting. */
  predicate Reserved(s: string) {
    HasSuffix(s, TRANSPORT_TAIL) || HasSuffix(s, SECRET_TAIL)
  }

  /** A service name as it is registered, that a variable's name can carry. */
  predicate Name(s: string) {
    s != "" && Lower(s) && '=' !in s
  }

  function Line(s: string, suffix: string, value: string): string {
    PREFIX + ToUpper(s) + suffix + "=" + value
  }

  // ---------------------------------------------------------- one line read back

  lemma {:induction false} UpperLower(s: string)
    requires Lower(s)
    ensures ToLower(ToUpper(s)) == s
  {
    assert forall i :: 0 <= i < |s| ==> LowerChar(UpperChar(s[i])) == s[i];
  }

  lemma {:induction false} UpperSuffix(s: string, t: string)
    requires Lower(s) && Lower(t)
    ensures HasSuffix(ToUpper(s), ToUpper(t)) <==> HasSuffix(s, t)
  {
    if |t| <= |s| {
      var a, b := s[|s| - |t|..], t;
      assert ToUpper(s)[|s| - |t|..] == ToUpper(a);
      assert Lower(a);
      UpperLower(a);
      UpperLower(b);
    }
  }

  lemma {:induction false} Tails()
    ensures ToUpper(TRANSPORT_TAIL) == TRANSPORT_SUFFIX && ToUpper(SECRET_TAIL) == SECRET_SUFFIX
    ensures Lower(TRANSPORT_TAIL) && Lower(SECRET_TAIL)
  {
  }

  lemma {:induction false} NoEquals(s: string)
    requires '=' !in s
    ensures '=' !in ToUpper(s)
  {
    forall i | 0 <= i < |s| ensures ToUpper(s)[i] != '=' {
      assert s[i] in s;
    }
  }

  lemma {:induction false} ClassifyLine(s: string, suffix: string, value: string)
    requires '=' !in s && '=' !in suffix
    ensures Classify(Line(s, suffix, value)) == ClassifyRest(ToUpper(s) + suffix, value)
  {
    hide IndexOf, ClassifyRest;
    var key := PREFIX + ToUpper(s) + suffix;
    var kv := Line(s, suffix, value);
    NoEquals(s);
    assert kv == key + "=" + value;
    assert kv[..|key|] == key && kv[|key|] == '=' && kv[|key| + 1..] == value;
    IndexOfIs(kv, '=', |key|);
    assert key[..|PREFIX|] == PREFIX && key[|PREFIX|..] == ToUpper(s) + suffix;
  }

  /** A service's address line is read as such exactly when its name is not reserved. */
  lemma {:induction false} AddrLineIff(s: string, value: string)
    requires Name(s)
    ensures Classify(Line(s, "", value)) == Addr(s, value) <==> !Reserved(s)
  {
    ClassifyLine(s, "", value);
    assert ToUpper(s) + "" == ToUpper(s);
    Tails();
    UpperSuffix(s, TRANSPORT_TAIL);
    UpperSuffix(s, SECRET_TAIL);
    UpperLower(s);
    hide ToUpper, ToLower, HasSuffix;
  }

  lemma {:induction false} TransportLine(s: string, value: string)
    requires Name(s)
    ensures Classify(Line(s, TRANSPORT_SUFFIX, value)) == Transport(s, value)
  {
    ClassifyLine(s, TRANSPORT_SUFFIX, value);
    var rest := ToUpper(s) + TRANSPORT_SUFFIX;
    assert rest[|s|..] == TRANSPORT_SUFFIX && rest[..|s|] == ToUpper(s);
    UpperLower(s);
  }

  lemma {:induction false} SecretLine(s: string, value: string)
    requires Name(s)
    ensures Classify(Line(s, SECRET_SUFFIX, value)) == Secret(s, value)
  {
    ClassifyLine(s, SECRET_SUFFIX, value);
    var rest := ToUpper(s) + SECRET_SUFFIX;
    assert rest[|s|..] == SECRET_SUFFIX && rest[..|s|] == ToUpper(s);
    assert rest[|rest| - 1] == 'T' && rest[|rest| - 2] == 'E';
    UpperLower(s);
  }

  // -------------------------------------------------------------- a whole table

  predicate TargetOk(s: string, t: Target) {
    Name(s) && !Reserved(s) && PlainHost(t.addr) && 1 <= t.port <= 65535
  }

  predicate TableOk(targets: map<string, Target>) {
    forall s :: s in targets ==> TargetOk(s, targets[s])
  }

  /** The item a line of a service stands for, and the line. */
  predicate Says(s: string, t: Target, item: Item, x: string)
    requires TargetOk(s, t)
  {
    || (item == Addr(s, JoinHostPort(t.addr, t.port)) && x == Line(s, "", JoinHostPort(t.addr, t.port)))
    || (t.transport != "" && item == Transport(s, t.transport) && x == Line(s, TRANSPORT_SUFFIX, t.transport))
    || (t.secret != [] && item == Secret(s, HexEncode(t.secret)) && x == Line(s, SECRET_SUFFIX, HexEncode(t.secret)))
  }

  ghost predicate IsLineOf(targets: map<string, Target>, x: string)
    requires TableOk(targets)
  {
    exists s, item :: s in targets && Says(s, targets[s], item, x)
  }

  /** `env` holds the table's variables, in any order, among variables of other kinds. */
  ghost predicate Renders(targets: map<string, Target>, env: seq<string>)
    requires TableOk(targets)
  {
    && (forall s, item, x :: s in targets && Says(s, targets[s], item, x) ==> x in env)
    && (forall i :: 0 <= i < |env| ==> Classify(env[i]) == Ignored || IsLineOf(targets, env[i]))
  }

  lemma {:induction false} SaysItem(s: string, t: Target, item: Item, x: string)
    requires TargetOk(s, t) && Says(s, t, item, x)
    ensures Classify(x) == item
  {
    hide Classify, Line;
    AddrLineIff(s, JoinHostPort(t.addr, t.port));
    TransportLine(s, t.transport);
    SecretLine(s, HexEncode(t.secret));
  }

  /** What occurs among the variables is what the table says. */
  lemma {:induction false} OccursIff(targets: map<string, Target>, env: seq<string>, item: Item)
    requires TableOk(targets) && Renders(targets, env) && item != Ignored
    ensures Occurs(env, item) <==> exists s, x :: s in targets && Says(s, targets[s], item, x)
  {
    hide Classify, Says, TargetOk;
    if Occurs(env, item) {
      var i :| 0 <= i < |env| && Classify(env[i]) == item;
      var s, item' :| s in targets && Says(s, targets[s], item', env[i]);
      SaysItem(s, targets[s], item', env[i]);
    }
    if s, x :| s in targets && Says(s, targets[s], item, x) {
      SaysItem(s, targets[s], item, x);
      assert x in env;
      var i :| 0 <= i < |env| && env[i] == x;
      assert Classify(env[i]) == item;
    }
  }

  function RawOf(t: Target): Raw {
    Raw(Some(JoinHostPort(t.addr, if t.port < 0 then 0 else t.port)), t.transport, HexEncode(t.secret))
  }

  lemma {:induction false} OccursFor(targets: map<string, Target>, env: seq<string>, s: string, v: string)
    requires TableOk(targets) && Renders(targets, env)
    ensures Occurs(env, Addr(s, v)) <==> s in targets && v == JoinHostPort(targets[s].addr, targets[s].port)
    ensures Occurs(env, Transport(s, v)) <==> s in targets && v == targets[s].transport && v != ""
    ensures Occurs(env, Secret(s, v)) <==> s in targets && v == HexEncode(targets[s].secret) && v != ""
  {
    hide Occurs, Renders, Line, HexEncode;
    OccursIff(targets, env, Addr(s, v));
    OccursIff(targets, env, Transport(s, v));
    OccursIff(targets, env, Secret(s, v));
    if s in targets {
      var t := targets[s];
      assert Says(s, t, Addr(s, JoinHostPort(t.addr, t.port)), Line(s, "", JoinHostPort(t.addr, t.port)));
      assert t.transport != "" ==> Says(s, t, Transport(s, t.transport), Line(s, TRANSPORT_SUFFIX, t.transport));
      HexEmpty(t.secret);
      assert t.secret != [] ==> Says(s, t, Secret(s, HexEncode(t.secret)), Line(s, SECRET_SUFFIX, HexEncode(t.secret)));
    }
  }

  lemma {:induction false} HexEmpty(b: seq<Byte>)
    ensures HexEncode(b) == "" <==> b == []
  {
  }

  lemma {:induction false} NamedIff(targets: map<string, Target>, env: seq<string>, s: string)
    requires TableOk(targets) && Renders(targets, env)
    ensures Named(env, s) <==> s in targets
  {
    hide Classify, Renders;
    if Named(env, s) {
      var i :| 0 <= i < |env| && Names(Classify(env[i]), s);
      var item := Classify(env[i]);
      assert Occurs(env, item);
      OccursFor(targets, env, s, item.value);
    }
    if s in targets {
      var v := JoinHostPort(targets[s].addr, targets[s].port);
      OccursFor(targets, env, s, v);
      var i :| 0 <= i < |env| && Classify(env[i]) == Addr(s, v);
      assert Names(Classify(env[i]), s);
    }
  }

  lemma {:induction false} RenderedReads(targets: map<string, Target>, env: seq<string>, raw: Table, s: string)
    requires TableOk(targets) && Renders(targets, env) && ReadsAt(env, raw, s)
    ensures s in raw <==> s in targets
    ensures s in targets ==> raw[s] == RawOf(targets[s])
  {
    NamedIff(targets, env, s);
    if s in targets {
      hide Occurs, Named, Renders;
      var r := raw[s];
      if r.addr.Some? {
        OccursFor(targets, env, s, r.addr.value);
      } else {
        OccursFor(targets, env, s, JoinHostPort(targets[s].addr, targets[s].port));
      }
      OccursFor(targets, env, s, r.transport);
      OccursFor(targets, env, s, r.secret);
      OccursFor(targets, env, s, targets[s].transport);
      OccursFor(targets, env, s, HexEncode(targets[s].secret));
    }
  }

  lemma {:induction false} TargetBack(s: string, t: Target)
    requires TargetOk(s, t)
    ensures TargetOf(RawOf(t)) == Some(t)
  {
    JoinThenSplit(t.addr, t.port);
    HexRoundTrip(t.secret);
    HexEmpty(t.secret);
    hide SplitHostPortDefault, HexEncode, HexDecode;
  }

  /** Round trip: a table written as variables, in any order and among any other kinds of
      variables, is read back as it was. */
  lemma {:induction false} RoundTrip(targets: map<string, Target>, env: seq<string>, r: Result)
    requires TableOk(targets) && Renders(targets, env) && Parses(env, r)
    ensures r == Loaded(targets)
  {
    UnnamedIff(env);
    OccursIff(targets, env, NoService);
    hide Renders, Occurs, ReadsAt, TargetOf, RawOf, TargetOk;
    var raw := Gather(env).value;
    forall s ensures (s in raw <==> s in targets) && (s in targets ==> TargetOf(raw[s]) == Some(targets[s])) {
      GatherReads(env, s);
      RenderedReads(targets, env, raw, s);
      if s in targets {
        TargetBack(s, targets[s]);
      }
    }
    if r.Loaded? {
      assert r.targets == targets;
    }
  }
}
