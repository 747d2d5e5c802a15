/** The proxy's routing table, read from environment variables. */
module Config {
  import opened Automata
  import opened Text
  import opened Numerals
  import opened Address

  const PREFIX := "PROXY_TARGET_"
  const TRANSPORT_SUFFIX := "_TRANSPORT"
  const SECRET_SUFFIX := "_SECRET"

  // ------------------------------------------------------------------- letters

  function LowerChar(c: char): char {
    if 'A' <= c <= 'Z' then c - 'A' + 'a' else c
  }

  function UpperChar(c: char): char {
    if 'a' <= c <= 'z' then c - 'a' + 'A' else c
  }

  function ToLower(s: string): string {
    seq(|s|, i requires 0 <= i < |s| => LowerChar(s[i]))
  }

  function ToUpper(s: string): string {
    seq(|s|, i requires 0 <= i < |s| => UpperChar(s[i]))
  }

  predicate HasPrefix(s: string, t: string) {
    |t| <= |s| && s[..|t|] == t
  }

  predicate HasSuffix(s: string, t: string) {
    |t| <= |s| && s[|s| - |t|..] == t
  }

  // ---------------------------------------------------------------- one variable

  /** What one variable says. */
  datatype Item =
    | Ignored
    | NoService
    | Addr(service: string, value: string)
    | Transport(service: string, value: string)
    | Secret(service: string, value: string)

  function Classify(kv: string): Item {
    var eq := IndexOf(kv, '=');
    if eq == |kv| || !HasPrefix(kv[..eq], PREFIX) then Ignored
    else ClassifyRest(kv[..eq][|PREFIX|..], kv[eq + 1..])
  }

  function ClassifyRest(rest: string, value: string): Item {
    if rest == "" then NoService
    else if HasSuffix(rest, TRANSPORT_SUFFIX) then
      var service := ToLower(rest[..|rest| - |TRANSPORT_SUFFIX|]);
      if service == "" then NoService else Transport(service, value)
    else if HasSuffix(rest, SECRET_SUFFIX) then
      var service := ToLower(rest[..|rest| - |SECRET_SUFFIX|]);
      if service == "" then NoService else Secret(service, value)
    else Addr(ToLower(rest), value)
  }

  /** `d` is the lower case of `c`: 32 places on from a capital letter, or unchanged. */
  predicate IsLower(c: char, d: char) {
    if c < 'A' || c > 'Z' then d == c else d as int == c as int + 32
  }

  predicate IsLowerOf(name: string, s: string) {
    |s| == |name| && forall i :: 0 <= i < |s| ==> IsLower(name[i], s[i])
  }

  lemma {:induction false} LowerIff(c: char, d: char)
    ensures LowerChar(c) == d <==> IsLower(c, d)
  {
  }

  lemma {:induction false} ToLowerIff(name: string, s: string)
    ensures ToLower(name) == s <==> IsLowerOf(name, s)
  {
    hide LowerChar, IsLower;
    forall i | 0 <= i < |name| && |s| == |name| ensures ToLower(name)[i] == s[i] <==> IsLower(name[i], s[i]) {
      LowerIff(name[i], s[i]);
    }
    if |s| == |name| && forall i :: 0 <= i < |s| ==> IsLower(name[i], s[i]) {
      assert forall i :: 0 <= i < |s| ==> ToLower(name)[i] == s[i];
    }
  }

  /** A variable of the proxy's: what its name goes on with behind the prefix, and its value. */
  predicate IsVariable(kv: string, rest: string, value: string) {
    '=' !in rest && kv == "PROXY_TARGET_" + rest + "=" + value
  }

  ghost predicate Ours(kv: string) {
    exists rest, value :: IsVariable(kv, rest, value)
  }

  /** What a variable says, told from its text. */
  ghost predicate Means(kv: string, item: Item) {
    match item
    case Ignored => !Ours(kv)
    case NoService => exists rest, value :: IsVariable(kv, rest, value) && rest in {"", "_TRANSPORT", "_SECRET"}
    case Transport(s, v) =>
      exists name :: name != "" && IsVariable(kv, name + "_TRANSPORT", v) && IsLowerOf(name, s)
    case Secret(s, v) =>
      exists name :: name != "" && IsVariable(kv, name + "_SECRET", v) && IsLowerOf(name, s)
    case Addr(s, v) =>
      exists name :: IsVariable(kv, name, v) && IsLowerOf(name, s)
                     && name != "" && !HasSuffix(name, "_TRANSPORT") && !HasSuffix(name, "_SECRET")
  }

  lemma {:induction false} VariableIs(kv: string, rest: string, value: string)
    requires IsVariable(kv, rest, value)
    ensures var eq := IndexOf(kv, '=');
            && eq == |PREFIX| + |rest| < |kv| && HasPrefix(kv[..eq], PREFIX)
            && kv[..eq][|PREFIX|..] == rest && kv[eq + 1..] == value
  {
    var eq := |PREFIX| + |rest|;
    assert kv[..eq] == PREFIX + rest && kv[eq] == '=' && kv[eq + 1..] == value;
    IndexOfIs(kv, '=', eq);
    assert kv[..|PREFIX|] == PREFIX;
  }

  lemma {:induction false} OursIs(kv: string)
    ensures var eq := IndexOf(kv, '=');
            Ours(kv) <==> eq < |kv| && HasPrefix(kv[..eq], PREFIX)
    ensures var eq := IndexOf(kv, '=');
            Ours(kv) ==> IsVariable(kv, kv[..eq][|PREFIX|..], kv[eq + 1..])
  {
    hide IndexOf;
    var eq := IndexOf(kv, '=');
    if eq < |kv| && HasPrefix(kv[..eq], PREFIX) {
      var rest := kv[..eq][|PREFIX|..];
      assert kv[..eq] == PREFIX + rest && kv == kv[..eq] + "=" + kv[eq + 1..];
      assert forall i :: 0 <= i < |rest| ==> rest[i] == kv[..eq][|PREFIX| + i];
      assert IsVariable(kv, rest, kv[eq + 1..]);
    }
    if rest, value :| IsVariable(kv, rest, value) {
      VariableIs(kv, rest, value);
    }
  }

  /** Each variable says exactly that. */
  lemma {:induction false} ClassifyIff(kv: string, item: Item)
    ensures Classify(kv) == item <==> Means(kv, item)
  {
    hide IndexOf, ToLower, IsVariable, HasSuffix, Ours, IsLowerOf;
    var eq := IndexOf(kv, '=');
    OursIs(kv);
    if Ours(kv) {
      var rest, value := kv[..eq][|PREFIX|..], kv[eq + 1..];
      RestSays(rest, value);
      forall r, v | IsVariable(kv, r, v) ensures r == rest && v == value {
        VariableIs(kv, r, v);
      }
      if item.Transport? || item.Secret? || item.Addr? {
        NameSays(kv, rest, value, item);
      }
    } else {
      forall r, v ensures !IsVariable(kv, r, v) {
        NotOurs(kv, r, v);
      }
    }
  }

  lemma {:induction false} NotOurs(kv: string, r: string, v: string)
    ensures IsVariable(kv, r, v) ==> Ours(kv)
  {
  }

  /** The suffix decides, and the name is what is before it. */
  lemma {:induction false} RestSays(rest: string, value: string)
    ensures var item := ClassifyRest(rest, value);
            && !item.Ignored? && (item.NoService? <==> rest in {"", "_TRANSPORT", "_SECRET"})
  {
    LowerLength(rest);
    if HasSuffix(rest, TRANSPORT_SUFFIX) {
      LowerLength(rest[..|rest| - |TRANSPORT_SUFFIX|]);
      SuffixAlone(rest, TRANSPORT_SUFFIX);
    }
    if HasSuffix(rest, SECRET_SUFFIX) {
      LowerLength(rest[..|rest| - |SECRET_SUFFIX|]);
      SuffixAlone(rest, SECRET_SUFFIX);
    }
  }

  lemma {:induction false} LowerLength(s: string)
    ensures ToLower(s) == "" <==> s == ""
  {
    assert |ToLower(s)| == |s|;
  }

  lemma {:induction false} SuffixAlone(s: string, t: string)
    requires HasSuffix(s, t)
    ensures s[..|s| - |t|] == "" <==> s == t
    ensures s == s[..|s| - |t|] + t
  {
  }

  lemma {:induction false} NameSays(kv: string, rest: string, value: string, item: Item)
    requires IsVariable(kv, rest, value) && (item.Transport? || item.Secret? || item.Addr?)
    requires forall r, v :: IsVariable(kv, r, v) ==> r == rest && v == value
    ensures ClassifyRest(rest, value) == item <==> Means(kv, item)
  {
    hide ToLower, IsVariable, IsLowerOf, HasSuffix;
    LowerLength(rest);
    Suffixed(rest, "_TRANSPORT");
    Suffixed(rest, "_SECRET");
    match item
    case Transport(s, v) =>
      forall name | IsVariable(kv, name + "_TRANSPORT", v)
        ensures HasSuffix(rest, "_TRANSPORT") && Before(rest, 10) == name
      {
        SuffixOf(name);
      }
      ToLowerIff(Before(rest, 10), s);
    case Secret(s, v) =>
      forall name | IsVariable(kv, name + "_SECRET", v)
        ensures HasSuffix(rest, "_SECRET") && !HasSuffix(rest, "_TRANSPORT") && Before(rest, 7) == name
      {
        SuffixOf(name);
      }
      ToLowerIff(Before(rest, 7), s);
    case Addr(s, v) => ToLowerIff(rest, s);
  }

  /** All but the last `n` characters. */
  function Before(s: string, n: nat): string {
    if n <= |s| then s[..|s| - n] else ""
  }

  lemma {:induction false} Suffixed(rest: string, t: string)
    ensures HasSuffix(rest, t) ==> |t| <= |rest| && rest[..|rest| - |t|] == Before(rest, |t|)
    ensures HasSuffix(rest, t) ==> rest == Before(rest, |t|) + t
    ensures HasSuffix(rest, t) ==> (ToLower(Before(rest, |t|)) == "" <==> Before(rest, |t|) == "")
  {
    if HasSuffix(rest, t) {
      LowerLength(rest[..|rest| - |t|]);
    }
  }

  lemma {:induction false} SuffixOf(name: string)
    ensures HasSuffix(name + "_TRANSPORT", "_TRANSPORT") && !HasSuffix(name + "_SECRET", "_TRANSPORT")
    ensures HasSuffix(name + "_SECRET", "_SECRET")
    ensures Before(name + "_TRANSPORT", 10) == name && Before(name + "_SECRET", 7) == name
  {
    var s := name + "_SECRET";
    if |s| >= 10 {
      assert s[|s| - 10..][9] == s[|s| - 1] == 'T';
      assert s[|s| - 10..][8] == s[|s| - 2] == 'E' && "_TRANSPORT"[8] == 'R';
    }
  }

  // ------------------------------------------------------------- all variables

  datatype Raw = Raw(addr: Option<string>, transport: string, secret: string)

  type Table = map<string, Raw>

  function EntryOf(raw: Table, service: string): Raw {
    if service in raw then raw[service] else Raw(None, "", "")
  }

  function Put(raw: Table, item: Item): Table {
    match item
    case Addr(s, v) => raw[s := EntryOf(raw, s).(addr := Some(v))]
    case Transport(s, v) => raw[s := EntryOf(raw, s).(transport := v)]
    case Secret(s, v) => raw[s := EntryOf(raw, s).(secret := v)]
    case _ => raw
  }

  /** The last word on each of a service's settings; None if a service is left unnamed. */
  function Gather(env: seq<string>): Option<Table> {
    if env == [] then Some(map[])
    else
      var front, item := Gather(env[..|env| - 1]), Classify(env[|env| - 1]);
      if front.None? || item.NoService? then None else Some(Put(front.value, item))
  }

  datatype Target = Target(addr: string, port: int, secret: seq<Byte>, transport: string)

  function TargetOf(raw: Raw): Option<Target> {
    if raw.addr.None? then None
    else
      match SplitHostPortDefault(raw.addr.value)
      case Failed => None
      case Ok(host, port) =>
        if raw.secret != "" && HexDecode(raw.secret).None? then None
        else Some(Target(host, port, if raw.secret == "" then [] else HexDecode(raw.secret).value, raw.transport))
  }

  /** What a service's settings stand for: an address there is, a secret in hex or none, and
      the transport as it is. */
  ghost predicate MeansTarget(raw: Raw, t: Target) {
    && raw.addr.Some? && StandsFor(raw.addr.value, t.addr, t.port)
    && IsHex(raw.secret, t.secret) && t.transport == raw.transport
  }

  lemma {:induction false} TargetOfIff(raw: Raw, t: Target)
    ensures TargetOf(raw) == Some(t) <==> MeansTarget(raw, t)
  {
    hide SplitHostPortDefault, StandsFor, HexDecode;
    if raw.addr.Some? {
      ParsedIff(raw.addr.value, t.addr, t.port);
    }
    HexIff(raw.secret, t.secret);
    if raw.secret == "" {
      assert HexDecode("") == Some([]) by {
        HexIff("", []);
      }
    }
  }

  datatype Result = Loaded(targets: map<string, Target>) | Unnamed | BadTarget(service: string)

  predicate Assembles(raw: Table, targets: map<string, Target>) {
    targets.Keys == raw.Keys && forall s :: s in raw ==> TargetOf(raw[s]) == Some(targets[s])
  }

  predicate Parses(env: seq<string>, r: Result) {
    match r
    case Unnamed => Gather(env).None?
    case BadTarget(s) => Gather(env).Some? && s in Gather(env).value && TargetOf(Gather(env).value[s]).None?
    case Loaded(targets) => Gather(env).Some? && Assembles(Gather(env).value, targets)
  }

  method ConfigFromEnv(env: seq<string>) returns (r: Result)
    ensures Parses(env, r)
  {
    hide Classify;
    var raw: Table := map[];
    for n := 0 to |env|
      invariant Gather(env[..n]) == Some(raw)
    {
      assert env[..n + 1][..n] == env[..n];
      var item := Classify(env[n]);
      if item.NoService? {
        GatherNone(env, n + 1);
        return Unnamed;
      }
      raw := Put(raw, item);
    }
    assert env[..|env|] == env;
    r := Assemble(raw);
  }

  lemma {:induction false} GatherNone(env: seq<string>, n: nat)
    requires n <= |env| && Gather(env[..n]).None?
    ensures Gather(env).None?
    decreases |env| - n
  {
    if n == |env| {
      assert env[..n] == env;
    } else {
      assert env[..n + 1][..n] == env[..n];
      GatherNone(env, n + 1);
    }
  }

  method Assemble(raw: Table) returns (r: Result)
    ensures r.Loaded? ==> Assembles(raw, r.targets)
    ensures r.BadTarget? ==> r.service in raw && TargetOf(raw[r.service]).None?
    ensures !r.Unnamed?
  {
    var targets: map<string, Target> := map[];
    var todo := raw.Keys;
    while todo != {}
      invariant todo <= raw.Keys && targets.Keys == raw.Keys - todo
      invariant forall s :: s in targets ==> TargetOf(raw[s]) == Some(targets[s])
      decreases |todo|
    {
      var s :| s in todo;
      var t := TargetOf(raw[s]);
      if t.None? {
        return BadTarget(s);
      }
      targets, todo := targets[s := t.value], todo - {s};
    }
    r := Loaded(targets);
  }

  // --------------------------------------------------------- order does not matter

  ghost predicate Occurs(env: seq<string>, item: Item) {
    exists i :: 0 <= i < |env| && Classify(env[i]) == item
  }

  predicate Names(item: Item, s: string) {
    (item.Addr? || item.Transport? || item.Secret?) && item.service == s
  }

  ghost predicate Named(env: seq<string>, s: string) {
    exists i :: 0 <= i < |env| && Names(Classify(env[i]), s)
  }

  ghost predicate AddrAt(env: seq<string>, addr: Option<string>, s: string) {
    match addr
    case Some(v) => Occurs(env, Addr(s, v))
    case None => forall v :: !Occurs(env, Addr(s, v))
  }

  ghost predicate TransportAt(env: seq<string>, transport: string, s: string) {
    Occurs(env, Transport(s, transport)) || (transport == "" && forall v :: !Occurs(env, Transport(s, v)))
  }

  ghost predicate SecretAt(env: seq<string>, secret: string, s: string) {
    Occurs(env, Secret(s, secret)) || (secret == "" && forall v :: !Occurs(env, Secret(s, v)))
  }

  /** A table read off the variables: each setting is some variable's, or unset where no
      variable sets it. */
  ghost predicate ReadsAt(env: seq<string>, raw: Table, s: string) {
    && (s in raw <==> Named(env, s))
    && var r := EntryOf(raw, s);
       AddrAt(env, r.addr, s) && TransportAt(env, r.transport, s) && SecretAt(env, r.secret, s)
  }

  lemma {:induction false} OccursSnoc(env: seq<string>, kv: string, item: Item)
    ensures Occurs(env + [kv], item) <==> Occurs(env, item) || Classify(kv) == item
  {
    hide Classify;
    var more := env + [kv];
    assert more[|env|] == kv && forall i :: 0 <= i < |env| ==> more[i] == env[i];
    if Occurs(env, item) {
      var i :| 0 <= i < |env| && Classify(env[i]) == item;
      assert Classify(more[i]) == item;
    }
  }

  lemma {:induction false} NamedSnoc(env: seq<string>, kv: string, s: string)
    ensures Named(env + [kv], s) <==> Named(env, s) || Names(Classify(kv), s)
  {
    hide Classify, Names;
    var more := env + [kv];
    assert more[|env|] == kv && forall i :: 0 <= i < |env| ==> more[i] == env[i];
    if Named(env, s) {
      var i :| 0 <= i < |env| && Names(Classify(env[i]), s);
      assert Names(Classify(more[i]), s);
    }
  }

  lemma {:induction false} GatherReads(env: seq<string>, s: string)
    requires Gather(env).Some?
    ensures ReadsAt(env, Gather(env).value, s)
  {
    hide Classify;
    if env != [] {
      var front, kv := env[..|env| - 1], env[|env| - 1];
      assert env == front + [kv];
      GatherReads(front, s);
      PutReads(front, Gather(front).value, kv, s);
    }
  }

  lemma {:induction false} PutReads(env: seq<string>, raw: Table, kv: string, s: string)
    requires ReadsAt(env, raw, s) && !Classify(kv).NoService?
    ensures ReadsAt(env + [kv], Put(raw, Classify(kv)), s)
  {
    hide Classify, Occurs, Named, AddrAt, TransportAt, SecretAt;
    var a, b := EntryOf(raw, s), EntryOf(Put(raw, Classify(kv)), s);
    NamedSnoc(env, kv, s);
    AddrSnoc(env, kv, s, a.addr, b.addr);
    TransportSnoc(env, kv, s, a.transport, b.transport);
    SecretSnoc(env, kv, s, a.secret, b.secret);
  }

  lemma {:induction false} AddrSnoc(env: seq<string>, kv: string, s: string, a: Option<string>, b: Option<string>)
    requires AddrAt(env, a, s)
    requires b == if Classify(kv).Addr? && Classify(kv).service == s then Some(Classify(kv).value) else a
    ensures AddrAt(env + [kv], b, s)
  {
    hide Classify, Occurs;
    forall v ensures Occurs(env + [kv], Addr(s, v)) <==> Occurs(env, Addr(s, v)) || Classify(kv) == Addr(s, v) {
      OccursSnoc(env, kv, Addr(s, v));
    }
  }

  lemma {:induction false} TransportSnoc(env: seq<string>, kv: string, s: string, a: string, b: string)
    requires TransportAt(env, a, s)
    requires b == if Classify(kv).Transport? && Classify(kv).service == s then Classify(kv).value else a
    ensures TransportAt(env + [kv], b, s)
  {
    hide Classify, Occurs;
    forall v
      ensures Occurs(env + [kv], Transport(s, v)) <==> Occurs(env, Transport(s, v)) || Classify(kv) == Transport(s, v)
    {
      OccursSnoc(env, kv, Transport(s, v));
    }
  }

  lemma {:induction false} SecretSnoc(env: seq<string>, kv: string, s: string, a: string, b: string)
    requires SecretAt(env, a, s)
    requires b == if Classify(kv).Secret? && Classify(kv).service == s then Classify(kv).value else a
    ensures SecretAt(env + [kv], b, s)
  {
    hide Classify, Occurs;
    forall v ensures Occurs(env + [kv], Secret(s, v)) <==> Occurs(env, Secret(s, v)) || Classify(kv) == Secret(s, v) {
      OccursSnoc(env, kv, Secret(s, v));
    }
  }

  predicate SameSlot(a: Item, b: Item) {
    || (a.Addr? && b.Addr? && a.service == b.service)
    || (a.Transport? && b.Transport? && a.service == b.service)
    || (a.Secret? && b.Secret? && a.service == b.service)
  }

  /** No setting is given twice with different values, whatever the case of its key. */
  ghost predicate Clear(env: seq<string>) {
    forall a, b :: Occurs(env, a) && Occurs(env, b) && SameSlot(a, b) ==> a == b
  }

  predicate SameLines(env: seq<string>, env': seq<string>) {
    (forall x :: x in env ==> x in env') && (forall x :: x in env' ==> x in env)
  }

  lemma {:induction false} OccursSame(env: seq<string>, env': seq<string>, item: Item)
    requires forall x :: x in env ==> x in env'
    ensures Occurs(env, item) ==> Occurs(env', item)
  {
    hide Classify;
    if Occurs(env, item) {
      var i :| 0 <= i < |env| && Classify(env[i]) == item;
      assert env[i] in env';
      var j :| 0 <= j < |env'| && env'[j] == env[i];
      assert Classify(env'[j]) == item;
    }
  }

  lemma {:induction false} NamedSame(env: seq<string>, env': seq<string>, s: string)
    requires forall x :: x in env ==> x in env'
    ensures Named(env, s) ==> Named(env', s)
  {
    hide Classify, Names;
    if Named(env, s) {
      var i :| 0 <= i < |env| && Names(Classify(env[i]), s);
      assert env[i] in env';
      var j :| 0 <= j < |env'| && env'[j] == env[i];
      assert Names(Classify(env'[j]), s);
    }
  }

  lemma {:induction false} UnnamedIff(env: seq<string>)
    ensures Gather(env).None? <==> Occurs(env, NoService)
  {
    hide Classify;
    if env != [] {
      var front, kv := env[..|env| - 1], env[|env| - 1];
      assert env == front + [kv];
      UnnamedIff(front);
      OccursSnoc(front, kv, NoService);
    }
  }

  /** Two tables that read the same clear settings agree. */
  lemma {:induction false} ReadsAgree(env: seq<string>, raw: Table, raw': Table, s: string)
    requires Clear(env) && ReadsAt(env, raw, s) && ReadsAt(env, raw', s)
    ensures s in raw <==> s in raw'
    ensures s in raw ==> raw[s] == raw'[s]
  {
    hide Occurs, Named;
    var a, b := EntryOf(raw, s), EntryOf(raw', s);
    assert a.addr.Some? && b.addr.Some? ==> SameSlot(Addr(s, a.addr.value), Addr(s, b.addr.value));
    assert SameSlot(Transport(s, a.transport), Transport(s, b.transport));
    assert SameSlot(Secret(s, a.secret), Secret(s, b.secret));
  }

  lemma {:induction false} ReadsSame(env: seq<string>, env': seq<string>, raw: Table, s: string)
    requires SameLines(env, env') && ReadsAt(env', raw, s)
    ensures ReadsAt(env, raw, s)
  {
    hide Occurs, Named;
    NamedSame(env, env', s);
    NamedSame(env', env, s);
    forall item ensures Occurs(env, item) <==> Occurs(env', item) {
      OccursSame(env, env', item);
      OccursSame(env', env, item);
    }
  }

  lemma {:induction false} EntriesAgree(env: seq<string>, env': seq<string>, s: string)
    requires SameLines(env, env') && Clear(env) && Gather(env).Some? && Gather(env').Some?
    ensures s in Gather(env).value <==> s in Gather(env').value
    ensures s in Gather(env).value ==> Gather(env).value[s] == Gather(env').value[s]
  {
    hide Gather, SameLines, Clear, ReadsAt;
    GatherReads(env, s);
    GatherReads(env', s);
    ReadsSame(env, env', Gather(env').value, s);
    ReadsAgree(env, Gather(env).value, Gather(env').value, s);
  }

  lemma {:induction false} TablesAgree(env: seq<string>, env': seq<string>)
    requires SameLines(env, env') && Clear(env)
    ensures Gather(env) == Gather(env')
  {
    UnnamedIff(env);
    UnnamedIff(env');
    OccursSame(env, env', NoService);
    OccursSame(env', env, NoService);
    hide Gather, SameLines, Clear, Occurs;
    if Gather(env).Some? {
      forall s
        ensures s in Gather(env).value <==> s in Gather(env').value
        ensures s in Gather(env).value ==> Gather(env).value[s] == Gather(env').value[s]
      {
        EntriesAgree(env, env', s);
      }
      assert Gather(env).value == Gather(env').value;
    }
  }

  /** For variables whose settings are clear, whether the table loads, and the table that
      is loaded, do not depend on the order of the variables. */
  lemma {:induction false} OrderFree(env: seq<string>, env': seq<string>, r: Result, r': Result)
    requires SameLines(env, env') && Clear(env) && Parses(env, r) && Parses(env', r')
    ensures r.Unnamed? <==> r'.Unnamed?
    ensures r.Loaded? || r'.Loaded? ==> r == r'
  {
    hide Gather, SameLines, Clear, TargetOf;
    TablesAgree(env, env');
    if r.Loaded? && r'.Loaded? {
      assert r.targets == r'.targets;
    }
  }
}
