/** Target addresses: `host:port`, or a host alone for the default port. */
module Address {
  import opened Text
  import opened Numerals

  const DEFAULT_PORT: int := 2233

  function LastIndexOf(s: string, c: char): (i: int)
    ensures -1 <= i < |s|
    ensures i >= 0 ==> s[i] == c
    ensures forall k :: i < k < |s| ==> s[k] != c
    decreases |s|
  {
    if s == "" then -1
    else if s[|s| - 1] == c then |s| - 1
    else LastIndexOf(s[..|s| - 1], c)
  }

  datatype Split = HostPort(host: string, port: string) | Bad(why: string)

  const MISSING_PORT := "missing port in address"
  const TOO_MANY_COLONS := "too many colons in address"
  const MISSING_BRACKET := "missing ']' in address"
  const EXTRA_OPEN := "unexpected '[' in address"
  const EXTRA_CLOSE := "unexpected ']' in address"

  /** The host ends at the last colon, which brackets around the host may not hide. */
  function SplitHostPort(v: string): Split {
    var i := LastIndexOf(v, ':');
    if i < 0 then Bad(MISSING_PORT)
    else if v[0] == '[' then
      var end := IndexOf(v, ']');
      if end == |v| then Bad(MISSING_BRACKET)
      else if end + 1 == |v| then Bad(MISSING_PORT)
      else if end + 1 != i then Bad(if v[end + 1] == ':' then TOO_MANY_COLONS else MISSING_PORT)
      else if '[' in v[1..] then Bad(EXTRA_OPEN)
      else if ']' in v[end + 1..] then Bad(EXTRA_CLOSE)
      else HostPort(v[1..end], v[i + 1..])
    else if ':' in v[..i] then Bad(TOO_MANY_COLONS)
    else if '[' in v then Bad(EXTRA_OPEN)
    else if ']' in v then Bad(EXTRA_CLOSE)
    else HostPort(v[..i], v[i + 1..])
  }

  predicate At(s: string, t: string, i: nat) {
    i + |t| <= |s| && s[i..i + |t|] == t
  }

  predicate Contains(s: string, t: string) {
    exists i :: 0 <= i <= |s| && At(s, t, i)
  }

  const WORDS := "missing port"

  /** The text of a splitting error, which quotes the address. */
  function ErrorText(v: string, why: string): string {
    "address " + v + ": " + why
  }

  datatype Parsed = Ok(host: string, port: int) | Failed

  function SplitHostPortDefault(v: string): Parsed {
    if v == "" then Failed
    else
      match SplitHostPort(v)
      case Bad(why) => if Contains(ErrorText(v, why), WORDS) then Ok(v, DEFAULT_PORT) else Failed
      case HostPort(host, portText) =>
        match Atoi(portText)
        case None => Failed
        case Some(port) => if port < 1 || port > 65535 then Failed else Ok(host, port)
  }

  /** As the network library joins the two: a host with colons goes into brackets. */
  function JoinHostPort(host: string, port: nat): string {
    if ':' in host then "[" + host + "]:" + Itoa(port) else host + ":" + Itoa(port)
  }

  lemma {:induction false} AtGives(s: string, t: string, i: nat, k: nat)
    requires At(s, t, i) && k < |t|
    ensures s[i + k] == t[k]
  {
    assert s[i..i + |t|][k] == s[i + k];
  }

  lemma {:induction false} WhyIsKnown(v: string)
    requires SplitHostPort(v).Bad?
    ensures SplitHostPort(v).why in {MISSING_PORT, TOO_MANY_COLONS, MISSING_BRACKET, EXTRA_OPEN, EXTRA_CLOSE}
  {
    hide IndexOf, LastIndexOf;
  }

  lemma {:induction false} NotInColons(i: nat)
    ensures !At(TOO_MANY_COLONS, WORDS, i)
  {
    if At(TOO_MANY_COLONS, WORDS, i) {
      AtGives(TOO_MANY_COLONS, WORDS, i, 0);
      AtGives(TOO_MANY_COLONS, WORDS, i, 1);
    }
  }

  lemma {:induction false} NotInBracket(i: nat)
    ensures !At(MISSING_BRACKET, WORDS, i)
  {
    if At(MISSING_BRACKET, WORDS, i) {
      AtGives(MISSING_BRACKET, WORDS, i, 0);
      AtGives(MISSING_BRACKET, WORDS, i, 8);
    }
  }

  lemma {:induction false} NotInExtra(i: nat)
    ensures !At(EXTRA_OPEN, WORDS, i) && !At(EXTRA_CLOSE, WORDS, i)
  {
    if At(EXTRA_OPEN, WORDS, i) {
      AtGives(EXTRA_OPEN, WORDS, i, 0);
    }
    if At(EXTRA_CLOSE, WORDS, i) {
      AtGives(EXTRA_CLOSE, WORDS, i, 0);
    }
  }

  /** Of the library's words only those for a missing port contain the words looked for. */
  lemma {:induction false} WordsInWhy(v: string, i: nat)
    requires SplitHostPort(v).Bad? && At(SplitHostPort(v).why, WORDS, i)
    ensures SplitHostPort(v).why == MISSING_PORT
  {
    hide At, SplitHostPort;
    WhyIsKnown(v);
    NotInColons(i);
    NotInBracket(i);
    NotInExtra(i);
  }

  /** Where the words can stand in an error text: in the address it quotes, or in what the
      library says of it, but not across the two. */
  lemma {:induction false} WordsInText(v: string, why: string, i: nat)
    requires At(ErrorText(v, why), WORDS, i)
    ensures (i >= 8 && At(v, WORDS, i - 8)) || (i >= |v| + 10 && At(why, WORDS, i - |v| - 10))
  {
    var text, p := ErrorText(v, why), |v| + 8;
    assert |text| == p + 2 + |why| && text[p] == ':' && text[p + 1] == ' ' && text[..8] == "address ";
    AtGives(text, WORDS, i, 0);
    if 8 <= i < p {
      if p < i + |WORDS| {
        AtGives(text, WORDS, i, p - i);
      }
      assert text[8..p] == v;
      assert v[i - 8..i - 8 + |WORDS|] == text[i..i + |WORDS|];
    } else if p <= i {
      assert text[p + 2..] == why;
      assert why[i - p - 2..i - p - 2 + |WORDS|] == text[i..i + |WORDS|];
    }
  }

  lemma {:induction false} TextHasParts(v: string, why: string, i: nat)
    ensures At(v, WORDS, i) ==> At(ErrorText(v, why), WORDS, i + 8)
    ensures At(why, WORDS, i) ==> At(ErrorText(v, why), WORDS, i + |v| + 10)
  {
    var text, p := ErrorText(v, why), |v| + 8;
    assert text[8..p] == v && text[p + 2..] == why;
    if At(v, WORDS, i) {
      assert text[i + 8..i + 8 + |WORDS|] == v[i..i + |WORDS|];
    }
    if At(why, WORDS, i) {
      assert text[i + p + 2..i + p + 2 + |WORDS|] == why[i..i + |WORDS|];
    }
  }

  /** Host and port, the host in brackets or without colons. */
  predicate Splits(v: string, host: string, port: string) {
    || (NoMarks(host) && NoMarks(port) && v == host + ":" + port)
    || (PlainHost(host) && NoMarks(port) && v == "[" + host + "]:" + port)
  }

  /** No colon at all, or something else than a colon, or nothing, behind a bracketed host. */
  ghost predicate LacksPort(v: string) {
    ':' !in v || exists host, rest :: Bracketed(v, host, rest) && (rest == "" || rest[0] != ':')
  }

  predicate Bracketed(v: string, host: string, rest: string) {
    ']' !in host && v == "[" + host + "]" + rest
  }

  lemma {:induction false} SplitsIff(v: string, host: string, port: string)
    ensures SplitHostPort(v) == HostPort(host, port) <==> Splits(v, host, port)
  {
    hide SplitHostPort, PlainHost;
    if Splits(v, host, port) {
      if v == host + ":" + port && NoMarks(host) {
        NoMarksIsPlain(host);
        PlainSplits(host, port);
      } else {
        BracketedSplits(host, port);
      }
    }
    if SplitHostPort(v) == HostPort(host, port) {
      EmptyDoesNotSplit();
      if v[0] == '[' {
        BracketedParts(v);
      } else {
        PlainParts(v);
      }
    }
  }

  lemma {:induction false} NoMarksIsPlain(host: string)
    requires NoMarks(host)
    ensures PlainHost(host) && ':' !in host
  {
  }

  lemma {:induction false} NoneWithin(s: string, c: char, i: nat, j: nat)
    requires c !in s && i <= j <= |s|
    ensures c !in s[i..j]
  {
  }

  lemma {:induction false} PlainParts(v: string)
    requires SplitHostPort(v).HostPort? && v != "" && v[0] != '['
    ensures var r := SplitHostPort(v); NoMarks(r.host) && NoMarks(r.port) && v == r.host + ":" + r.port
  {
    hide LastIndexOf, IndexOf;
    var i := LastIndexOf(v, ':');
    assert v == v[..i] + ":" + v[i + 1..];
    AfterLast(v, i);
    NoneWithin(v, '[', 0, i);
    NoneWithin(v, ']', 0, i);
    NoneWithin(v, '[', i + 1, |v|);
    NoneWithin(v, ']', i + 1, |v|);
    MarksAre(v[..i]);
    MarksAre(v[i + 1..]);
  }

  lemma {:induction false} MarksAre(s: string)
    ensures NoMarks(s) <==> ':' !in s && '[' !in s && ']' !in s
  {
  }

  lemma {:induction false} AfterLast(v: string, i: nat)
    requires i < |v| && forall k :: i < k < |v| ==> v[k] != ':'
    ensures ':' !in v[i + 1..]
  {
  }

  lemma {:induction false} BracketedParts(v: string)
    requires SplitHostPort(v).HostPort? && v != "" && v[0] == '['
    ensures var r := SplitHostPort(v); PlainHost(r.host) && NoMarks(r.port) && v == "[" + r.host + "]:" + r.port
  {
    hide LastIndexOf, IndexOf, NoMarks;
    var i, end := LastIndexOf(v, ':'), IndexOf(v, ']');
    var host, port := v[1..end], v[i + 1..];
    assert i == end + 1;
    assert v == "[" + host + "]:" + port;
    assert host == v[1..][0..end - 1] == v[..end][1..end];
    assert port == v[1..][i..|v| - 1] == v[end + 1..][1..|v| - i];
    NoneWithin(v[1..], '[', 0, end - 1);
    NoneWithin(v[..end], ']', 1, end);
    NoneWithin(v[1..], '[', i, |v| - 1);
    NoneWithin(v[end + 1..], ']', 1, |v| - i);
    AfterLast(v, i);
    MarksAre(port);
  }

  lemma {:induction false} LacksPortIff(v: string)
    ensures SplitHostPort(v) == Bad(MISSING_PORT) <==> LacksPort(v)
  {
    hide LastIndexOf, IndexOf, Bracketed;
    var i, end := LastIndexOf(v, ':'), IndexOf(v, ']');
    assert i < 0 <==> ':' !in v;
    if v != "" && v[0] == '[' && end < |v| {
      BracketedAt(v);
    }
    forall host, rest | Bracketed(v, host, rest)
      ensures v != "" && v[0] == '[' && end < |v| && rest == v[end + 1..]
    {
      BracketedOnce(v, host, rest);
    }
  }

  lemma {:induction false} BracketedAt(v: string)
    requires v != "" && v[0] == '[' && IndexOf(v, ']') < |v|
    ensures var end := IndexOf(v, ']'); end > 0 && Bracketed(v, v[1..end], v[end + 1..])
  {
    hide IndexOf;
    var end := IndexOf(v, ']');
    assert v == "[" + v[1..end] + "]" + v[end + 1..];
    assert forall k :: 0 <= k < end - 1 ==> v[1..end][k] == v[..end][k + 1];
  }

  lemma {:induction false} BracketedOnce(v: string, host: string, rest: string)
    requires Bracketed(v, host, rest)
    ensures var end := IndexOf(v, ']'); v != "" && v[0] == '[' && end < |v| && rest == v[end + 1..]
  {
    IndexOfIs(v, ']', 1 + |host|);
  }

  /** An address without a port gets the default one.  So does any malformed address that
      happens to contain the words the library reports a missing port with. */
  lemma {:induction false} DefaultPortIff(v: string)
    requires v != "" && SplitHostPort(v).Bad?
    ensures SplitHostPortDefault(v) == Ok(v, DEFAULT_PORT)
            <==> SplitHostPort(v).why == MISSING_PORT || Contains(v, WORDS)
    ensures SplitHostPortDefault(v) != Failed ==> SplitHostPortDefault(v) == Ok(v, DEFAULT_PORT)
  {
    hide SplitHostPort, ErrorText, At;
    var why := SplitHostPort(v).why;
    var text := ErrorText(v, why);
    if i :| 0 <= i <= |text| && At(text, WORDS, i) {
      WordsInText(v, why, i);
      if !(i >= 8 && At(v, WORDS, i - 8)) {
        WordsInWhy(v, i - |v| - 10);
      } else {
        AtFits(v, WORDS, i - 8);
      }
    }
    if i :| 0 <= i <= |v| && At(v, WORDS, i) {
      TextHasParts(v, why, i);
      AtFits(text, WORDS, i + 8);
    }
    if why == MISSING_PORT {
      TextHasParts(v, why, 0);
      StartsMissing();
      AtFits(text, WORDS, |v| + 10);
    }
  }

  /** What an address stands for: its host and a port from 1 to 65535; or all of it and 2233,
      if it does not split and lacks a port or contains the words. */
  ghost predicate StandsFor(v: string, host: string, port: int) {
    || (1 <= port <= 65535 && exists text :: Splits(v, host, text) && IsNumeral(text, port))
    || (v != "" && host == v && port == 2233 && (forall h, p :: !Splits(v, h, p))
        && (LacksPort(v) || Contains(v, "missing port")))
  }

  lemma {:induction false} ParsedIff(v: string, host: string, port: int)
    ensures SplitHostPortDefault(v) == Ok(host, port) <==> StandsFor(v, host, port)
  {
    hide SplitHostPort, Atoi, IsNumeral, Splits, LacksPort, Contains, ErrorText;
    EmptyDoesNotSplit();
    LacksPortIff(v);
    forall h, p ensures SplitHostPort(v) == HostPort(h, p) <==> Splits(v, h, p) {
      SplitsIff(v, h, p);
    }
    match SplitHostPort(v)
    case HostPort(h, p) => AtoiIff(p, port);
    case Bad(why) =>
      if v != "" {
        DefaultPortIff(v);
      }
  }

  lemma {:induction false} EmptyDoesNotSplit()
    ensures SplitHostPort("").Bad? && forall h, p :: !Splits("", h, p)
  {
  }

  lemma {:induction false} AtFits(s: string, t: string, i: nat)
    requires At(s, t, i)
    ensures i <= |s|
  {
  }

  lemma {:induction false} StartsMissing()
    ensures At(MISSING_PORT, WORDS, 0)
  {
  }

  /** Such an address: three colons, and yet accepted. */
  lemma {:induction false} MalformedAccepted()
    ensures var v := "missing port:1:2";
            SplitHostPort(v) == Bad(TOO_MANY_COLONS) && SplitHostPortDefault(v) == Ok(v, DEFAULT_PORT)
  {
    var v := "missing port:1:2";
    assert v[12] == ':' && v[14] == ':' && v[..14][12] == ':';
    assert At(v, WORDS, 0);
    DefaultPortIff(v);
  }

  // --------------------------------------------------------------- round trip

  predicate PlainHost(host: string) {
    '[' !in host && ']' !in host
  }

  lemma {:induction false} NoneIn(n: nat)
    ensures NoMarks(Itoa(n))
  {
    DecimalItoa(n);
  }

  /** Joining and splitting give the host and the port back, for hosts without brackets
      and ports the proxy accepts; colons in the host do no harm. */
  lemma {:induction false} JoinThenSplit(host: string, port: nat)
    requires PlainHost(host) && 1 <= port <= 65535
    ensures SplitHostPortDefault(JoinHostPort(host, port)) == Ok(host, port)
  {
    AtoiItoa(port);
    JoinSplits(host, port);
  }

  lemma {:induction false} JoinSplits(host: string, port: nat)
    requires PlainHost(host)
    ensures SplitHostPort(JoinHostPort(host, port)) == HostPort(host, Itoa(port))
  {
    NoneIn(port);
    if ':' in host {
      BracketedSplits(host, Itoa(port));
    } else {
      PlainSplits(host, Itoa(port));
    }
  }

  predicate NoMarks(s: string) {
    forall i :: 0 <= i < |s| ==> s[i] != ':' && s[i] != '[' && s[i] != ']'
  }

  lemma {:induction false} LastColon(a: string, b: string)
    requires NoMarks(b)
    ensures LastIndexOf(a + ":" + b, ':') == |a|
  {
    var v := a + ":" + b;
    assert v[|a|] == ':' && forall k :: |a| < k < |v| ==> v[k] == b[k - |a| - 1];
  }

  lemma {:induction false} PlainSplits(host: string, digits: string)
    requires PlainHost(host) && ':' !in host && NoMarks(digits)
    ensures SplitHostPort(host + ":" + digits) == HostPort(host, digits)
  {
    hide LastIndexOf, IndexOf;
    var v := host + ":" + digits;
    LastColon(host, digits);
    assert v[..|host|] == host && v[|host| + 1..] == digits;
  }

  lemma {:induction false} BracketedSplits(host: string, digits: string)
    requires PlainHost(host) && NoMarks(digits)
    ensures SplitHostPort("[" + host + "]:" + digits) == HostPort(host, digits)
  {
    hide LastIndexOf, IndexOf;
    var v, end := "[" + host + "]:" + digits, |host| + 1;
    assert v == "[" + host + "]" + ":" + digits;
    LastColon("[" + host + "]", digits);
    assert v[..end] == "[" + host;
    IndexOfIs(v, ']', end);
    assert v[1..] == host + ("]:" + digits) && v[end + 1..] == ":" + digits;
    assert v[1..end] == host && v[end + 2..] == digits;
  }
}
