/** Choosing the codec by the first two bytes of a connection. */
module Negotiate {
  import opened Automata
  import opened Gob
  import opened Streams
  import JsonText

  const SNIFFED: nat := 2

  predicate IsJsonStream(b: seq<Byte>) {
    && b != [] && b[0] == JsonText.OPEN_BRACE
    && (|b| < 2 || b[1] in [JsonText.QUOTE, 32, 9, 10, 13])
  }

  /** How a connection is classified from everything the client will ever send on it. */
  predicate IsJson(s: seq<Byte>) {
    IsJsonStream(s[..Min(SNIFFED, |s|)])
  }

  /** Peeks; the stream the codec will read is untouched. */
  method Sniff(conn: Conn) returns (json: bool)
    requires conn.layered
    modifies conn
    ensures conn.Pending() == old(conn.Pending())
    ensures json == IsJson(conn.Pending())
  {
    var first := conn.Peek(SNIFFED);
    json := IsJsonStream(first);
  }

  // ----------------------------------------------------------- no collision

  /** Gob message type ids whose encoding is one of the bytes that may follow `{`. */
  const COLLIDING: set<int> := {-5, -7, 5, 16, 17}

  lemma {:induction false} FirstOfUint(x: nat)
    requires x < U64
    ensures if x < 128 then EncUint(x) == [x] else EncUint(x)[0] >= 248
  {
    if x >= 128 {
      DigitsOfU64(x);
    }
  }

  /** A gob message is taken for JSON exactly when it is 123 bytes long, the code of `{`,
      and its type id is one of five, the codes of the bytes that may follow. */
  lemma {:induction false} MessageIsJsonIff(id: int, body: seq<Byte>, tail: seq<Byte>)
    requires -ID_LIMIT < id < ID_LIMIT && |EncInt(id)| + |body| < TOO_BIG
    ensures IsJson(Msg(EncInt(id) + body) + tail)
            <==> |EncInt(id)| + |body| == JsonText.OPEN_BRACE && id in COLLIDING
  {
    var n := |EncInt(id)| + |body|;
    var s := Msg(EncInt(id) + body) + tail;
    FirstOfUint(n);
    FirstOfUint(Zig(id));
    assert s[0] == EncUint(n)[0];
    if n == JsonText.OPEN_BRACE {
      assert s[1] == EncInt(id)[0];
    }
  }

  /** So no stream that starts by defining a user type is, whatever its length byte. */
  lemma {:induction false} DefinitionIsNotJson(d: TypeDef, tail: seq<Byte>)
    requires DefFits(d)
    ensures !IsJson(DefMsg(d) + tail)
  {
    MessageIsJsonIff(-d.id, d.body, tail);
  }

  /** Whatever a fresh gob encoder is first given of a user type, its stream is legacy. */
  lemma {:induction false} FreshGobIsNotJson(v: GobValue, tail: seq<Byte>)
    requires Encodable(v) && v.id >= FIRST_USER_ID
    ensures !IsJson(Encode({}, v) + tail)
  {
    assert v.defs != [];
    var d := v.defs[0];
    var more := EncDefs({d.id}, v.defs[1..]) + Msg(EncInt(v.id) + v.content) + tail;
    assert {} + {d.id} == {d.id};
    assert Encode({}, v) + tail == DefMsg(d) + more;
    DefinitionIsNotJson(d, more);
  }

  /** An object as the JSON encoder prints it, without blanks around its first name. */
  predicate Compact(v: seq<Byte>) {
    JsonText.IsObject(v) && |v| >= 2 && v[1] in [JsonText.QUOTE, JsonText.CLOSE_BRACE]
  }

  /** Every compact object but the empty one starts a JSON stream. */
  lemma {:induction false} CompactIsJsonIff(v: seq<Byte>, tail: seq<Byte>)
    requires Compact(v)
    ensures IsJson(v + tail) <==> v != [JsonText.OPEN_BRACE, JsonText.CLOSE_BRACE]
  {
    if v[1] == JsonText.CLOSE_BRACE {
      var start := v[..2];
      assert v == start + v[2..] && start == [JsonText.OPEN_BRACE, JsonText.CLOSE_BRACE];
      RunSplit(JsonText.JSON, JsonText.START, [JsonText.OPEN_BRACE], [JsonText.CLOSE_BRACE]);
      assert [JsonText.OPEN_BRACE][1..] == [] && [JsonText.CLOSE_BRACE][1..] == [];
      assert start == [JsonText.OPEN_BRACE] + [JsonText.CLOSE_BRACE];
      StopsExtend(JsonText.JSON, JsonText.START, start, v[2..]);
    }
  }

  // ------------------------------------------------------------ the factories

  datatype Kind = JsonPlain | JsonSealed | GobPlain | GobSealed

  function ServerKind(s: seq<Byte>, keyed: bool): Kind {
    if !IsJson(s) then if keyed then GobSealed else GobPlain
    else if keyed then JsonSealed else JsonPlain
  }

  function ClientKind(json: bool, keyed: bool): Kind {
    if !json then if keyed then GobSealed else GobPlain
    else if keyed then JsonSealed else JsonPlain
  }

  method Accept(conn: Conn, keyed: bool) returns (kind: Kind)
    requires conn.layered
    modifies conn
    ensures conn.Pending() == old(conn.Pending())
    ensures kind == ServerKind(conn.Pending(), keyed)
  {
    var json := Sniff(conn);
    if !json {
      kind := if keyed then GobSealed else GobPlain;
    } else if keyed {
      kind := JsonSealed;
    } else {
      kind := JsonPlain;
    }
  }

  /** What a client puts on the wire first: its first header. */
  datatype Opening = JsonHeader(text: seq<Byte>) | GobHeader(value: GobValue) {
    predicate Proper() {
      match this
      case JsonHeader(v) => Compact(v) && |v| > 2
      case GobHeader(v) => Encodable(v) && v.id >= FIRST_USER_ID
    }

    function Bytes(): seq<Byte>
      requires Proper()
    {
      match this
      case JsonHeader(v) => v
      case GobHeader(v) => Encode({}, v)
    }
  }

  /** For every transport a client may choose, the server, with a key exactly when the
      client has one, selects the client's mirror. */
  lemma {:induction false} MirrorSelected(json: bool, keyed: bool, o: Opening, tail: seq<Byte>)
    requires o.Proper() && o.JsonHeader? == json
    ensures ServerKind(o.Bytes() + tail, keyed) == ClientKind(json, keyed)
  {
    match o
    case JsonHeader(v) => CompactIsJsonIff(v, tail);
    case GobHeader(v) => FreshGobIsNotJson(v, tail);
  }

  /** The answer depends on the first two bytes only: more of them changes nothing. */
  lemma {:induction false} TwoBytesDecide(s: seq<Byte>, t: seq<Byte>)
    requires |s| >= SNIFFED
    ensures IsJson(s + t) == IsJson(s)
  {
    assert (s + t)[..SNIFFED] == s[..SNIFFED];
  }
}
