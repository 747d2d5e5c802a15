/** The reading side of a connection, layer by layer.  A read may return any non-empty
    part of what was asked for, so every contract speaks only of the bytes still to be
    delivered, in order: `Pending()`. */
module Streams {
  import opened Automata

  const BUFFER_SIZE: nat := 4096

  /** A connection.  When `layered`, a buffered reader stands in front of the socket (the
      server sniffs through it) and `held` is what that reader took and has not yet given. */
  class Conn {
    var input: seq<Byte>
    var held: seq<Byte>
    const layered: bool

    constructor (input: seq<Byte>, layered: bool)
      ensures this.layered == layered && Pending() == input
    {
      this.input, this.held, this.layered := input, [], layered;
    }

    ghost function Pending(): seq<Byte>
      reads this
    {
      held + input
    }

    /** More bytes arrive from the peer. */
    method Arrive(more: seq<Byte>)
      modifies this
      ensures Pending() == old(Pending()) + more
    {
      input := input + more;
    }

    /** The socket: some non-empty part of what has arrived, at most `want` bytes. */
    method Receive(want: nat) returns (p: seq<Byte>)
      requires want > 0
      modifies this`input
      ensures old(input) == p + input
      ensures |p| <= want
      ensures p == [] <==> old(input) == []
    {
      if input == [] {
        p := [];
      } else {
        var k :| 1 <= k <= want && k <= |input|;
        p, input := input[..k], input[k..];
      }
    }

    /** An empty result means end of stream. */
    method Read(want: nat) returns (p: seq<Byte>)
      requires want > 0
      modifies this
      ensures old(Pending()) == p + Pending()
      ensures |p| <= want
      ensures p == [] <==> old(Pending()) == []
    {
      if held == [] {
        if !layered || want >= BUFFER_SIZE {
          p := Receive(want);
          return;
        }
        held := Receive(BUFFER_SIZE);
      }
      var k := Min(want, |held|);
      p, held := held[..k], held[k..];
    }

    /** The first `n` pending bytes, without taking them; fewer only at end of stream. */
    method Peek(n: nat) returns (p: seq<Byte>)
      requires layered && n <= BUFFER_SIZE
      modifies this
      ensures Pending() == old(Pending())
      ensures p == Pending()[..Min(n, |Pending()|)]
    {
      var eof := false;
      while |held| < n && !eof
        invariant Pending() == old(Pending())
        invariant eof ==> input == []
        decreases if eof then 0 else 1, |input|
      {
        var more := Receive(BUFFER_SIZE);
        held := held + more;
        eof := more == [];
      }
      p := held[..Min(n, |held|)];
    }
  }

  /** The buffered reader the v2 codec shares between peeking, discarding and gob. */
  class BufReader {
    const conn: Conn
    var buf: seq<Byte>

    constructor (conn: Conn)
      ensures this.conn == conn && buf == [] && Pending() == conn.Pending()
    {
      this.conn, this.buf := conn, [];
    }

    ghost function Pending(): seq<Byte>
      reads this, conn
    {
      buf + conn.Pending()
    }

    method Read(want: nat) returns (p: seq<Byte>)
      requires want > 0
      modifies this, conn
      ensures old(Pending()) == p + Pending()
      ensures |p| <= want
      ensures p == [] <==> old(Pending()) == []
    {
      if buf == [] {
        if want >= BUFFER_SIZE {
          p := conn.Read(want);
          return;
        }
        buf := conn.Read(BUFFER_SIZE);
      }
      var k := Min(want, |buf|);
      p, buf := buf[..k], buf[k..];
    }

    method Peek(n: nat) returns (p: seq<Byte>)
      requires n <= BUFFER_SIZE
      modifies this, conn
      ensures Pending() == old(Pending())
      ensures p == Pending()[..Min(n, |Pending()|)]
      ensures buf[..Min(n, |buf|)] == p
    {
      var eof := false;
      while |buf| < n && !eof
        invariant Pending() == old(Pending())
        invariant eof ==> conn.Pending() == []
        decreases if eof then 0 else 1, |conn.Pending()|
      {
        var more := conn.Read(BUFFER_SIZE);
        buf := buf + more;
        eof := more == [];
      }
      p := buf[..Min(n, |buf|)];
    }

    /** Drops `n` bytes already buffered by a peek. */
    method Discard(n: nat)
      requires n <= |buf|
      modifies this
      ensures Pending() == old(Pending())[n..]
    {
      buf := buf[n..];
    }
  }

  /** Limits how many bytes may be read after the last reset. */
  class BudgetReader {
    const conn: Conn
    var left: nat

    constructor (conn: Conn, left: nat)
      ensures this.conn == conn && this.left == left
    {
      this.conn, this.left := conn, left;
    }

    method Reset(n: nat)
      modifies this
      ensures left == n
    {
      left := n;
    }

    method Read(want: nat) returns (p: seq<Byte>, tooLarge: bool)
      requires want > 0
      modifies this, conn
      ensures tooLarge <==> old(left) == 0
      ensures old(conn.Pending()) == p + conn.Pending()
      ensures |p| <= want && left == old(left) - |p|
      ensures p == [] <==> tooLarge || old(conn.Pending()) == []
    {
      if left == 0 {
        return [], true;
      }
      p := conn.Read(Min(want, left));
      tooLarge, left := false, left - |p|;
    }
  }
}
