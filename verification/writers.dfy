/** The writing side of a connection: a socket that may fail at any byte, and a buffered
    writer whose first error is permanent. */
module Writers {
  import opened Automata

  const BUFFER_SIZE: nat := 4096

  /** The peer's view: the bytes that reached it. A closed socket takes no more; one that
      is `reliable` takes everything until it is closed. */
  class Sink {
    var sent: seq<Byte>
    var closed: bool
    const reliable: bool

    constructor (reliable: bool)
      ensures sent == [] && !closed && this.reliable == reliable
    {
      sent, closed, this.reliable := [], false, reliable;
    }

    method Write(p: seq<Byte>) returns (n: nat, ok: bool)
      modifies this`sent
      ensures n <= |p| && sent == old(sent) + p[..n]
      ensures ok ==> n == |p|
      ensures closed ==> n == 0 && !ok
      ensures reliable && !closed ==> ok
    {
      if closed {
        return 0, false;
      }
      if reliable {
        sent := sent + p;
        return |p|, true;
      }
      n :| 0 <= n <= |p|;
      ok :| ok ==> n == |p|;
      sent := sent + p[..n];
    }

    method Close()
      modifies this`closed
      ensures closed
    {
      closed := true;
    }
  }

  /** `wire` is what a socket that never fails would receive: the socket has received a
      prefix of it, and all but the buffered end of it as long as nothing has failed. */
  class BufWriter {
    const sink: Sink
    var buf: seq<Byte>
    var failed: bool
    ghost var wire: seq<Byte>

    ghost predicate Valid()
      reads this, sink
    {
      && |buf| <= 4096
      && sink.sent <= wire
      && (!failed ==> wire == sink.sent + buf)
    }

    constructor (sink: Sink)
      ensures this.sink == sink && buf == [] && !failed && wire == sink.sent && Valid()
    {
      this.sink, this.buf, this.failed, this.wire := sink, [], false, sink.sent;
    }

    method Flush() returns (ok: bool)
      requires Valid()
      modifies `buf, `failed, sink`sent
      ensures Valid() && ok == !failed
      ensures ok ==> buf == []
      ensures old(failed) ==> failed
      ensures old(failed) || sink.closed ==> sink.sent == old(sink.sent)
      ensures old(sink.sent) <= sink.sent
      ensures sink.closed && old(buf) != [] ==> !ok
      ensures !old(failed) && old(buf) == [] ==> ok
      ensures sink.reliable && !sink.closed && !old(failed) ==> ok
    {
      if failed {
        return false;
      }
      if buf == [] {
        return true;
      }
      var n, wrote := sink.Write(buf);
      assert buf == buf[..n] + buf[n..];
      buf := buf[n..];
      failed := !wrote;
      ok := wrote;
    }

    method Write(p: seq<Byte>) returns (ok: bool)
      requires Valid()
      modifies this, sink`sent
      ensures Valid() && ok == !failed
      ensures wire == old(wire) + p
      ensures old(failed) ==> failed
      ensures old(failed) || sink.closed ==> sink.sent == old(sink.sent)
      ensures old(sink.sent) <= sink.sent
      ensures sink.reliable && !sink.closed && !old(failed) ==> ok
      ensures !old(failed) && |old(buf)| + |p| <= BUFFER_SIZE ==>
                ok && sink.sent == old(sink.sent) && |buf| == |old(buf)| + |p|
    {
      wire := wire + p;
      var q := p;
      while |q| > BUFFER_SIZE - |buf| && !failed
        invariant |buf| <= BUFFER_SIZE
        invariant sink.sent <= wire == old(wire) + p
        invariant !failed ==> wire == sink.sent + buf + q
        invariant old(failed) ==> failed
        invariant old(failed) || sink.closed ==> sink.sent == old(sink.sent)
        invariant old(sink.sent) <= sink.sent
        invariant sink.reliable && !sink.closed && !old(failed) ==> !failed
        invariant !old(failed) && |old(buf)| + |p| <= BUFFER_SIZE ==>
                    !failed && sink.sent == old(sink.sent) && buf == old(buf) && q == p
        decreases if failed then 0 else 1, |q|, |buf|
      {
        if buf == [] {
          var n, wrote := sink.Write(q);
          assert q == q[..n] + q[n..];
          q := q[n..];
          failed := !wrote;
        } else {
          q := Fill(q);
        }
      }
      if !failed {
        buf := buf + q;
      }
      ok := !failed;
    }

    /** Tops the buffer up from `q` and flushes it. */
    method Fill(q: seq<Byte>) returns (rest: seq<Byte>)
      requires !failed && 0 < |buf| <= BUFFER_SIZE && |q| > BUFFER_SIZE - |buf|
      requires wire == sink.sent + buf + q
      modifies `buf, `failed, sink`sent
      ensures |buf| <= BUFFER_SIZE && |rest| <= |q| && (!failed ==> buf == [])
      ensures sink.sent <= wire && (!failed ==> wire == sink.sent + buf + rest)
      ensures sink.closed ==> sink.sent == old(sink.sent)
      ensures old(sink.sent) <= sink.sent
      ensures sink.reliable && !sink.closed ==> !failed
    {
      var k := BUFFER_SIZE - |buf|;
      assert q == q[..k] + q[k..];
      buf := buf + q[..k];
      rest := q[k..];
      var n, wrote := sink.Write(buf);
      assert buf == buf[..n] + buf[n..];
      buf := buf[n..];
      failed := !wrote;
    }

    /** After a failure, what was still meant to be written no longer matters. */
    ghost method Forget(meant: seq<Byte>)
      requires Valid() && failed && wire <= meant
      modifies `wire
      ensures Valid() && wire == meant
    {
      wire := meant;
    }
  }

  lemma {:induction false} PartOfFrame(before: seq<Byte>, part: seq<Byte>, frame: seq<Byte>)
    requires before + part <= before + frame
    ensures part <= frame
  {
    assert forall i :: 0 <= i < |part| ==> part[i] == (before + part)[|before| + i];
  }

  lemma {:induction false} SameAfter(start: seq<Byte>, a: seq<Byte>, b: seq<Byte>)
    ensures start + a == start + b <==> a == b
  {
    assert (start + a)[|start|..] == a && (start + b)[|start|..] == b;
  }
}
