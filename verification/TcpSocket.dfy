/**
 * The server's side of one connection: `tcp_recv` and `process_buf`.
 *
 * A message that arrives whole is parsed where recv() put it, in a buffer shared by all
 * connections; only a message that arrives in pieces gets a buffer of its own. What
 * `parse_message` is handed is recorded in `delivered`.
 */
module TcpSocket {
  import opened Bytes
  import opened Framing

  const SBSIZE: nat := 68 * 1024

  datatype Status = Open | Refused | HungUp

  class Socket {
    const accept: Message -> bool
    const shared: array<Byte>       // static_buf
    var buf: array?<Byte>
    var len: nat
    var pktsize: nat
    var excess: nat
    var status: Status
    var delivered: seq<Message>
    ghost var received: seq<Byte>

    constructor (accept: Message -> bool, shared: array<Byte>)
      requires shared.Length == SBSIZE
      ensures Valid() && status == Open && buf == null
      ensures this.accept == accept && this.shared == shared
      ensures received == [] && delivered == []
    {
      this.accept, this.shared := accept, shared;
      buf, len, pktsize, excess := null, 0, 0, 0;
      status, delivered, received := Open, [], [];
    }

    /** The bytes kept for later. */
    ghost function Pending(): seq<Byte>
      reads this, buf
      requires buf != null ==> len <= buf.Length
    {
      if buf == null then [] else buf[..len]
    }

    /** A private buffer is always waiting for more, and is large enough for what it waits for. */
    ghost predicate BufferOk()
      reads this, buf
    {
      && shared.Length == SBSIZE
      && excess == 0
      && (buf != null ==>
            && buf.Length == SBSIZE && buf != shared
            && len < pktsize <= MAX_MESSAGE
            && pktsize == Wanted(buf[..len])
            && Incomplete(buf[..len]))
    }

    /** Everything received so far has been dealt with as the framing function says. */
    ghost predicate Valid()
      reads this, buf
    {
      var o := Deframe(received, accept);
      && delivered == o.messages
      && (status == Refused <==> o.tail.Broken?)
      && (status == Open ==> BufferOk() && o.tail == Waiting(Pending()))
    }

    /** How much the next recv() may return. */
    function ReadLimit(): nat
      reads this
      requires buf != null ==> len < pktsize
    {
      if buf == null then SBSIZE else pktsize - len
    }

    /** `tcp_recv` when recv() brings data: any amount from one byte to what was asked for. */
    method Receive(chunk: seq<Byte>)
      requires Valid() && status == Open
      requires 0 < |chunk| <= ReadLimit()
      modifies this, buf, shared
      ensures Valid() && status != HungUp
      ensures received == old(received) + chunk
      ensures buf == null || buf == old(buf) || fresh(buf)
    {
      DeframeAppend(received, chunk, accept);
      received := received + chunk;
      if buf == null {
        Store(shared, 0, chunk);
        assert shared[..|chunk|] == chunk;
        assert [] + chunk == chunk;
        ProcessBuf(shared, |chunk|);
      } else {
        ghost var pending := buf[..len];
        Store(buf, len, chunk);
        len := len + |chunk|;
        assert buf[..len] == pending + chunk;
        ProcessBuf(buf, len);
      }
    }

    /** `tcp_recv` when recv() reports the end of the stream or an error. */
    method HangUp()
      requires Valid() && status == Open
      modifies this
      ensures Valid() && status == HungUp
      ensures received == old(received) && delivered == old(delivered)
    {
      status := HungUp;
    }

    /** `process_buf` on the first n bytes of the shared buffer or of the private one. */
    method ProcessBuf(a: array<Byte>, n: nat)
      requires shared.Length == SBSIZE && excess == 0 && status == Open
      requires a == if buf == null then shared else buf
      requires 0 < n <= SBSIZE
      requires buf != null ==> buf.Length == SBSIZE && buf != shared
      modifies this, a
      ensures received == old(received)
      ensures buf == null || buf == old(buf) || fresh(buf)
      ensures var o := old(Deframe(a[..n], accept));
              && delivered == old(delivered) + o.messages
              && (status == if o.tail.Broken? then Refused else Open)
              && (status == Open ==> BufferOk() && o.tail == Waiting(Pending()))
      decreases n
    {
      hide Deframe, Read32;
      ghost var s := a[..n];
      DeframeStep(s, accept);
      var total: nat := 4;
      if n >= 4 {
        total := Load32(a, n);
        if total > 64 * 1024 || total <= 8 {
          status := Refused;
          return;
        }
      }
      if total > n {
        KeepPartial(a, n, total);
        return;
      }
      var size := n;
      if total < n {
        excess := n - total;
        size := total;
      }
      assert a[..n] == s;
      var m := a[..n][4..size];
      delivered := delivered + [m];
      if !accept(m) {
        status := Refused;
        return;
      }
      if excess > 0 {
        Copy(a, size, a, excess);
        len := excess;
        excess := 0;
        assert a[..len] == s[total..];
        ghost var rest := Deframe(s[total..], accept);
        ProcessBuf(a, len);
        assert delivered == old(delivered) + ([m] + rest.messages);
        return;
      }
      DeframeStep(s[total..], accept);
      buf := null;
    }

    /** The first n bytes of a are not a whole frame: keep them in a private buffer. */
    method KeepPartial(a: array<Byte>, n: nat, total: nat)
      requires n <= a.Length == SBSIZE
      requires buf != null ==> a == buf
      modifies this
      ensures a[..] == old(a[..])
      ensures buf != null && buf.Length == SBSIZE && len == n && pktsize == total && buf[..n] == a[..n]
      ensures if old(buf) == null then fresh(buf) else buf == old(buf)
      ensures unchanged(`excess) && unchanged(`status) && unchanged(`delivered) && unchanged(`received)
    {
      if buf == null {
        var own := new Byte[SBSIZE](_ => 0);
        Copy(a, 0, own, n);
        buf := own;
      }
      len, pktsize := n, total;
    }

    /** The word at the front of the buffer, in host order. */
    method Load32(a: array<Byte>, n: nat) returns (v: nat)
      requires 4 <= n <= a.Length
      ensures v == Read32(a[..n], 0)
    {
      v := Read32(a[..n], 0);
    }
  }

  /** What recv() does: put the bytes at an offset. */
  method Store(a: array<Byte>, at: nat, bytes: seq<Byte>)
    requires at + |bytes| <= a.Length
    modifies a
    ensures a[..] == old(a[..at]) + bytes + old(a[at + |bytes|..])
  {
    for i := 0 to |bytes|
      invariant forall j :: 0 <= j < a.Length ==> a[j] == if at <= j < at + i then bytes[j - at] else old(a[j])
    {
      a[at + i] := bytes[i];
    }
  }

  /** memcpy, and memmove towards the front of the same buffer. */
  method Copy(src: array<Byte>, from: nat, dst: array<Byte>, count: nat)
    requires from + count <= src.Length && count <= dst.Length
    modifies dst
    ensures dst[..count] == old(src[from..from + count])
  {
    for i := 0 to count
      invariant dst[..i] == old(src[from..from + i])
      invariant forall j :: from + i <= j < src.Length ==> src[j] == old(src[j])
    {
      dst[i] := src[from + i];
    }
  }

  /**
   * A whole stream, cut into chunks by the network as `cut` dictates: whatever `cut` is,
   * `parse_message` is handed the messages of the whole stream, and the connection is
   * dropped exactly when the stream is broken.
   */
  method ReceiveAll(sock: Socket, stream: seq<Byte>, cut: nat -> nat)
    requires sock.Valid() && sock.status == Open && sock.received == [] && sock.buf == null
    modifies sock, sock.shared
    ensures sock.Valid()
    ensures var o := Deframe(stream, sock.accept);
            && sock.delivered == o.messages
            && sock.status == (if o.tail.Broken? then Refused else Open)
            && (sock.status == Open ==> sock.BufferOk() && sock.Pending() == o.tail.pending)
  {
    var at, round := 0, 0;
    while at < |stream| && sock.status == Open
      invariant 0 <= at <= |stream|
      invariant sock.Valid() && sock.status != HungUp
      invariant sock.received == stream[..at]
      invariant sock.buf == null || fresh(sock.buf)
      decreases |stream| - at
    {
      var k := cut(round) % sock.ReadLimit() + 1;
      if k > |stream| - at {
        k := |stream| - at;
      }
      assert stream[..at] + stream[at..at + k] == stream[..at + k];
      sock.Receive(stream[at..at + k]);
      at, round := at + k, round + 1;
    }
    assert stream[..at] + stream[at..] == stream;
    DeframeAppend(stream[..at], stream[at..], sock.accept);
    assert at == |stream| ==> stream[..at] == stream;
  }
}
