/**
 * The client's side of one connection: the receive step of `el_routine` with `msparse_buf`.
 *
 * Unlike the server, the client always asks for a full buffer and appends what it gets to
 * the bytes it has kept, so one private buffer may hold many messages. A bad length is
 * reported and the bytes are left where they are.
 */
module ClientStream {
  import opened Bytes
  import opened Framing
  import opened TcpSocket

  /** The client hands every complete message on, whatever `msparse_msg` makes of it. */
  const ANY: Message -> bool := (m: Message) => true

  class Link {
    const shared: array<Byte>
    var buf: array?<Byte>
    var len: nat
    var pktsize: nat
    var excess: nat
    var delivered: seq<Message>
    ghost var received: seq<Byte>

    constructor (shared: array<Byte>)
      requires shared.Length == SBSIZE
      ensures Valid() && Legal() && buf == null && received == [] && this.shared == shared
    {
      this.shared := shared;
      buf, len, pktsize, excess, delivered, received := null, 0, 0, 0, [], [];
    }

    ghost predicate Legal()
      reads this
    {
      Deframe(received, ANY).tail.Waiting?
    }

    ghost function Pending(): seq<Byte>
      reads this, buf
      requires buf != null ==> len <= buf.Length
    {
      if buf == null then [] else buf[..len]
    }

    ghost predicate BufferOk()
      reads this, buf
    {
      && shared.Length == SBSIZE
      && excess == 0
      && (buf != null ==>
            && buf.Length == SBSIZE && buf != shared
            && len <= MAX_MESSAGE
            && Incomplete(buf[..len]))
    }

    /** Up to the first bad length, delivered and kept bytes are those of the framing function. */
    ghost predicate Valid()
      reads this, buf
    {
      var o := Deframe(received, ANY);
      && delivered == o.messages
      && (o.tail.Waiting? ==> BufferOk() && o.tail.pending == Pending())
    }

    /** What is kept and what arrives fit the private buffer together. */
    predicate Fits(n: nat)
      reads this
    {
      n <= SBSIZE && (buf != null ==> len + n <= SBSIZE)
    }

    method Receive(chunk: seq<Byte>)
      requires Valid() && Legal()
      requires |chunk| > 0 && Fits(|chunk|)
      modifies this, buf, shared
      ensures Valid()
      ensures received == old(received) + chunk
      ensures buf == null || buf == old(buf) || fresh(buf)
    {
      hide Deframe;
      DeframeAppend(received, chunk, ANY);
      received := received + chunk;
      Store(shared, 0, chunk);
      assert shared[..|chunk|] == chunk;
      if buf == null {
        assert [] + chunk == chunk;
        Parse(shared, |chunk|);
      } else {
        ghost var pending := buf[..len];
        Store(buf, len, shared[..|chunk|]);
        len := len + |chunk|;
        assert buf[..len] == pending + chunk;
        Parse(buf, len);
      }
    }

    /** `msparse_buf`: hand on the first message and go round again with the rest. */
    method Parse(a: array<Byte>, n: nat)
      requires shared.Length == SBSIZE && excess == 0
      requires a == if buf == null then shared else buf
      requires 0 < n <= SBSIZE
      requires buf != null ==> buf.Length == SBSIZE && buf != shared
      modifies this, a
      ensures received == old(received)
      ensures buf == null || buf == old(buf) || fresh(buf)
      ensures var o := old(Deframe(a[..n], ANY));
              && delivered == old(delivered) + o.messages
              && (o.tail.Waiting? ==> BufferOk() && o.tail.pending == Pending())
      decreases n
    {
      hide Deframe, Read32;
      ghost var s := a[..n];
      DeframeStep(s, ANY);
      var total: nat := 4;
      if n >= 4 {
        total := Read32(a[..n], 0);
        if total > 64 * 1024 || total <= 8 {
          return;
        }
      }
      if total > n {
        KeepPartial(a, n);
        pktsize := total;
        return;
      }
      var size := n;
      if total < n {
        excess := n - total;
        size := total;
      }
      assert a[..n] == s;
      var m := a[..n][4..size];
      delivered := delivered + [m];
      if excess > 0 {
        Copy(a, size, a, excess);
        len := excess;
        excess := 0;
        assert a[..len] == s[total..];
        ghost var rest := Deframe(s[total..], ANY);
        Parse(a, len);
        assert delivered == old(delivered) + ([m] + rest.messages);
        return;
      }
      DeframeStep(s[total..], ANY);
      buf := null;
    }

    method KeepPartial(a: array<Byte>, n: nat)
      requires n <= a.Length == SBSIZE
      requires buf != null ==> a == buf
      modifies this`buf, this`len
      ensures a[..] == old(a[..])
      ensures buf != null && buf.Length == SBSIZE && len == n && buf[..n] == a[..n]
      ensures if old(buf) == null then fresh(buf) else buf == old(buf)
    {
      if buf == null {
        var own := new Byte[SBSIZE](_ => 0);
        Copy(a, 0, own, n);
        buf := own;
      }
      len := n;
    }
  }

  /**
   * Every cutting of a legal stream in which what is kept and what arrives always fit the
   * buffer delivers the messages of the whole stream.
   */
  method ReceiveAll(link: Link, chunks: seq<seq<Byte>>) returns (complete: bool)
    requires link.Valid() && link.received == [] && link.buf == null
    requires Deframe(Concat(chunks), ANY).tail.Waiting?
    requires forall c <- chunks :: 0 < |c|
    modifies link, link.shared
    ensures complete ==>
              var o := Deframe(Concat(chunks), ANY);
              link.delivered == o.messages && link.BufferOk() && link.Pending() == o.tail.pending
    ensures complete <== forall i :: 0 <= i < |chunks| ==> |chunks[i]| <= SBSIZE - MAX_MESSAGE
  {
    hide Deframe;
    DeframeStep([], ANY);
    var i := 0;
    while i < |chunks|
      invariant 0 <= i <= |chunks|
      invariant link.Valid() && link.Legal()
      invariant link.received == Concat(chunks[..i])
      invariant link.buf == null || fresh(link.buf)
    {
      assert chunks[..i + 1][..i] == chunks[..i];
      LegalPrefix(chunks, i + 1);
      if !link.Fits(|chunks[i]|) {
        return false;
      }
      link.Receive(chunks[i]);
      i := i + 1;
    }
    assert chunks[..i] == chunks;
    return true;
  }

  lemma {:induction false} LegalPrefix(chunks: seq<seq<Byte>>, i: nat)
    requires i <= |chunks| && Deframe(Concat(chunks), ANY).tail.Waiting?
    ensures Deframe(Concat(chunks[..i]), ANY).tail.Waiting?
    decreases |chunks|
  {
    hide Deframe;
    if i == |chunks| {
      assert chunks[..i] == chunks;
    } else {
      var init := chunks[..|chunks| - 1];
      DeframeAppend(Concat(init), chunks[|chunks| - 1], ANY);
      LegalPrefix(init, i);
      assert init[..i] == chunks[..i];
    }
  }
}
