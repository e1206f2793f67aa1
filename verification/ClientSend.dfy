/**
 * The sending half of a client: the request counter, and the payload buffer in which
 * `_mevt_trigger` builds one frame after another.
 */
module ClientSend {
  import opened Bytes
  import opened Framing
  import opened Packet
  import TcpSocket

  const LAST_ID: nat := 0x0FFF_FFFD

  function NextId(id: nat): nat {
    if id > 0x0FFF_FFFC then 1 else id + 1
  }

  class Client {
    var reqid: nat
    const payload: array<Byte>
    var psize: nat

    ghost predicate Valid()
      reads this
    {
      payload.Length == MAX_PACKET_LEN && reqid <= LAST_ID
    }

    constructor ()
      ensures Valid() && fresh(payload) && reqid == 0
    {
      reqid, payload, psize := 0, new Byte[MAX_PACKET_LEN](_ => 0), 0;
    }

    /** Write bytes at the end of what has been written behind the length word. */
    method Put(at: nat, bytes: seq<Byte>)
      requires 4 <= at && at + |bytes| <= payload.Length
      modifies payload
      ensures payload[4..at + |bytes|] == old(payload[4..at]) + bytes
      ensures payload[4..at] == old(payload[4..at])
    {
      TcpSocket.Store(payload, at, bytes);
    }

    /** `pack_data_str` under the key root. */
    method PackDataStr(text: seq<Byte>, at: nat) returns (n: nat)
      requires 4 <= at && at + 17 + |Carried(text)| <= payload.Length
      modifies payload
      ensures n == 16 + |Carried(text)|
      ensures payload[4..at + n] == old(payload[4..at]) + Word32(DATA_TYPE_STRING) + Word32(|ROOT|) + ROOT
                                    + Word32(|Carried(text)|) + Carried(text)
    {
      var vsize := |text| + 1;
      if vsize > MAX_PACKET_LEN - RESERVE_SIZE {
        vsize := MAX_PACKET_LEN - RESERVE_SIZE;
      }
      var v := (text + [0])[..vsize];
      assert v == Carried(text);
      hide Word32, Read32, Carried;
      PutKey(at);
      Put(at + 12, Word32(vsize));
      Put(at + 16, v);
      n := 16 + vsize;
      Put(at + n, [0]);
    }

    method PutKey(at: nat)
      requires 4 <= at && at + 12 <= payload.Length
      modifies payload
      ensures payload[4..at + 12] == old(payload[4..at]) + Word32(DATA_TYPE_STRING) + Word32(|ROOT|) + ROOT
    {
      hide Word32, Read32;
      Put(at, Word32(DATA_TYPE_STRING));
      Put(at + 4, Word32(|ROOT|));
      Put(at + 8, ROOT);
    }

    /** `pack_hdf`. */
    method PackHdf(text: seq<Byte>, at: nat) returns (n: nat)
      requires 4 <= at && at + 20 + |Carried(text)| <= payload.Length
      modifies payload
      ensures n == |Cell(text)|
      ensures payload[4..at + n] == old(payload[4..at]) + Cell(text)
    {
      hide Word32, Read32, Carried, Cell;
      CellInPieces(payload[4..at], text);
      n := PackDataStr(text, at);
      Put(at + n, Word32(DATA_TYPE_EOF));
      n := n + 4;
    }

    /**
     * `_mevt_trigger` up to the send: the buffer holds the frame of the request, under the
     * next id.
     */
    method Trigger(ename: seq<Byte>, cmd: nat, flags: nat, text: seq<Byte>) returns (r: Request)
      requires Valid() && CString(ename) && CString(text) && cmd < TWO16 && flags < TWO16
      requires Fits(ename, text)
      modifies this, payload
      ensures Valid() && reqid == NextId(old(reqid)) && 1 <= reqid
      ensures r == Request(reqid, cmd, flags, ename, text) && WellFormed(r) && Sendable(Body(r))
      ensures psize <= payload.Length && payload[..psize] == Frame(Body(r))
    {
      reqid := NextId(reqid);
      r := Request(reqid, cmd, flags, ename, text);
      hide Word32, Read32, Body, CString, Carried;
      Write(r);
      PutLength(psize);
    }

    method Write(r: Request)
      requires WellFormed(r) && Fits(r.ename, r.text) && payload.Length == MAX_PACKET_LEN
      modifies this`psize, payload
      ensures psize == 4 + |Body(r)| <= payload.Length && payload[4..psize] == Body(r)
    {
      hide Word32, Read32, Word16, Read16, Carried, Cell, Body, CString;
      BodyInPieces(r);
      Header(r.id, r.cmd, r.flags, r.ename);
      psize := 16 + |r.ename|;
      var n := PackHdf(r.text, psize);
      psize := psize + n;
    }

    /** `tcp_srv_send` fills in the length word last. */
    method PutLength(n: nat)
      requires 4 <= n <= payload.Length < TWO32
      modifies payload
      ensures payload[..n] == Word32(n) + old(payload[4..n])
    {
      hide Word32, Read32;
      TcpSocket.Store(payload, 0, Word32(n));
    }

    method Header(id: nat, cmd: nat, flags: nat, ename: seq<Byte>)
      requires id < TWO28 && cmd < TWO16 && flags < TWO16 && 16 + |ename| <= payload.Length < TWO32
      modifies payload
      ensures payload[4..16 + |ename|] ==
              Word32(PROTO_VER * TWO28 + id) + Word16(cmd) + Word16(flags) + Word32(|ename|) + ename
    {
      hide Word32, Read32, Word16, Read16;
      Put(4, Word32(PROTO_VER * TWO28 + id));
      Put(8, Word16(cmd));
      Put(10, Word16(flags));
      Put(12, Word32(|ename|));
      Put(16, ename);
    }
  }

  lemma CellInPieces(before: seq<Byte>, text: seq<Byte>)
    ensures before + Word32(DATA_TYPE_STRING) + Word32(|ROOT|) + ROOT
            + Word32(|Carried(text)|) + Carried(text) + Word32(DATA_TYPE_EOF) == before + Cell(text)
  {
    hide Word32, Read32, Carried;
  }

  lemma BodyInPieces(r: Request)
    requires WellFormed(r) && |r.ename| < TWO32
    ensures Body(r) == Word32(PROTO_VER * TWO28 + r.id) + Word16(r.cmd) + Word16(r.flags) + Word32(|r.ename|) + r.ename
                       + Cell(r.text)
  {
    hide Word32, Read32, Word16, Read16, Carried, Cell;
  }
}
