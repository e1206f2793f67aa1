/**
 * Requests on the wire: the frame that `_mevt_trigger` and `pack_hdf` write into the
 * payload buffer of a client, and what `parse_message` and `unpack_data_str` make of it.
 */
module Packet {
  import opened Bytes
  import opened Framing

  const MAX_PACKET_LEN: nat := MAX_MESSAGE
  const RESERVE_SIZE: nat := 512
  const ROOM: nat := MAX_PACKET_LEN - RESERVE_SIZE
  const PROTO_VER: nat := 1
  const TWO28: nat := 0x1000_0000
  const DATA_TYPE_EOF: nat := 0
  const DATA_TYPE_STRING: nat := 3
  const ROOT: seq<Byte> := [114, 111, 111, 116]

  datatype Request = Request(id: nat, cmd: nat, flags: nat, ename: seq<Byte>, text: seq<Byte>)

  /** The contents of a C string. */
  predicate CString(s: seq<Byte>) {
    forall i :: 0 <= i < |s| ==> s[i] != 0
  }

  predicate WellFormed(r: Request) {
    r.id < TWO28 && r.cmd < TWO16 && r.flags < TWO16 && CString(r.ename) && CString(r.text)
  }

  // ----- What the client writes -----

  /** The bytes of a text that go into a packet: all of it and its NUL, or as much as there is room for. */
  function Carried(text: seq<Byte>): (v: seq<Byte>)
    ensures |v| == if |text| + 1 > ROOM then ROOM else |text| + 1
  {
    if |text| + 1 > ROOM then (text + [0])[..ROOM] else text + [0]
  }

  /** `pack_hdf`: a string cell named root, and the word that ends the packet. */
  function Cell(text: seq<Byte>): (r: seq<Byte>)
    ensures |r| == 20 + |Carried(text)|
  {
    var v := Carried(text);
    Word32(DATA_TYPE_STRING) + (Word32(|ROOT|) + (ROOT + (Word32(|v|) + (v + Word32(DATA_TYPE_EOF)))))
  }

  function Payload(ename: seq<Byte>, text: seq<Byte>): (r: seq<Byte>)
    requires |ename| < TWO32
    ensures |r| == 24 + |ename| + |Carried(text)|
  {
    Word32(|ename|) + (ename + Cell(text))
  }

  /** The message inside a request's frame. */
  function Body(r: Request): (m: Message)
    requires WellFormed(r) && |r.ename| < TWO32
    ensures |m| == 32 + |r.ename| + |Carried(r.text)|
  {
    Word32(PROTO_VER * TWO28 + r.id) + (Word16(r.cmd) + (Word16(r.flags) + Payload(r.ename, r.text)))
  }

  /** The frame of a request fits the payload buffer. */
  predicate Fits(ename: seq<Byte>, text: seq<Byte>) {
    36 + |ename| + |Carried(text)| <= MAX_PACKET_LEN
  }

  /** Module names of up to 476 bytes are the ones for which every text fits. */
  lemma NamesThatFit(ename: seq<Byte>)
    ensures |ename| <= 476 <==> forall text :: CString(text) ==> Fits(ename, text)
  {
    var longest := seq(ROOM, _ => 1);
    assert CString(longest);
    if forall text :: CString(text) ==> Fits(ename, text) {
      assert Fits(ename, longest);
    }
  }

  // ----- What the server reads -----

  /** A read past the end of the message finds bytes that are not part of it: `Stray`. */
  datatype Unpacked = Stray | NotString | Unpacked(text: seq<Byte>, total: nat)

  function NulIndex(s: seq<Byte>): (n: nat)
    ensures n <= |s| && (n < |s| ==> s[n] == 0)
    ensures CString(s[..n])
  {
    if s == [] || s[0] == 0 then 0 else 1 + NulIndex(s[1..])
  }

  /**
   * `unpack_data_str`: the text is taken up to its NUL, whatever the length word says; the
   * total counts 32 bits and four bytes more than the cell has.
   */
  function Unpack(s: seq<Byte>): Unpacked {
    if |s| < 4 then Stray
    else if Read32(s, 0) != DATA_TYPE_STRING then NotString
    else UnpackKey(s[4..])
  }

  function UnpackKey(s: seq<Byte>): Unpacked {
    if |s| < 4 then Stray
    else
      var ksize := Read32(s, 0);
      var rest := s[4..];
      if ksize > |rest| then Stray else UnpackValue(ksize, rest[ksize..])
  }

  function UnpackValue(ksize: nat, s: seq<Byte>): Unpacked {
    if |s| < 4 then Stray else UnpackText(ksize, Read32(s, 0), s[4..])
  }

  function UnpackText(ksize: nat, vsize: nat, s: seq<Byte>): Unpacked {
    var n := NulIndex(s);
    if n == |s| then Stray else Unpacked(s[..n], (16 + ksize + vsize) % TWO32)
  }

  datatype Verdict = TooShort | BadVersion | Refused | OutOfBounds | Accepted(request: Request)

  /** `parse_message`. */
  function Decode(m: Message): Verdict {
    if |m| < 17 then TooShort
    else
      var hdr := Read32(m, 0);
      if hdr / TWO28 != PROTO_VER then BadVersion
      else DecodeCommand(hdr % TWO28, m[4..])
  }

  function DecodeCommand(id: nat, s: seq<Byte>): Verdict
    requires |s| >= 13
  {
    DecodeEvent(id, Read16(s, 0), Read16(s[2..], 0), s[2..][2..])
  }

  /** `parse_event`, as far as the queue. */
  function DecodeEvent(id: nat, cmd: nat, flags: nat, payload: seq<Byte>): Verdict
    requires |payload| >= 9
  {
    var esize := Read32(payload, 0);
    var rest := payload[4..];
    if esize > |rest| then OutOfBounds
    else
      match Unpack(rest[esize..])
      case Stray => OutOfBounds
      case NotString => Refused
      case Unpacked(text, rsize) =>
        if rsize == 0 || (rsize + esize) % TWO32 + 4 > MAX_PACKET_LEN || |payload| < esize then Refused
        else Accepted(Request(id, cmd, flags, rest[..esize], text))
  }

  /** `parse_message` reports failure, which closes the connection, only before it looks at the payload. */
  predicate ServerAccepts(m: Message) {
    !Decode(m).TooShort? && !Decode(m).BadVersion?
  }

  // ----- The server reads what the client wrote -----

  lemma Word32First(v: nat, rest: seq<Byte>)
    requires v < TWO32
    ensures var s := Word32(v) + rest; |s| == 4 + |rest| && Read32(s, 0) == v && s[4..] == rest
  {
    ReadPrefix(Word32(v), rest);
    hide Word32, Read32;
  }

  lemma Word16First(v: nat, rest: seq<Byte>)
    requires v < TWO16
    ensures var s := Word16(v) + rest; |s| == 2 + |rest| && Read16(s, 0) == v && s[2..] == rest
  {}

  lemma BytesFirst(a: seq<Byte>, rest: seq<Byte>)
    ensures var s := a + rest; |s| == |a| + |rest| && s[..|a|] == a && s[|a|..] == rest
  {}

  /** Of a text too long for the packet, exactly the first 65024 bytes arrive. */
  function Arriving(text: seq<Byte>): seq<Byte> {
    if |text| > ROOM then text[..ROOM] else text
  }

  lemma {:induction false} NulAt(a: seq<Byte>, rest: seq<Byte>)
    requires CString(a)
    ensures NulIndex(a + [0] + rest) == |a|
  {
    var s := a + [0] + rest;
    if a == [] {
    } else {
      NulAt(a[1..], rest);
      assert s[1..] == a[1..] + [0] + rest;
    }
  }

  /** The text ends at its own NUL, or at the first byte of the word that ends the packet. */
  lemma TextReadsBack(text: seq<Byte>)
    requires CString(text)
    ensures var s := Carried(text) + Word32(DATA_TYPE_EOF);
            var n := NulIndex(s);
            n < |s| && s[..n] == Arriving(text)
  {
    var s := Carried(text) + Word32(DATA_TYPE_EOF);
    var a := Arriving(text);
    assert s[..|a|] == a && s[|a|] == 0;
    assert s == a + [0] + s[|a| + 1..];
    NulAt(a, s[|a| + 1..]);
  }

  lemma CellReadsBack(text: seq<Byte>)
    requires CString(text)
    ensures Unpack(Cell(text)) == Unpacked(Arriving(text), |Cell(text)|)
  {
    TextReadsBack(text);
    var v := Carried(text);
    var s3 := v + Word32(DATA_TYPE_EOF);
    assert UnpackText(|ROOT|, |v|, s3) == Unpacked(Arriving(text), 20 + |v|);
    hide Word32, Read32, NulIndex, Carried, CString, Arriving, UnpackText, UnpackValue, UnpackKey;
    var s2 := Word32(|v|) + s3;
    var s1 := ROOT + s2;
    var s0 := Word32(|ROOT|) + s1;
    Word32First(DATA_TYPE_STRING, s0);
    assert Unpack(Cell(text)) == UnpackKey(s0);
    NextKey(ROOT, s2);
    NextValue(|ROOT|, |v|, s3);
  }

  lemma NextKey(key: seq<Byte>, s: seq<Byte>)
    requires |key| < TWO32
    ensures UnpackKey(Word32(|key|) + (key + s)) == UnpackValue(|key|, s)
  {
    hide Word32, Read32, UnpackValue;
    Word32First(|key|, key + s);
    BytesFirst(key, s);
  }

  lemma NextValue(ksize: nat, vsize: nat, s: seq<Byte>)
    requires vsize < TWO32
    ensures UnpackValue(ksize, Word32(vsize) + s) == UnpackText(ksize, vsize, s)
  {
    hide Word32, Read32, UnpackText;
    Word32First(vsize, s);
  }

  /** The server decodes what the client encoded, the text as far as it went. */
  lemma RequestReadsBack(r: Request)
    requires WellFormed(r) && Fits(r.ename, r.text)
    ensures Decode(Body(r)) == Accepted(r.(text := Arriving(r.text)))
  {
    hide WellFormed, Carried, Arriving, Decode, DecodeEvent, Body, Payload;
    HeaderReadsBack(r);
    PayloadReadsBack(r);
  }

  lemma HeaderReadsBack(r: Request)
    requires WellFormed(r) && |r.ename| < TWO32
    ensures Decode(Body(r)) == DecodeEvent(r.id, r.cmd, r.flags, Payload(r.ename, r.text))
  {
    assert Body(r) == HeaderForm(r.id, r.cmd, r.flags, Payload(r.ename, r.text)) by {
      hide Word32, Word16, Payload;
    }
    hide WellFormed, DecodeEvent, Decode, Body, Payload, HeaderForm;
    HeaderDecodes(r.id, r.cmd, r.flags, Payload(r.ename, r.text));
  }

  lemma PayloadReadsBack(r: Request)
    requires WellFormed(r) && Fits(r.ename, r.text)
    ensures DecodeEvent(r.id, r.cmd, r.flags, Payload(r.ename, r.text)) == Accepted(r.(text := Arriving(r.text)))
  {
    hide Word32, Unpack, Carried, CString, Arriving, DecodeEvent, Cell;
    CellReadsBack(r.text);
    EventReadsBack(r, Cell(r.text));
  }

  lemma NextHeader(id: nat, s: seq<Byte>)
    requires id < TWO28 && |s| >= 13
    ensures Decode(Word32(PROTO_VER * TWO28 + id) + s) == DecodeCommand(id, s)
  {
    hide Word32, Read32, DecodeCommand;
    Word32First(PROTO_VER * TWO28 + id, s);
  }

  lemma NextCommand(id: nat, cmd: nat, flags: nat, s: seq<Byte>)
    requires cmd < TWO16 && flags < TWO16 && |s| >= 9
    ensures DecodeCommand(id, Word16(cmd) + (Word16(flags) + s)) == DecodeEvent(id, cmd, flags, s)
  {
    hide Word16, Read16, DecodeEvent;
    Word16First(cmd, Word16(flags) + s);
    Word16First(flags, s);
  }

  lemma EventReadsBack(r: Request, c: seq<Byte>)
    requires |r.ename| + |c| + 4 <= MAX_PACKET_LEN && |c| >= 20
    requires Unpack(c) == Unpacked(Arriving(r.text), |c|)
    ensures DecodeEvent(r.id, r.cmd, r.flags, Word32(|r.ename|) + (r.ename + c)) ==
            Accepted(r.(text := Arriving(r.text)))
  {
    hide Word32, Read32, Unpack, Arriving;
    Word32First(|r.ename|, r.ename + c);
    BytesFirst(r.ename, c);
  }

  /** A request whose frame fits is taken as one frame and decoded; any other breaks the stream. */
  lemma RequestArrives(r: Request, rest: seq<Byte>)
    requires WellFormed(r) && |r.ename| < TWO32 && |Body(r)| + 4 < TWO32
    ensures var m := Body(r);
            var s := Word32(|m| + 4) + m + rest;
            Deframe(s, ServerAccepts) ==
              if Fits(r.ename, r.text) then After([m], Deframe(rest, ServerAccepts)) else Outcome([], Broken)
  {
    var m := Body(r);
    if Fits(r.ename, r.text) {
      RequestReadsBack(r);
      DeframeFrame(m, rest, ServerAccepts);
    } else {
      hide Word32, Read32, Body;
      Word32First(|m| + 4, m + rest);
      assert Word32(|m| + 4) + m + rest == Word32(|m| + 4) + (m + rest);
    }
  }

  // ----- Which messages are taken -----

  /** A message is not refused outright exactly if it has 17 bytes and its first four bits are the version 1. */
  lemma AcceptedMessages(m: Message)
    ensures ServerAccepts(m) <==> |m| >= 17 && m[0] / 16 == 1
  {
    hide DecodeCommand;
    if |m| >= 17 {
      CommandIsLater(Read32(m, 0) % TWO28, m[4..]);
      TopBits(m);
    }
  }

  lemma CommandIsLater(id: nat, s: seq<Byte>)
    requires |s| >= 13
    ensures !DecodeCommand(id, s).TooShort? && !DecodeCommand(id, s).BadVersion?
  {
    hide Unpack, Read16, Read32;
  }

  lemma TopBits(s: seq<Byte>)
    requires |s| >= 4
    ensures Read32(s, 0) / TWO28 == s[0] / 16
  {
    var h, l := s[0] / 16, s[0] % 16;
    var low := 0x1_0000 * (256 * l + s[1]) + Read16(s, 2);
    assert Read32(s, 0) == TWO28 * h + low && 0 <= low < TWO28;
  }

  /** The bytes of a small request. */
  lemma SmallRequest()
    ensures WellFormed(Request(1, 2, 3, [97], [98]))
    ensures Body(Request(1, 2, 3, [97], [98])) ==
            [16, 0, 0, 1] + ([0, 2] + ([0, 3] + ([0, 0, 0, 1] + ([97] +
            ([0, 0, 0, 3] + ([0, 0, 0, 4] + ([114, 111, 111, 116] + ([0, 0, 0, 2] + ([98, 0] + [0, 0, 0, 0])))))))))
  {
    BigEndian(16, 0, 0, 1);
    BigEndian(0, 2, 0, 3);
    BigEndian(0, 3, 0, 0);
    BigEndian(0, 0, 0, 1);
    BigEndian(0, 0, 0, 3);
    BigEndian(0, 0, 0, 4);
    BigEndian(0, 0, 0, 2);
    BigEndian(0, 0, 0, 0);
    hide Word32, Word16, Read32, Read16;
    assert Carried([98]) == [98, 0];
  }

  /**
   * The cell of a message: a string under some key, ended by its NUL, whatever length it
   * states and whatever follows.
   */
  function CellForm(key: seq<Byte>, vsize: nat, text: seq<Byte>, rest: seq<Byte>): seq<Byte>
    requires |key| < TWO32 && vsize < TWO32
  {
    Word32(DATA_TYPE_STRING) + (Word32(|key|) + (key + (Word32(vsize) + (text + ([0] + rest)))))
  }

  function EventForm(ename: seq<Byte>, cell: seq<Byte>): (r: seq<Byte>)
    requires |ename| < TWO32
    ensures |r| == 4 + |ename| + |cell|
  {
    Word32(|ename|) + (ename + cell)
  }

  function HeaderForm(id: nat, cmd: nat, flags: nat, payload: seq<Byte>): (r: seq<Byte>)
    requires id < TWO28 && cmd < TWO16 && flags < TWO16
    ensures |r| == 8 + |payload|
  {
    Word32(TWO28 + id) + (Word16(cmd) + (Word16(flags) + payload))
  }

  /** The sizes of a cell, as the server adds them up, pass its checks. */
  predicate SizesPass(total: nat, esize: nat) {
    total != 0 && (total + esize) % TWO32 + 4 <= 65536
  }

  /** What the server takes for the request r. */
  predicate HasForm(m: Message, r: Request, key: seq<Byte>, vsize: nat, rest: seq<Byte>) {
    && r.id < TWO28 && r.cmd < TWO16 && r.flags < TWO16 && |r.ename| < TWO32 && |key| < TWO32 && vsize < TWO32
    && CString(r.text)
    && m == HeaderForm(r.id, r.cmd, r.flags, EventForm(r.ename, CellForm(key, vsize, r.text, rest)))
    && SizesPass((16 + |key| + vsize) % TWO32, |r.ename|)
  }

  lemma FormUnpacks(key: seq<Byte>, vsize: nat, text: seq<Byte>, rest: seq<Byte>)
    requires |key| < TWO32 && vsize < TWO32 && CString(text)
    ensures Unpack(CellForm(key, vsize, text, rest)) == Unpacked(text, (16 + |key| + vsize) % TWO32)
  {
    var s3 := text + ([0] + rest);
    NulAt(text, rest);
    assert s3 == text + [0] + rest && s3[..|text|] == text;
    assert UnpackText(|key|, vsize, s3) == Unpacked(text, (16 + |key| + vsize) % TWO32);
    hide Word32, Read32, UnpackText, UnpackValue, UnpackKey, CString;
    Word32First(DATA_TYPE_STRING, Word32(|key|) + (key + (Word32(vsize) + s3)));
    NextKey(key, Word32(vsize) + s3);
    NextValue(|key|, vsize, s3);
  }

  lemma FormDecodes(m: Message, r: Request, key: seq<Byte>, vsize: nat, rest: seq<Byte>)
    requires HasForm(m, r, key, vsize, rest)
    ensures Decode(m) == Accepted(r)
  {
    var c := CellForm(key, vsize, r.text, rest);
    FormUnpacks(key, vsize, r.text, rest);
    hide Word32, Unpack, CString, DecodeEvent, Decode, CellForm, EventForm, HeaderForm, SizesPass;
    CellSize(key, vsize, r.text, rest);
    HeaderDecodes(r.id, r.cmd, r.flags, EventForm(r.ename, c));
    EventDecodes(r, c, (16 + |key| + vsize) % TWO32);
  }

  lemma CellSize(key: seq<Byte>, vsize: nat, text: seq<Byte>, rest: seq<Byte>)
    requires |key| < TWO32 && vsize < TWO32
    ensures |CellForm(key, vsize, text, rest)| >= 13
  {
    hide Word32;
  }

  lemma HeaderDecodes(id: nat, cmd: nat, flags: nat, s: seq<Byte>)
    requires id < TWO28 && cmd < TWO16 && flags < TWO16 && |s| >= 9
    ensures Decode(HeaderForm(id, cmd, flags, s)) == DecodeEvent(id, cmd, flags, s)
  {
    hide Word32, Word16, DecodeEvent, DecodeCommand, Decode;
    NextHeader(id, Word16(cmd) + (Word16(flags) + s));
    NextCommand(id, cmd, flags, s);
  }

  lemma EventDecodes(r: Request, c: seq<Byte>, total: nat)
    requires |r.ename| < TWO32 && |c| >= 5 && Unpack(c) == Unpacked(r.text, total) && SizesPass(total, |r.ename|)
    ensures DecodeEvent(r.id, r.cmd, r.flags, EventForm(r.ename, c)) == Accepted(r)
  {
    hide Word32, Read32, Unpack;
    Word32First(|r.ename|, r.ename + c);
    BytesFirst(r.ename, c);
  }

  lemma FrontWord32(s: seq<Byte>)
    requires |s| >= 4
    ensures s == Word32(Read32(s, 0)) + s[4..]
  {
    WordOfRead(s, 0);
    hide Word32, Read32;
    assert s == s[0..4] + s[4..];
  }

  lemma FrontWord16(s: seq<Byte>)
    requires |s| >= 2
    ensures s == Word16(Read16(s, 0)) + s[2..]
  {
    assert Word16(Read16(s, 0)) == s[..2];
  }

  lemma Cut(s: seq<Byte>, n: nat)
    requires n <= |s|
    ensures s == s[..n] + s[n..]
  {}

  lemma UnpackedForm(s: seq<Byte>) returns (key: seq<Byte>, vsize: nat, rest: seq<Byte>)
    requires Unpack(s).Unpacked?
    ensures |key| < TWO32 && vsize < TWO32 && CString(Unpack(s).text)
    ensures s == CellForm(key, vsize, Unpack(s).text, rest)
    ensures Unpack(s).total == (16 + |key| + vsize) % TWO32
  {
    hide Word32, Read32, NulIndex, CString;
    var s1 := s[4..];
    var ksize := Read32(s1, 0);
    var s2 := s1[4..];
    key := s2[..ksize];
    var s3 := s2[ksize..];
    vsize := Read32(s3, 0);
    var s4 := s3[4..];
    var n := NulIndex(s4);
    rest := s4[n + 1..];
    FrontWord32(s);
    FrontWord32(s1);
    Cut(s2, ksize);
    FrontWord32(s3);
    Cut(s4, n);
    assert s4[n..] == [0] + rest;
  }

  lemma EventBack(id: nat, cmd: nat, flags: nat, payload: seq<Byte>) returns (ename: seq<Byte>, c: seq<Byte>)
    requires |payload| >= 9 && DecodeEvent(id, cmd, flags, payload).Accepted?
    ensures |ename| < TWO32 && payload == EventForm(ename, c) && Unpack(c).Unpacked?
    ensures DecodeEvent(id, cmd, flags, payload).request == Request(id, cmd, flags, ename, Unpack(c).text)
    ensures SizesPass(Unpack(c).total, |ename|)
  {
    hide Word32, Read32, Unpack;
    var esize := Read32(payload, 0);
    var rest := payload[4..];
    ename, c := rest[..esize], rest[esize..];
    FrontWord32(payload);
    Cut(rest, esize);
  }

  /** A message of the version is its header and its payload. */
  lemma HeaderSplits(m: Message)
    requires |m| >= 17 && Read32(m, 0) / TWO28 == 1
    ensures var id, cmd, flags := Read32(m, 0) % TWO28, Read16(m[4..], 0), Read16(m[4..][2..], 0);
            m == HeaderForm(id, cmd, flags, m[4..][2..][2..])
  {
    FrontWord32(m);
    FrontWord16(m[4..]);
    FrontWord16(m[4..][2..]);
    HeaderBack(m);
    hide Word32, Word16, Read32, Read16;
  }

  /** Every message that is taken for a request has the form of one. */
  lemma DecodedHasForm(m: Message) returns (key: seq<Byte>, vsize: nat, rest: seq<Byte>)
    requires Decode(m).Accepted?
    ensures HasForm(m, Decode(m).request, key, vsize, rest)
  {
    hide Read32, Read16, DecodeEvent, HeaderForm, EventForm, CellForm, Unpack, CString, SizesPass;
    HeaderSplits(m);
    var id, cmd, flags := Read32(m, 0) % TWO28, Read16(m[4..], 0), Read16(m[4..][2..], 0);
    var ename, c := EventBack(id, cmd, flags, m[4..][2..][2..]);
    key, vsize, rest := UnpackedForm(c);
  }

  /** The decoder accepts exactly the messages of that form. */
  lemma DecodesExactly(m: Message, r: Request)
    ensures Decode(m) == Accepted(r) <==> exists key, vsize: nat, rest :: HasForm(m, r, key, vsize, rest)
  {
    hide Decode, HasForm;
    if Decode(m) == Accepted(r) {
      var key, vsize, rest := DecodedHasForm(m);
    }
    if exists key, vsize: nat, rest :: HasForm(m, r, key, vsize, rest) {
      var key, vsize: nat, rest :| HasForm(m, r, key, vsize, rest);
      FormDecodes(m, r, key, vsize, rest);
    }
  }

  lemma HeaderBack(m: Message)
    requires |m| >= 4 && Read32(m, 0) / TWO28 == 1
    ensures Read32(m, 0) == TWO28 + Read32(m, 0) % TWO28
  {}
}
