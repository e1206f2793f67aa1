/**
 * Answers and pushes on their way back: how the server encodes them, how the event loop of
 * a client tells them apart, and which of them its synchronous reader accepts.
 */
module Conversation {
  import opened Bytes
  import opened Framing
  import opened Packet
  import opened ClientSend

  const PUSH_CODE: nat := 10000

  datatype Sent = Push(val: seq<Byte>) | Mini(id: nat, code: nat) | Long(id: nat, code: nat, val: seq<Byte>)

  function Id(s: Sent): nat {
    if s.Push? then 0 else s.id
  }

  function Code(s: Sent): nat {
    if s.Push? then PUSH_CODE else s.code
  }

  /** Ids and codes are words, and the frame is legal. */
  predicate Encodable(s: Sent) {
    Id(s) < TWO32 && Code(s) < TWO32 && (!s.Mini? ==> |s.val| <= MAX_MESSAGE - 16)
  }

  /** What follows the code: the length of the value and the value, or nothing. */
  function Rest(s: Sent): seq<Byte>
    requires Encodable(s)
  {
    if s.Mini? then [] else Word32(|s.val|) + s.val
  }

  /** `tcp_reply_mini`, `tcp_reply_long` and the push of the base plugin. */
  function Encode(s: Sent): (m: Message)
    requires Encodable(s)
    ensures Sendable(m) && |m| == 8 + |Rest(s)|
  {
    Word32(Id(s)) + (Word32(Code(s)) + Rest(s))
  }

  lemma EncodeReadsBack(s: Sent)
    requires Encodable(s)
    ensures var m := Encode(s);
            Read32(m, 0) == Id(s) && Read32(m, 4) == Code(s) && m[8..] == Rest(s)
  {
    hide Word32, Read32, Rest;
    var tail := Word32(Code(s)) + Rest(s);
    Word32First(Id(s), tail);
    Word32First(Code(s), Rest(s));
    ReadLater(Word32(Id(s)), tail);
    assert Encode(s)[8..] == Encode(s)[4..][4..];
  }

  /** The bytes of a push and of an answer. */
  lemma SmallAnswers()
    ensures Encode(Push([97])) == [0, 0, 0, 0, 0, 0, 39, 16, 0, 0, 0, 1, 97]
    ensures Encode(Mini(5, 1000)) == [0, 0, 0, 5, 0, 0, 3, 232]
    ensures Encode(Long(5, 1000, [97])) == [0, 0, 0, 5, 0, 0, 3, 232, 0, 0, 0, 1, 97]
  {
    BigEndian(0, 0, 0, 0);
    BigEndian(0, 0, 39, 16);
    BigEndian(0, 0, 0, 1);
    BigEndian(0, 0, 0, 5);
    BigEndian(0, 0, 3, 232);
    hide Word32, Read32;
  }

  lemma ReadLater(a: seq<Byte>, s: seq<Byte>)
    requires |a| == 4 && |s| >= 4
    ensures Read32(a + s, 4) == Read32(s, 0)
  {}

  // ----- Ids -----

  /** The id of the k-th request of a client. */
  function IdAfter(k: nat): nat {
    if k == 0 then 0 else NextId(IdAfter(k - 1))
  }

  /** Ids run through 1..0x0FFFFFFD, over and over. */
  lemma {:induction false} IdsCycle(k: nat)
    requires k > 0
    ensures IdAfter(k) == 1 + (k - 1) % 0x0FFF_FFFD
    ensures 1 <= IdAfter(k) <= 0x0FFF_FFFD
  {
    if k == 1 {
    } else {
      IdsCycle(k - 1);
    }
  }

  /** Before the counter wraps, the k-th request has id k. */
  lemma IdsCount(k: nat)
    requires 0 < k <= LAST_ID
    ensures IdAfter(k) == k
  {
    IdsCycle(k);
  }

  // ----- What the event loop makes of a message -----

  datatype Kind = IllegalPacket | IsPush | EmptyPush | IsStale | IsReply

  /** `msparse_msg`, for a client whose last request had id `reqid`. */
  function Classify(m: Message, reqid: nat): Kind {
    if |m| < 8 then IllegalPacket
    else if Read32(m, 0) == 0 && Read32(m, 4) == PUSH_CODE then
      if |m| - 8 < 4 then EmptyPush else IsPush
    else if Read32(m, 0) < reqid then IsStale
    else IsReply
  }

  /** The server answers under the id it has read. */
  predicate Answers(s: Sent, m: Message) {
    !s.Push? && Encodable(s) && Decode(m).Accepted? && s.id == Decode(m).request.id
  }

  /**
   * The k-th request of a client is answered under its own id: as long as it is the last
   * one, the answer is a reply, and no answer to any request is ever taken for a push.
   */
  lemma AnswersAreReplies(r: Request, s: Sent, k: nat, latest: nat)
    requires 0 < k <= latest && r.id == IdAfter(k)
    requires WellFormed(r) && Fits(r.ename, r.text) && Answers(s, Body(r))
    ensures s.id == IdAfter(k)
    ensures Classify(Encode(s), IdAfter(k)) == IsReply
    ensures Classify(Encode(s), IdAfter(latest)) == if IdAfter(k) < IdAfter(latest) then IsStale else IsReply
  {
    RequestReadsBack(r);
    IdsCycle(k);
    EncodeReadsBack(s);
    hide Decode, Read32, Encode, Body, Word32;
  }

  lemma PushesArePushes(s: Sent, reqid: nat)
    requires s.Push? && Encodable(s)
    ensures Classify(Encode(s), reqid) == IsPush
  {
    EncodeReadsBack(s);
    hide Read32, Word32;
  }

  lemma ReadIs(s: seq<Byte>, i: nat, a: Byte, b: Byte, c: Byte, d: Byte)
    requires i + 4 <= |s|
    ensures Read32(s, i) == 0x1_0000 * (256 * a + b) + (256 * c + d) <==>
            s[i] == a && s[i + 1] == b && s[i + 2] == c && s[i + 3] == d
  {}

  /** A message is taken for a push exactly if it starts with id 0 and code 10000 and has four bytes more. */
  lemma Pushes(m: Message, reqid: nat)
    ensures Classify(m, reqid) == IsPush <==> |m| >= 12 && m[..8] == [0, 0, 0, 0, 0, 0, 39, 16]
    ensures Classify(m, reqid) == EmptyPush <==> 8 <= |m| < 12 && m[..8] == [0, 0, 0, 0, 0, 0, 39, 16]
  {
    if |m| >= 8 {
      ReadIs(m, 0, 0, 0, 0, 0);
      ReadIs(m, 4, 0, 0, 39, 16);
      hide Read32;
    }
  }

  // ----- The synchronous reader -----

  datatype Got = Got(code: nat, payload: seq<Byte>) | Nothing | Illegible

  /** What recv() returns when there are bytes to read: as many as the network pleases. */
  function Granted(k: nat, stream: seq<Byte>): (n: nat)
    requires stream != []
    ensures 1 <= n <= |stream| && n <= MAX_PACKET_LEN
  {
    var most := if |stream| < MAX_PACKET_LEN then |stream| else MAX_PACKET_LEN;
    if k == 0 then 1 else if k > most then most else k
  }

  /** How the network cuts a stream, and whether its end is a close or only silence. */
  datatype Net = Net(cut: nat -> nat, closes: bool)

  /**
   * `srecv` up to `want` bytes when there are `have`: it fails, unless the peer closes after
   * at least one more byte.
   */
  function Fill(stream: seq<Byte>, have: nat, want: nat, closes: bool): (r: Option<nat>)
    requires have <= |stream| && have < want
    ensures r.Some? ==> have < r.value <= |stream|
  {
    if want <= |stream| then Some(want)
    else if closes && have < |stream| then Some(|stream|)
    else None
  }

  /**
   * `recv_msg`: one recv of k bytes, then what is missing of the length word and of the
   * message. Bytes of later messages that the recv brought along stay in the buffer.
   */
  function RecvMsg(stream: seq<Byte>, k: nat, closes: bool): (r: Option<nat>)
    requires 1 <= k <= |stream|
    ensures r.Some? ==> k <= r.value <= |stream|
  {
    match if k < 4 then Fill(stream, k, 4, closes) else Some(k)
    case None => None
    case Some(got) =>
      if got < 4 then Some(got)
      else
        var size := Read32(stream, 0);
        if size > MAX_PACKET_LEN then None
        else if got >= size then Some(got)
        else Fill(stream, got, size, closes)
  }

  /** `tcp_get_rep`. */
  function GetRep(stream: seq<Byte>, net: Net, round: nat, reqid: nat): Got
    decreases |stream|
  {
    if stream == [] then Nothing
    else
      match RecvMsg(stream, Granted(net.cut(round), stream), net.closes)
      case None => Nothing
      case Some(n) =>
        if n < 12 then Illegible
        else if Read32(stream, 4) < reqid then GetRep(stream[n..], net, round + 1, reqid)
        else Got(Read32(stream, 8), stream[12..n])
  }

  /** The loop of `tcp_get_rep` over a connection that delivers `stream` and then no more. */
  method Reader(stream: seq<Byte>, net: Net, reqid: nat) returns (r: Got)
    ensures r == GetRep(stream, net, 0, reqid)
  {
    var rest, round := stream, 0;
    while rest != []
      invariant GetRep(rest, net, round, reqid) == GetRep(stream, net, 0, reqid)
      decreases |rest|
    {
      var n := RecvMsg(rest, Granted(net.cut(round), rest), net.closes);
      if n.None? {
        return Nothing;
      }
      if n.value < 12 {
        return Illegible;
      }
      var id, reply := Read32(rest, 4), Read32(rest, 8);
      if id >= reqid {
        return Got(reply, rest[12..n.value]);
      }
      rest, round := rest[n.value..], round + 1;
    }
    return Nothing;
  }

  /** A length above 65536 ends the reading. */
  lemma TooLong(stream: seq<Byte>, net: Net, round: nat, reqid: nat)
    requires |stream| >= 4 && Read32(stream, 0) > 65536
    ensures GetRep(stream, net, round, reqid) == Nothing
  {
    hide Read32;
  }

  // ----- One recv, wherever it ends -----

  predicate AllEncodable(g: seq<Sent>) {
    forall i :: 0 <= i < |g| ==> Encodable(g[i])
  }

  function Wire(g: seq<Sent>): seq<Byte>
    requires AllEncodable(g)
  {
    if g == [] then [] else Frame(Encode(g[0])) + Wire(g[1..])
  }

  /** The frame at the front of a stream. */
  lemma FrontFrame(s: Sent, rest: seq<Byte>)
    requires Encodable(s)
    ensures var f := Frame(Encode(s));
            var stream := f + rest;
            && |f| == 12 + |Rest(s)| <= MAX_PACKET_LEN && f[12..] == Rest(s)
            && Read32(stream, 0) == |f| && Read32(stream, 4) == Id(s) && Read32(stream, 8) == Code(s)
  {
    var m := Encode(s);
    EncodeReadsBack(s);
    FrameReadsBack(m, rest);
    assert Frame(m)[12..] == m[8..];
    ReadAt(Word32(|m| + 4), m, rest);
  }

  lemma FrameParts(s: Sent)
    requires Encodable(s)
    ensures |Frame(Encode(s))| >= 12 && Frame(Encode(s))[12..] == Rest(s)
  {
    FrontFrame(s, []);
    hide Frame, Encode, Read32, Rest;
  }

  lemma ReadAt(a: seq<Byte>, m: seq<Byte>, rest: seq<Byte>)
    requires |a| == 4 && |m| >= 8
    ensures Read32(a + m + rest, 4) == Read32(m, 0) && Read32(a + m + rest, 8) == Read32(m, 4)
  {}

  lemma OneRound(stream: seq<Byte>, net: Net, round: nat, reqid: nat, n: nat)
    requires 12 <= n <= |stream| && RecvMsg(stream, Granted(net.cut(round), stream), net.closes) == Some(n)
    ensures GetRep(stream, net, round, reqid) ==
            if Read32(stream, 4) < reqid then GetRep(stream[n..], net, round + 1, reqid)
            else Got(Read32(stream, 8), stream[12..n])
  {
    hide Read32, RecvMsg;
  }

  /** How many bytes one round takes: what the recv brings, and at least the first message. */
  function Taken(first: Sent, rest: seq<Byte>, k: nat): (n: nat)
    requires Encodable(first)
    ensures |Frame(Encode(first))| <= n <= |Frame(Encode(first)) + rest|
  {
    var f := Frame(Encode(first));
    var got := Granted(k, f + rest);
    if got < |f| then |f| else got
  }

  /**
   * One round of the reader on a message and whatever follows it, for every recv: it looks
   * at this message only, and goes on, or not, with all bytes of the recv gone.
   */
  lemma OneMessage(s: Sent, rest: seq<Byte>, net: Net, round: nat, reqid: nat)
    requires Encodable(s)
    ensures var stream, n := Frame(Encode(s)) + rest, Taken(s, rest, net.cut(round));
            GetRep(stream, net, round, reqid) ==
            if Id(s) < reqid then GetRep(stream[n..], net, round + 1, reqid) else Got(Code(s), stream[12..n])
  {
    FrontFrame(s, rest);
    hide Frame, Encode, Read32, Word32, GetRep;
    var stream, n := Frame(Encode(s)) + rest, Taken(s, rest, net.cut(round));
    assert RecvMsg(stream, Granted(net.cut(round), stream), net.closes) == Some(n);
    hide RecvMsg, Granted;
    OneRound(stream, net, round, reqid, n);
  }

  /** The bytes that one round takes of messages and whatever follows them. */
  function TakenOf(ms: seq<Sent>, rest: seq<Byte>, k: nat): (n: nat)
    requires ms != [] && AllEncodable(ms)
    ensures |Frame(Encode(ms[0]))| <= n <= |Wire(ms) + rest|
    ensures |Frame(Encode(ms[0]))| <= k <= |Wire(ms) + rest| && k <= MAX_PACKET_LEN ==> n == k
    ensures 1 <= k <= |Frame(Encode(ms[0]))| ==> n == |Frame(Encode(ms[0]))|
  {
    var f := Frame(Encode(ms[0]));
    assert Wire(ms) + rest == f + (Wire(ms[1..]) + rest);
    Taken(ms[0], Wire(ms[1..]) + rest, k)
  }

  /** The same on messages and whatever follows them. */
  lemma FirstMessage(ms: seq<Sent>, rest: seq<Byte>, net: Net, round: nat, reqid: nat)
    requires ms != [] && AllEncodable(ms)
    ensures var stream, n := Wire(ms) + rest, TakenOf(ms, rest, net.cut(round));
            && n >= 12
            && GetRep(stream, net, round, reqid) ==
               if Id(ms[0]) < reqid then GetRep(stream[n..], net, round + 1, reqid) else Got(Code(ms[0]), stream[12..n])
  {
    var more := Wire(ms[1..]);
    assert Wire(ms) + rest == Frame(Encode(ms[0])) + (more + rest);
    FrontFrame(ms[0], more + rest);
    hide GetRep, Frame, Encode, Wire, Taken;
    OneMessage(ms[0], more + rest, net, round, reqid);
  }

  /**
   * What n bytes leave of messages and whatever follows them: the rest of the message they end
   * in, and what comes after.
   */
  function Leftover(ms: seq<Sent>, rest: seq<Byte>, n: nat): seq<Byte>
    requires AllEncodable(ms) && n <= |Wire(ms)| + |rest|
  {
    if ms == [] then rest[n..]
    else
      var f := Frame(Encode(ms[0]));
      if n < |f| then f[n..] + (Wire(ms[1..]) + rest) else Leftover(ms[1..], rest, n - |f|)
  }

  lemma {:induction false} LeftoverIsSuffix(ms: seq<Sent>, rest: seq<Byte>, n: nat)
    requires AllEncodable(ms) && n <= |Wire(ms)| + |rest|
    ensures Leftover(ms, rest, n) == (Wire(ms) + rest)[n..]
  {
    LeftoverStep(ms, rest, n);
    hide *;
    if ms == [] {
      assert [] + rest == rest;
    } else {
      var f, more := Frame(Encode(ms[0])), Wire(ms[1..]);
      Regroup(f, more, rest);
      if n < |f| {
        Past([], f, n, more + rest);
        assert [] + (f + (more + rest)) == f + (more + rest);
      } else {
        LeftoverIsSuffix(ms[1..], rest, n - |f|);
        DropPast(f, more + rest, n);
      }
    }
  }

  lemma LeftoverStep(ms: seq<Sent>, rest: seq<Byte>, n: nat)
    requires AllEncodable(ms) && n <= |Wire(ms)| + |rest|
    ensures ms == [] ==> Wire(ms) == [] && Leftover(ms, rest, n) == rest[n..]
    ensures ms != [] ==>
              var f, more := Frame(Encode(ms[0])), Wire(ms[1..]);
              && AllEncodable(ms[1..]) && Wire(ms) == f + more
              && (n < |f| ==> Leftover(ms, rest, n) == f[n..] + (more + rest))
              && (n >= |f| ==> Leftover(ms, rest, n) == Leftover(ms[1..], rest, n - |f|))
  {
    hide Frame, Encode;
  }

  lemma DropPast(f: seq<Byte>, s: seq<Byte>, n: nat)
    requires |f| <= n <= |f + s|
    ensures (f + s)[n..] == s[n - |f|..]
  {}

  /**
   * What the next round finds after a recv, wherever it ends: after its first message is
   * skipped, the reader goes on with what the recv left, and if that is the second half of a
   * later message, its bytes are taken for a length, an id and a code.
   */
  lemma OneRecv(ms: seq<Sent>, rest: seq<Byte>, net: Net, round: nat, reqid: nat)
    requires ms != [] && AllEncodable(ms) && Id(ms[0]) < reqid
    ensures var n := TakenOf(ms, rest, net.cut(round));
            && n <= |Wire(ms)| + |rest|
            && GetRep(Wire(ms) + rest, net, round, reqid) == GetRep(Leftover(ms, rest, n), net, round + 1, reqid)
  {
    var n := TakenOf(ms, rest, net.cut(round));
    LeftoverIsSuffix(ms, rest, n);
    FirstMessage(ms, rest, net, round, reqid);
  }

  /** A recv that ends inside a message s behind others leaves the second half of s to the next round. */
  lemma EndsInside(g: seq<Sent>, s: Sent, off: nat, rest: seq<Byte>, net: Net, round: nat, reqid: nat)
    requires g != [] && AllEncodable(g) && Encodable(s) && Id(g[0]) < reqid
    requires 0 < off < |Frame(Encode(s))| && net.cut(round) == |Wire(g)| + off <= MAX_PACKET_LEN
    ensures GetRep(Wire(g) + (Frame(Encode(s)) + rest), net, round, reqid) ==
            GetRep(Frame(Encode(s))[off..] + rest, net, round + 1, reqid)
  {
    hide *;
    var f := Frame(Encode(s));
    FirstIsPart(g);
    GoesOn(g, f + rest, net, round, reqid);
    Past(Wire(g), f, off, rest);
  }

  /** A recv that brings at least the first message, and not more than there is. */
  lemma GoesOn(g: seq<Sent>, tail: seq<Byte>, net: Net, round: nat, reqid: nat)
    requires g != [] && AllEncodable(g) && Id(g[0]) < reqid
    requires |Frame(Encode(g[0]))| <= net.cut(round) <= |Wire(g)| + |tail| && net.cut(round) <= MAX_PACKET_LEN
    ensures GetRep(Wire(g) + tail, net, round, reqid) ==
            GetRep((Wire(g) + tail)[net.cut(round)..], net, round + 1, reqid)
  {
    hide GetRep, Wire, Frame, Encode, TakenOf;
    FirstMessage(g, tail, net, round, reqid);
  }

  lemma FirstIsPart(g: seq<Sent>)
    requires g != [] && AllEncodable(g)
    ensures |Frame(Encode(g[0]))| <= |Wire(g)|
    ensures |g| == 1 ==> |Frame(Encode(g[0]))| == |Wire(g)|
  {}

  lemma Past(w: seq<Byte>, f: seq<Byte>, off: nat, rest: seq<Byte>)
    requires off <= |f|
    ensures (w + (f + rest))[|w| + off..] == f[off..] + rest
  {}

  // ----- Recvs that end with a message -----

  /** A recv brings the group: part or all of a single message, or all of several. */
  predicate Brings(k: nat, g: seq<Sent>)
    requires AllEncodable(g)
  {
    && g != []
    && if |g| == 1 then 1 <= k <= |Wire(g)| else k == |Wire(g)| <= MAX_PACKET_LEN
  }

  predicate Grouped(groups: seq<seq<Sent>>) {
    forall i :: 0 <= i < |groups| ==> AllEncodable(groups[i])
  }

  function WireAll(groups: seq<seq<Sent>>): seq<Byte>
    requires Grouped(groups)
  {
    if groups == [] then [] else Wire(groups[0]) + WireAll(groups[1..])
  }

  /** Every recv ends with a message, or inside the first message that it brings. */
  predicate Aligned(groups: seq<seq<Sent>>, net: Net, round: nat) {
    forall i :: 0 <= i < |groups| ==> AllEncodable(groups[i]) && Brings(net.cut(round + i), groups[i])
  }

  predicate HeadsBelow(groups: seq<seq<Sent>>, reqid: nat) {
    forall i :: 0 <= i < |groups| ==> groups[i] != [] && Id(groups[i][0]) < reqid
  }

  lemma OneGroup(g: seq<Sent>, rest: seq<Byte>, net: Net, round: nat, reqid: nat)
    requires AllEncodable(g) && Brings(net.cut(round), g) && Id(g[0]) < reqid
    ensures GetRep(Wire(g) + rest, net, round, reqid) == GetRep(rest, net, round + 1, reqid)
  {
    FirstMessage(g, rest, net, round, reqid);
    FirstIsPart(g);
    hide GetRep, Wire, Frame, Encode;
    Past(Wire(g), [], 0, rest);
    assert [] + rest == rest;
  }

  /**
   * Whatever comes after them, recvs that end with a message are skipped if their first
   * messages are stale or pushes.
   */
  lemma {:induction false} SkipsAligned(groups: seq<seq<Sent>>, rest: seq<Byte>, net: Net, round: nat, reqid: nat)
    requires Aligned(groups, net, round) && HeadsBelow(groups, reqid)
    ensures Grouped(groups)
    ensures GetRep(WireAll(groups) + rest, net, round, reqid) == GetRep(rest, net, round + |groups|, reqid)
    decreases |groups|
  {
    hide *;
    AlignedIsGrouped(groups, net, round);
    if groups == [] {
      NoGroups(rest);
    } else {
      var g, more := groups[0], groups[1..];
      AlignedMore(groups, net, round);
      AlignedIsGrouped(more, net, round + 1);
      HeadsMore(groups, reqid);
      WireAllStep(groups);
      Regroup(Wire(g), WireAll(more), rest);
      OneGroup(g, WireAll(more) + rest, net, round, reqid);
      SkipsAligned(more, rest, net, round + 1, reqid);
    }
  }

  lemma NoGroups(rest: seq<Byte>)
    ensures Grouped([]) && WireAll([]) + rest == rest
  {}

  lemma HeadsMore(groups: seq<seq<Sent>>, reqid: nat)
    requires HeadsBelow(groups, reqid) && groups != []
    ensures HeadsBelow(groups[1..], reqid) && groups[0] != [] && Id(groups[0][0]) < reqid
  {}

  lemma WireAllStep(groups: seq<seq<Sent>>)
    requires groups != [] && Grouped(groups)
    ensures Grouped(groups[1..]) && AllEncodable(groups[0])
    ensures WireAll(groups) == Wire(groups[0]) + WireAll(groups[1..])
  {
    hide AllEncodable, Wire;
  }

  lemma Regroup(a: seq<Byte>, b: seq<Byte>, c: seq<Byte>)
    ensures a + b + c == a + (b + c)
  {}

  lemma AlignedIsGrouped(groups: seq<seq<Sent>>, net: Net, round: nat)
    requires Aligned(groups, net, round)
    ensures Grouped(groups)
  {}

  lemma AlignedMore(groups: seq<seq<Sent>>, net: Net, round: nat)
    requires groups != [] && Aligned(groups, net, round)
    ensures Aligned(groups[1..], net, round + 1) && AllEncodable(groups[0]) && Brings(net.cut(round), groups[0])
  {
    hide Brings, AllEncodable;
    var more := groups[1..];
    assert Brings(net.cut(round + 0), groups[0]);
    forall i | 0 <= i < |more| ensures AllEncodable(more[i]) && Brings(net.cut(round + 1 + i), more[i]) {
      assert more[i] == groups[i + 1] && Brings(net.cut(round + (i + 1)), groups[i + 1]);
    }
  }

  /** A push, or an answer to the j-th request for some j < k. */
  predicate Earlier(s: Sent, k: nat) {
    s.Push? || exists j :: 0 < j < k && s.id == IdAfter(j)
  }

  predicate AllEarlier(groups: seq<seq<Sent>>, k: nat) {
    forall i :: 0 <= i < |groups| ==> groups[i] != [] && Earlier(groups[i][0], k)
  }

  lemma EarlierIsLess(s: Sent, k: nat)
    requires 0 < k <= LAST_ID && Earlier(s, k)
    ensures Id(s) < IdAfter(k)
  {
    IdsCount(k);
    if !s.Push? {
      var j :| 0 < j < k && s.id == IdAfter(j);
      IdsCount(j);
    }
  }

  lemma EarlierHeads(groups: seq<seq<Sent>>, k: nat)
    requires 0 < k <= LAST_ID && AllEarlier(groups, k)
    ensures HeadsBelow(groups, IdAfter(k))
  {
    hide Earlier, IdAfter;
    forall i | 0 <= i < |groups| ensures Id(groups[i][0]) < IdAfter(k) {
      EarlierIsLess(groups[i][0], k);
    }
  }

  // ----- What becomes of the answer -----

  /**
   * The k-th request of a client has been sent and the counter has not wrapped. If every
   * recv before the answer's ends with a message or inside its first one, and the answer is
   * first in its own recv, then the reader skips all pushes and answers to earlier requests
   * and accepts the answer, wherever the answer's own recv ends and whatever follows it.
   */
  lemma ReaderTakesLatest(before: seq<seq<Sent>>, answer: Sent, rest: seq<Byte>, net: Net, k: nat)
    requires 0 < k <= LAST_ID && Aligned(before, net, 0) && AllEarlier(before, k)
    requires Encodable(answer) && !answer.Push? && answer.id == IdAfter(k)
    ensures Grouped(before)
    ensures var extra := Taken(answer, rest, net.cut(|before|)) - |Frame(Encode(answer))|;
            GetRep(WireAll(before) + (Frame(Encode(answer)) + rest), net, 0, IdAfter(k)) ==
            Got(answer.code, Rest(answer) + rest[..extra])
  {
    hide Aligned, AllEarlier, HeadsBelow, GetRep, WireAll, Taken, Frame, Encode, Rest, IdAfter, Encodable, Grouped;
    FrameParts(answer);
    EarlierHeads(before, k);
    SkipsAligned(before, Frame(Encode(answer)) + rest, net, 0, IdAfter(k));
    OneMessage(answer, rest, net, |before|, IdAfter(k));
    Pieces(Frame(Encode(answer)), rest, Taken(answer, rest, net.cut(|before|)));
  }

  lemma Pieces(f: seq<Byte>, rest: seq<Byte>, n: nat)
    requires 12 <= |f| <= n <= |f + rest|
    ensures (f + rest)[12..n] == f[12..] + rest[..n - |f|]
  {}

  /**
   * If instead the answer comes behind others in a recv that brings all of it, the reader
   * never looks at it: what it returns depends only on what that recv left.
   */
  lemma ReaderDropsLatest(before: seq<seq<Sent>>, others: seq<Sent>, answer: Sent, rest: seq<Byte>, net: Net, k: nat)
    requires 0 < k <= LAST_ID && Aligned(before, net, 0) && AllEarlier(before, k)
    requires others != [] && AllEncodable(others) && Earlier(others[0], k) && Encodable(answer)
    requires var n := |Wire(others)| + |Frame(Encode(answer))|;
             n <= net.cut(|before|) <= n + |rest| && net.cut(|before|) <= MAX_PACKET_LEN
    ensures Grouped(before)
    ensures var n := |Wire(others)| + |Frame(Encode(answer))|;
            GetRep(WireAll(before) + (Wire(others) + (Frame(Encode(answer)) + rest)), net, 0, IdAfter(k)) ==
            GetRep(rest[net.cut(|before|) - n..], net, |before| + 1, IdAfter(k))
  {
    hide Aligned, AllEarlier, HeadsBelow, Earlier, GetRep, WireAll, Wire, Frame, Encode, IdAfter;
    EarlierHeads(before, k);
    EarlierIsLess(others[0], k);
    SkipsAligned(before, Wire(others) + (Frame(Encode(answer)) + rest), net, 0, IdAfter(k));
    Behind(others, answer, rest, net, |before|, IdAfter(k));
  }

  lemma Behind(others: seq<Sent>, answer: Sent, rest: seq<Byte>, net: Net, round: nat, reqid: nat)
    requires others != [] && AllEncodable(others) && Id(others[0]) < reqid && Encodable(answer)
    requires var n := |Wire(others)| + |Frame(Encode(answer))|;
             n <= net.cut(round) <= n + |rest| && net.cut(round) <= MAX_PACKET_LEN
    ensures var n := |Wire(others)| + |Frame(Encode(answer))|;
            GetRep(Wire(others) + (Frame(Encode(answer)) + rest), net, round, reqid) ==
            GetRep(rest[net.cut(round) - n..], net, round + 1, reqid)
  {
    hide *;
    var f := Frame(Encode(answer));
    FirstIsPart(others);
    GoesOn(others, f + rest, net, round, reqid);
    FarPast(Wire(others), f, rest, net.cut(round));
  }

  lemma FarPast(w: seq<Byte>, f: seq<Byte>, rest: seq<Byte>, n: nat)
    requires |w| + |f| <= n <= |w| + |f| + |rest|
    ensures (w + (f + rest))[n..] == rest[n - |w| - |f|..]
  {}

  /**
   * If the stream ends inside the answer, past its code, the reader accepts the beginning of
   * the answer exactly when the end is a close and at least one byte came after the first
   * recv; otherwise it finds nothing.
   */
  lemma TruncatedAnswer(before: seq<seq<Sent>>, answer: Sent, q: nat, net: Net, k: nat)
    requires 0 < k <= LAST_ID && Aligned(before, net, 0) && AllEarlier(before, k)
    requires Encodable(answer) && !answer.Push? && answer.id == IdAfter(k)
    requires 12 <= q < |Frame(Encode(answer))|
    ensures Grouped(before) && |Rest(answer)| > q - 12
    ensures var part := Frame(Encode(answer))[..q];
            GetRep(WireAll(before) + part, net, 0, IdAfter(k)) ==
            if net.closes && Granted(net.cut(|before|), part) < q then Got(answer.code, Rest(answer)[..q - 12])
            else Nothing
  {
    hide Aligned, AllEarlier, HeadsBelow, GetRep, WireAll, Frame, Encode, Rest, IdAfter, Encodable, Grouped;
    FrameParts(answer);
    EarlierHeads(before, k);
    SkipsAligned(before, Frame(Encode(answer))[..q], net, 0, IdAfter(k));
    PartOfFrame(answer, q, net, |before|, IdAfter(k));
  }

  lemma PartOfFrame(s: Sent, q: nat, net: Net, round: nat, reqid: nat)
    requires Encodable(s) && Id(s) >= reqid && 12 <= q < |Frame(Encode(s))|
    ensures |Rest(s)| > q - 12
    ensures var part := Frame(Encode(s))[..q];
            GetRep(part, net, round, reqid) ==
            if net.closes && Granted(net.cut(round), part) < q then Got(Code(s), Rest(s)[..q - 12]) else Nothing
  {
    hide Frame, Encode, Rest, Read32, Word32, GetRep, RecvMsg;
    var f := Frame(Encode(s));
    FrontFrame(s, []);
    FrameParts(s);
    assert f + [] == f;
    ReadFront(f, q);
    var part := f[..q];
    PartComes(part, |f|, Granted(net.cut(round), part), net.closes);
    if net.closes && Granted(net.cut(round), part) < q {
      OneRound(part, net, round, reqid, q);
      assert part[12..q] == f[12..][..q - 12];
    } else {
      NoRound(part, net, round, reqid);
    }
  }

  /** A stream that ends inside its first message. */
  lemma PartComes(part: seq<Byte>, size: nat, k: nat, closes: bool)
    requires |part| > 4 && Read32(part, 0) == size && |part| < size <= MAX_PACKET_LEN && 1 <= k <= |part|
    ensures RecvMsg(part, k, closes) == if closes && k < |part| then Some(|part|) else None
  {
    hide Read32;
  }

  lemma NoRound(stream: seq<Byte>, net: Net, round: nat, reqid: nat)
    requires stream != [] && RecvMsg(stream, Granted(net.cut(round), stream), net.closes) == None
    ensures GetRep(stream, net, round, reqid) == Nothing
  {
    hide Read32, RecvMsg;
  }

  lemma ReadFront(f: seq<Byte>, q: nat)
    requires 12 <= q <= |f|
    ensures Read32(f[..q], 0) == Read32(f, 0) && Read32(f[..q], 4) == Read32(f, 4) && Read32(f[..q], 8) == Read32(f, 8)
  {}

  /** A push and an answer that arrive together: the answer is lost. */
  lemma AnswerLost(code: nat, net: Net)
    requires code < TWO32 && net.cut(0) == 28
    ensures var stream := Frame(Encode(Push([]))) + Frame(Encode(Mini(1, code)));
            GetRep(stream, net, 0, IdAfter(1)) == Nothing
  {
    var push, answer := Push([]), Mini(1, code);
    hide Word32, Read32, Frame, Encode;
    assert Wire([push]) == Frame(Encode(push)) + Wire([]);
    assert Frame(Encode(push)) + Frame(Encode(answer)) == WireAll([]) + (Wire([push]) + (Frame(Encode(answer)) + []));
    hide Wire, WireAll;
    ReaderDropsLatest([], [push], answer, [], net, 1);
  }

  /**
   * If a recv ends four bytes into a push behind other messages, and the next one brings at
   * least twelve bytes, the push itself is taken for the answer to any request up to the
   * 10000th, with the length of its value for a code.
   */
  lemma PushTaken(before: seq<seq<Sent>>, others: seq<Sent>, val: seq<Byte>, rest: seq<Byte>, net: Net, k: nat)
    requires 0 < k <= PUSH_CODE && Aligned(before, net, 0) && AllEarlier(before, k)
    requires others != [] && AllEncodable(others) && Earlier(others[0], k) && Encodable(Push(val))
    requires net.cut(|before|) == |Wire(others)| + 4 <= MAX_PACKET_LEN
    requires 12 <= net.cut(|before| + 1) <= MAX_PACKET_LEN && net.cut(|before| + 1) <= 12 + |val| + |rest|
    ensures Grouped(before)
    ensures GetRep(WireAll(before) + (Wire(others) + (Frame(Encode(Push(val))) + rest)), net, 0, IdAfter(k)) ==
            Got(|val|, (val + rest)[..net.cut(|before| + 1) - 12])
  {
    var push := Push(val);
    hide Aligned, AllEarlier, HeadsBelow, Earlier, GetRep, WireAll, Wire, Frame, Encode;
    hide IdAfter, Encodable, AllEncodable, Grouped;
    NoLengthWord(push);
    IdsCount(k);
    EarlierHeads(before, k);
    EarlierIsLess(others[0], k);
    SkipsAligned(before, Wire(others) + (Frame(Encode(push)) + rest), net, 0, IdAfter(k));
    EndsInside(others, push, 4, rest, net, |before|, IdAfter(k));
    HalfPush(val, rest, net, |before| + 1, IdAfter(k));
  }

  lemma NoLengthWord(s: Sent)
    requires Encodable(s)
    ensures |Frame(Encode(s))| > 4 && Frame(Encode(s))[4..] == Encode(s)
  {}

  /** A push without its length word. */
  lemma HalfPush(val: seq<Byte>, rest: seq<Byte>, net: Net, round: nat, reqid: nat)
    requires Encodable(Push(val)) && reqid <= PUSH_CODE
    requires 12 <= net.cut(round) <= MAX_PACKET_LEN && net.cut(round) <= 12 + |val| + |rest|
    ensures GetRep(Encode(Push(val)) + rest, net, round, reqid) == Got(|val|, (val + rest)[..net.cut(round) - 12])
  {
    var stream, n := Encode(Push(val)) + rest, net.cut(round);
    HalfPushWords(val, rest);
    hide Encode, Word32, Read32, GetRep;
    assert RecvMsg(stream, Granted(net.cut(round), stream), net.closes) == Some(n);
    OneRound(stream, net, round, reqid, n);
    assert stream[12..n] == stream[12..][..n - 12];
  }

  lemma HalfPushWords(val: seq<Byte>, rest: seq<Byte>)
    requires Encodable(Push(val))
    ensures var s := Encode(Push(val)) + rest;
            && |s| == 12 + |val| + |rest| && s[12..] == val + rest
            && Read32(s, 0) == 0 && Read32(s, 4) == PUSH_CODE && Read32(s, 8) == |val|
  {
    var s2 := Word32(|val|) + (val + rest);
    var s1 := Word32(PUSH_CODE) + s2;
    var s := Word32(0) + s1;
    assert s == Encode(Push(val)) + rest;
    Word32First(0, s1);
    Word32First(PUSH_CODE, s2);
    Word32First(|val|, val + rest);
    ReadSecond(s);
    hide Word32, Read32, Encode;
    assert s[12..] == s[4..][4..][4..];
  }

  lemma ReadSecond(s: seq<Byte>)
    requires |s| >= 12
    ensures Read32(s, 4) == Read32(s[4..], 0) && Read32(s, 8) == Read32(s[4..][4..], 0)
  {}

  /** Two pushes and an answer, the first recv ending inside the second push: the push is taken for the answer. */
  lemma WrongAnswer(net: Net)
    requires net.cut(0) == 20 && net.cut(1) == 12 && net.cut(2) == 12
    ensures var push := Frame(Encode(Push([])));
            GetRep(push + push + Frame(Encode(Mini(1, 1000))), net, 0, IdAfter(1)) == Got(0, [])
  {
    var push, rest := Push([]), Frame(Encode(Mini(1, 1000)));
    AloneOnWire(push);
    var f := Frame(Encode(push));
    hide Frame, Encode, GetRep;
    assert |f| == 16 && |rest| == 12;
    NoGroups(f + (f + rest));
    Regroup(f, f, rest);
    hide Wire, WireAll;
    PushTaken([], [push], [], rest, net, 1);
  }

  lemma AloneOnWire(s: Sent)
    requires Encodable(s)
    ensures Wire([s]) == Frame(Encode(s))
  {
    assert [s][1..] == [];
  }

  /**
   * When every recv ends with a message or inside its first one, to the end of the stream,
   * and the other recvs start with pushes or stale answers, the reader accepts the message
   * at place p of its recv exactly when p is 0, and finds nothing otherwise.
   */
  lemma AlignedReaderExact(before: seq<seq<Sent>>, own: seq<Sent>, after: seq<seq<Sent>>, p: nat, net: Net, reqid: nat)
    requires AllEncodable(own) && Aligned(before + [own] + after, net, 0) && p < |own| && Id(own[p]) >= reqid
    requires HeadsBelow(before, reqid) && HeadsBelow(after, reqid) && (p > 0 ==> Id(own[0]) < reqid)
    ensures Grouped(before + [own] + after)
    ensures GetRep(WireAll(before + [own] + after), net, 0, reqid) ==
            if p == 0 then Got(Code(own[0]), Rest(own[0]) + Wire(own[1..])) else Nothing
  {
    hide *;
    AlignedParts(before, own, after, net);
    if p > 0 {
      AllHeadsBelow(before, own, after, reqid);
      AlignedDrops(before + [own] + after, net, reqid);
    } else {
      SkipsAligned(before, Wire(own) + WireAll(after), net, 0, reqid);
      OwnRecv(own, WireAll(after), net, |before|, reqid);
    }
  }

  lemma AlignedDrops(groups: seq<seq<Sent>>, net: Net, reqid: nat)
    requires Aligned(groups, net, 0) && HeadsBelow(groups, reqid)
    ensures Grouped(groups) && GetRep(WireAll(groups), net, 0, reqid) == Nothing
  {
    hide *;
    SkipsAligned(groups, [], net, 0, reqid);
    assert WireAll(groups) + [] == WireAll(groups);
    NoMore(net, |groups|, reqid);
  }

  lemma AllHeadsBelow(before: seq<seq<Sent>>, own: seq<Sent>, after: seq<seq<Sent>>, reqid: nat)
    requires HeadsBelow(before, reqid) && HeadsBelow(after, reqid) && own != [] && Id(own[0]) < reqid
    ensures HeadsBelow(before + [own] + after, reqid)
  {}

  lemma NoMore(net: Net, round: nat, reqid: nat)
    ensures GetRep([], net, round, reqid) == Nothing
  {}

  lemma OwnRecv(own: seq<Sent>, rest: seq<Byte>, net: Net, round: nat, reqid: nat)
    requires AllEncodable(own) && Brings(net.cut(round), own) && Id(own[0]) >= reqid
    ensures GetRep(Wire(own) + rest, net, round, reqid) == Got(Code(own[0]), Rest(own[0]) + Wire(own[1..]))
  {
    FirstMessage(own, rest, net, round, reqid);
    FirstIsPart(own);
    FrameParts(own[0]);
    assert Wire(own) == Frame(Encode(own[0])) + Wire(own[1..]);
    hide GetRep, Wire, Frame, Encode, Rest, Encodable, AllEncodable;
    Middle(Frame(Encode(own[0])), Wire(own[1..]), rest);
  }

  lemma Middle(f: seq<Byte>, more: seq<Byte>, rest: seq<Byte>)
    requires |f| >= 12
    ensures (f + more + rest)[12..|f + more|] == f[12..] + more
  {}

  lemma AlignedParts(before: seq<seq<Sent>>, own: seq<Sent>, after: seq<seq<Sent>>, net: Net)
    requires Aligned(before + [own] + after, net, 0)
    ensures Aligned(before, net, 0) && AllEncodable(own) && Brings(net.cut(|before|), own) && Grouped(after)
    ensures Grouped(before + [own] + after)
    ensures Grouped(before) && WireAll(before + [own] + after) == WireAll(before) + (Wire(own) + WireAll(after))
  {
    var all := before + [own] + after;
    assert forall i :: 0 <= i < |before| ==> before[i] == all[i];
    assert own == all[|before|];
    assert forall i :: 0 <= i < |after| ==> after[i] == all[|before| + 1 + i];
    hide Brings, AllEncodable, Wire;
    WireAllJoins(before, own, after);
  }

  lemma {:induction false} WireAllJoins(before: seq<seq<Sent>>, own: seq<Sent>, after: seq<seq<Sent>>)
    requires Grouped(before + [own] + after) && Grouped(before) && AllEncodable(own) && Grouped(after)
    ensures WireAll(before + [own] + after) == WireAll(before) + (Wire(own) + WireAll(after))
    decreases |before|
  {
    hide AllEncodable, Wire;
    var all := before + [own] + after;
    if before == [] {
      assert all[0] == own && all[1..] == after;
    } else {
      var b := before[1..];
      assert all[0] == before[0] && all[1..] == b + [own] + after;
      WireAllJoins(b, own, after);
    }
  }
}
