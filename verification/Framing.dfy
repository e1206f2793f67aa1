/**
 * The meaning of a byte stream: which messages it carries, and how it ends.
 *
 * Both ends of a connection prefix every message with a 32-bit length that counts itself.
 * A length of at most 8 or above 64 KiB breaks the stream, and so does a message that the
 * receiver refuses; `accept` is the receiver's own verdict.
 */
module Framing {
  import opened Bytes

  const MAX_MESSAGE: nat := 64 * 1024

  type Message = seq<Byte>

  /** How a stream ends: in a frame that is not complete yet, or in a frame that breaks it. */
  datatype Tail = Waiting(pending: seq<Byte>) | Broken

  datatype Outcome = Outcome(messages: seq<Message>, tail: Tail)

  predicate LegalLength(n: nat) {
    8 < n <= MAX_MESSAGE
  }

  /** The bytes a reader wants before it can go on: the length word, then the frame. */
  function Wanted(s: seq<Byte>): nat {
    if |s| < 4 then 4 else Read32(s, 0)
  }

  function Deframe(s: seq<Byte>, accept: Message -> bool): Outcome
    decreases |s|
  {
    if |s| < 4 then
      Outcome([], Waiting(s))
    else
      var n := Read32(s, 0);
      if !LegalLength(n) then
        Outcome([], Broken)
      else if n > |s| then
        Outcome([], Waiting(s))
      else
        var m := s[4..n];
        if !accept(m) then
          Outcome([m], Broken)
        else
          After([m], Deframe(s[n..], accept))
  }

  /** One round of the framing function, by itself. */
  lemma DeframeStep(s: seq<Byte>, accept: Message -> bool)
    ensures |s| < 4 ==> Deframe(s, accept) == Outcome([], Waiting(s))
    ensures |s| >= 4 ==>
              var n := Read32(s, 0);
              Deframe(s, accept) ==
              if !LegalLength(n) then Outcome([], Broken)
              else if n > |s| then Outcome([], Waiting(s))
              else if !accept(s[4..n]) then Outcome([s[4..n]], Broken)
              else After([s[4..n]], Deframe(s[n..], accept))
  {}

  /** A stream breaks at its first length word exactly if that is 8 or less, or above 65536. */
  lemma FirstLength(s: seq<Byte>, accept: Message -> bool)
    requires |s| >= 4
    ensures Deframe(s, accept) == Outcome([], Broken) <==> Read32(s, 0) <= 8 || Read32(s, 0) > 65536
  {
    hide Deframe, Read32;
    DeframeStep(s, accept);
  }

  function After(ms: seq<Message>, o: Outcome): Outcome {
    Outcome(ms + o.messages, o.tail)
  }

  // ----- The sender's side, and what a stream must look like -----

  predicate Sendable(m: Message) {
    LegalLength(|m| + 4)
  }

  function Frame(m: Message): (f: seq<Byte>)
    requires Sendable(m)
    ensures |f| == |m| + 4
  {
    Word32(|m| + 4) + m
  }

  predicate AllSendable(ms: seq<Message>) {
    forall i :: 0 <= i < |ms| ==> Sendable(ms[i])
  }

  predicate AllAccepted(ms: seq<Message>, accept: Message -> bool) {
    forall i :: 0 <= i < |ms| ==> accept(ms[i])
  }

  function Join(ms: seq<Message>): seq<Byte>
    requires AllSendable(ms)
  {
    if ms == [] then [] else Frame(ms[0]) + Join(ms[1..])
  }

  lemma JoinCons(m: Message, ms: seq<Message>)
    requires Sendable(m) && AllSendable(ms)
    ensures AllSendable([m] + ms) && Join([m] + ms) == Frame(m) + Join(ms)
  {
    assert ([m] + ms)[1..] == ms;
  }

  /** A proper beginning of some legal frame. */
  predicate Incomplete(s: seq<Byte>) {
    |s| < Wanted(s) && (|s| >= 4 ==> LegalLength(Wanted(s)))
  }

  lemma FrameReadsBack(m: Message, rest: seq<Byte>)
    requires Sendable(m)
    ensures var s := Frame(m) + rest;
            && |s| >= 4 && Read32(s, 0) == |m| + 4
            && s[4..|m| + 4] == m && s[|m| + 4..] == rest
  {}

  lemma DeframeFrame(m: Message, rest: seq<Byte>, accept: Message -> bool)
    requires Sendable(m) && accept(m)
    ensures Deframe(Frame(m) + rest, accept) == After([m], Deframe(rest, accept))
  {
    FrameReadsBack(m, rest);
  }

  /** Whatever is framed is read back, whatever bytes follow. */
  lemma {:induction false} DeframeJoin(ms: seq<Message>, rest: seq<Byte>, accept: Message -> bool)
    requires AllSendable(ms) && AllAccepted(ms, accept)
    ensures Deframe(Join(ms) + rest, accept) == After(ms, Deframe(rest, accept))
  {
    hide Deframe;
    if ms == [] {
      assert Join(ms) + rest == rest;
    } else {
      var tail := Join(ms[1..]) + rest;
      assert Join(ms) + rest == Frame(ms[0]) + tail;
      DeframeFrame(ms[0], tail, accept);
      DeframeJoin(ms[1..], rest, accept);
      var o := Deframe(rest, accept);
      assert [ms[0]] + (ms[1..] + o.messages) == ms + o.messages;
    }
  }

  lemma {:induction false} DeframeShape(s: seq<Byte>, accept: Message -> bool)
    ensures var o := Deframe(s, accept);
            && AllSendable(o.messages)
            && (o.tail.Waiting? ==>
                  && AllAccepted(o.messages, accept)
                  && s == Join(o.messages) + o.tail.pending
                  && Incomplete(o.tail.pending))
    decreases |s|
  {
    hide Deframe, Read32, Word32;
    DeframeStep(s, accept);
    if |s| < 4 {
    } else {
      var n := Read32(s, 0);
      if LegalLength(n) && n <= |s| && accept(s[4..n]) {
        var m, o := s[4..n], Deframe(s[n..], accept);
        DeframeShape(s[n..], accept);
        JoinCons(m, o.messages);
        WordOfRead(s, 0);
        assert Frame(m) == s[..n];
      }
    }
  }

  /**
   * The framing function is the one inverse of framing: a stream is still waiting with
   * messages `ms` and pending bytes `r` exactly when it is those frames followed by `r`.
   * Nothing is lost or invented: delivered and pending bytes add up to the stream.
   */
  lemma {:induction false} DeframeExact(s: seq<Byte>, ms: seq<Message>, r: seq<Byte>, accept: Message -> bool)
    ensures Deframe(s, accept) == Outcome(ms, Waiting(r))
            <==>
            && AllSendable(ms) && AllAccepted(ms, accept)
            && Incomplete(r)
            && s == Join(ms) + r
  {
    if Deframe(s, accept) == Outcome(ms, Waiting(r)) {
      DeframeShape(s, accept);
    }
    if AllSendable(ms) && AllAccepted(ms, accept) && Incomplete(r) && s == Join(ms) + r {
      DeframeJoin(ms, r, accept);
      assert ms + [] == ms;
    }
  }

  /** A waiting stream goes on as if only its pending bytes had been kept; a broken one stays as it is. */
  lemma {:induction false} DeframeAppend(s: seq<Byte>, t: seq<Byte>, accept: Message -> bool)
    ensures var o := Deframe(s, accept);
            Deframe(s + t, accept) ==
            if o.tail.Broken? then o else After(o.messages, Deframe(o.tail.pending + t, accept))
    decreases |s|
  {
    hide Deframe, Read32;
    var u := s + t;
    DeframeStep(s, accept);
    if |s| < 4 {
    } else {
      DeframeStep(u, accept);
      ReadPrefix(s, t);
      var n := Read32(s, 0);
      if LegalLength(n) && n <= |s| {
        assert u[4..n] == s[4..n] && u[n..] == s[n..] + t;
        if accept(s[4..n]) {
          DeframeAppend(s[n..], t, accept);
          var o, rest := Deframe(s[n..], accept), Deframe(u[n..], accept);
          if o.tail.Waiting? {
            var last := Deframe(o.tail.pending + t, accept);
            assert [s[4..n]] + (o.messages + last.messages) == [s[4..n]] + o.messages + last.messages;
          }
        }
      }
    }
  }

  // ----- Chunks -----

  function Concat(chunks: seq<seq<Byte>>): seq<Byte> {
    if chunks == [] then [] else Concat(chunks[..|chunks| - 1]) + chunks[|chunks| - 1]
  }

  /** A reader that keeps only the pending bytes between chunks. */
  function Feed(chunks: seq<seq<Byte>>, accept: Message -> bool): Outcome {
    if chunks == [] then Outcome([], Waiting([]))
    else
      var o := Feed(chunks[..|chunks| - 1], accept);
      if o.tail.Broken? then o
      else After(o.messages, Deframe(o.tail.pending + chunks[|chunks| - 1], accept))
  }

  /** How a stream is cut into chunks makes no difference. */
  lemma {:induction false} ChunkingIsIrrelevant(chunks: seq<seq<Byte>>, accept: Message -> bool)
    ensures Feed(chunks, accept) == Deframe(Concat(chunks), accept)
    decreases |chunks|
  {
    if chunks == [] {
    } else {
      var init, last := chunks[..|chunks| - 1], chunks[|chunks| - 1];
      ChunkingIsIrrelevant(init, accept);
      DeframeAppend(Concat(init), last, accept);
    }
  }
}
