/**
 * From tree to tree: what a client sets in its HDF is what the module on the server finds
 * in the request, however the network cuts the stream.
 */
module Delivery {
  import opened Bytes
  import opened Framing
  import opened Packet
  import opened HdfDoc
  import opened HdfText

  // ----- Characters and bytes -----

  function ToBytes(s: string): (r: seq<Byte>)
    requires IsText(s)
    ensures |r| == |s| && CString(r) && forall i :: 0 <= i < |s| ==> r[i] == s[i] as int
  {
    seq(|s|, i requires 0 <= i < |s| => s[i] as int)
  }

  function FromBytes(b: seq<Byte>): (r: string)
    ensures |r| == |b| && forall i :: 0 <= i < |b| ==> r[i] == b[i] as char
  {
    seq(|b|, i requires 0 <= i < |b| => b[i] as char)
  }

  // ----- Printed trees are C strings -----

  predicate TextTree(kids: seq<Hdf>)
    decreases kids
  {
    forall i :: 0 <= i < |kids| ==> TextNode(kids[i])
  }

  predicate TextNode(k: Hdf)
    decreases k, 0
  {
    IsText(k.name) && (k.value.Some? ==> IsText(k.value.value)) && TextTree(k.kids)
  }

  lemma {:induction false} ReprIsText(v: string)
    ensures IsText(ReprBody(v))
  {
    if v == "" {
    } else {
      ReprIsText(v[1..]);
      assert IsText(ReprChar(v[0]));
    }
  }

  lemma {:induction false} AttrsAreText(attrs: seq<Attr>)
    requires ValidAttrs(attrs)
    ensures IsText(PrintAttrList(attrs))
  {
    hide ReprBody;
    if attrs == [] {
    } else {
      assert ValidAttr(attrs[0]);
      ReprIsText(attrs[0].value);
      assert IsText(PrintAttr(attrs[0]));
      AttrsAreText(attrs[1..]);
    }
  }

  lemma ValueIsText(k: Hdf)
    requires ValidAttrs(k.attrs) && TextNode(k)
    ensures IsText(PrintValue(k))
  {
    hide PrintAttrList;
    AttrsAreText(k.attrs);
  }

  lemma TextOfParts(a: string, b: string)
    ensures IsText(a + b) <==> IsText(a) && IsText(b)
  {
    assert forall i :: 0 <= i < |a| ==> a[i] == (a + b)[i];
    assert forall i :: 0 <= i < |b| ==> b[i] == (a + b)[|a| + i];
  }

  lemma LiteralsAreText()
    ensures IsText("") && IsText(" {\n") && IsText("}\n")
  {}

  lemma {:induction false} NodeIsText(k: Hdf)
    requires PrintableNode(k) && TextNode(k)
    ensures IsText(PrintNode(k))
    decreases k, 0
  {
    ValueIsText(k);
    PrintIsText(k.kids);
    LiteralsAreText();
    TextOfParts(PrintValue(k), "");
    hide PrintValue, Print, IsText, Printable, TextTree, ValidName, ValidAttrs;
    if k.kids != [] {
      TextOfParts(k.name + " {\n" + Print(k.kids), "}\n");
      TextOfParts(k.name + " {\n", Print(k.kids));
      TextOfParts(k.name, " {\n");
      TextOfParts(PrintValue(k), k.name + " {\n" + Print(k.kids) + "}\n");
    }
  }

  lemma {:induction false} PrintIsText(kids: seq<Hdf>)
    requires Printable(kids) && TextTree(kids)
    ensures IsText(Print(kids))
    decreases kids
  {
    if kids == [] {
    } else {
      NodeIsText(kids[0]);
      PrintIsText(kids[1..]);
      hide PrintNode, IsText;
      TextOfParts(PrintNode(kids[0]), Print(kids[1..]));
    }
  }

  // ----- Calls -----

  datatype Call = Call(id: nat, cmd: nat, flags: nat, ename: seq<Byte>, tree: Hdf)

  predicate Deliverable(c: Call) {
    && c.id < TWO28 && c.cmd < TWO16 && c.flags < TWO16
    && CString(c.ename) && |c.ename| <= 476
    && Printable(c.tree.kids) && TextTree(c.tree.kids) && |WriteString(c.tree)| <= ROOM
  }

  function RequestOf(c: Call): (r: Request)
    requires Deliverable(c)
    ensures WellFormed(r) && Fits(r.ename, r.text) && Sendable(Body(r))
  {
    PrintIsText(c.tree.kids);
    Request(c.id, c.cmd, c.flags, c.ename, ToBytes(WriteString(c.tree)))
  }

  function Message(c: Call): (m: Framing.Message)
    requires Deliverable(c)
    ensures Sendable(m)
  {
    Body(RequestOf(c))
  }

  function Messages(cs: seq<Call>): (ms: seq<Framing.Message>)
    requires forall i :: 0 <= i < |cs| ==> Deliverable(cs[i])
    ensures |ms| == |cs| && AllSendable(ms) && forall i :: 0 <= i < |cs| ==> ms[i] == Message(cs[i])
  {
    seq(|cs|, i requires 0 <= i < |cs| => Message(cs[i]))
  }

  /** `parse_message` with the tree that `unpack_hdf` builds. */
  function Understand(m: Framing.Message): Option<Call> {
    var d := Decode(m);
    if !d.Accepted? then None
    else
      var t := ReadString(FromBytes(d.request.text));
      if t.Parsed? then Some(Call(d.request.id, d.request.cmd, d.request.flags, d.request.ename, t.node)) else None
  }

  /** What is left of a call is what the printer keeps of its tree; everything else is as it was. */
  lemma CallIsUnderstood(c: Call)
    requires Deliverable(c)
    ensures ServerAccepts(Message(c))
    ensures Understand(Message(c)) == Some(c.(tree := EMPTY.(kids := Kept(c.tree.kids))))
  {
    var r := RequestOf(c);
    RequestReadsBack(r);
    assert FromBytes(r.text) == WriteString(c.tree);
    PrintedReadsBack(c.tree);
  }

  /**
   * Any sequence of calls, in any chunks: the server gets exactly these calls, in order, and
   * no bytes are left over.
   */
  lemma CallsArrive(cs: seq<Call>, chunks: seq<seq<Byte>>)
    requires forall i :: 0 <= i < |cs| ==> Deliverable(cs[i])
    requires Concat(chunks) == Join(Messages(cs))
    ensures var ms := Messages(cs);
            && Feed(chunks, ServerAccepts) == Outcome(ms, Waiting([]))
            && forall i :: 0 <= i < |cs| ==>
                 Understand(ms[i]) == Some(cs[i].(tree := EMPTY.(kids := Kept(cs[i].tree.kids))))
  {
    var ms := Messages(cs);
    forall i | 0 <= i < |cs|
      ensures ServerAccepts(ms[i])
      ensures Understand(ms[i]) == Some(cs[i].(tree := EMPTY.(kids := Kept(cs[i].tree.kids))))
    {
      CallIsUnderstood(cs[i]);
    }
    hide Deliverable, Understand, Message, ServerAccepts, Kept;
    ChunkingIsIrrelevant(chunks, ServerAccepts);
    DeframeJoin(ms, [], ServerAccepts);
    assert Join(ms) + [] == Join(ms);
  }

  /** A tree that the printer writes in full arrives as it is. */
  lemma LosslessArrives(c: Call)
    requires Deliverable(c) && c.tree == EMPTY.(kids := c.tree.kids)
    ensures Understand(Message(c)) == Some(c) <==> Lossless(c.tree.kids)
  {
    assert Printable(c.tree.kids);
    hide *;
    CallIsUnderstood(c);
    KeptIsAll(c.tree.kids);
  }
}
