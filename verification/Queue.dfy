/**
 * The request queue: a list linked from the bottom, where entries leave, to the top.
 * `queue_put`, `queue_cas` and `queue_get` of server/queue.c and their twins in the client.
 */
module Queue {
  class Entry {
    const id: nat
    var prev: Entry?

    constructor (id: nat)
      ensures this.id == id && prev == null
    {
      this.id, prev := id, null;
    }
  }

  ghost function At(es: seq<Entry>, i: nat): Entry? {
    if i < |es| then es[i] else null
  }

  /** Every entry leads to the one that leaves after it. */
  ghost predicate Linked(es: seq<Entry>)
    reads es`prev
  {
    forall i :: 0 <= i < |es| ==> es[i].prev == At(es, i + 1)
  }

  ghost predicate Distinct(es: seq<Entry>) {
    forall i, j :: 0 <= i < j < |es| ==> es[i] != es[j]
  }

  ghost function Ids(es: seq<Entry>): (r: seq<nat>)
    ensures |r| == |es| && forall i :: 0 <= i < |es| ==> r[i] == es[i].id
  {
    seq(|es|, i requires 0 <= i < |es| => es[i].id)
  }

  class Queue {
    var size: nat
    var top: Entry?
    var bottom: Entry?
    /** The entries in the order in which they will leave. */
    ghost var es: seq<Entry>

    ghost predicate Valid()
      reads this, es`prev
    {
      && size == |es| && bottom == At(es, 0) && top == (if es == [] then null else es[|es| - 1])
      && Linked(es) && Distinct(es)
    }

    ghost function Contents(): seq<nat>
      reads this
    {
      Ids(es)
    }

    constructor ()
      ensures Valid() && Contents() == []
    {
      size, top, bottom, es := 0, null, null, [];
    }

    /** `queue_put`: the entry leaves after all that are there. */
    method Put(e: Entry)
      requires Valid() && e !in es && e.prev == null
      modifies this, es`prev
      ensures Valid() && es == old(es) + [e] && Contents() == old(Contents()) + [e.id]
    {
      if top == null {
        top, bottom := e, e;
      } else {
        LinkTop(top, e, es);
        top := e;
      }
      hide Linked;
      size, es := size + 1, es + [e];
    }

    /** `queue_cas`: the entry leaves before all that are there. */
    method Cas(e: Entry)
      requires Valid() && e !in es && e.prev == null
      modifies this, e`prev
      ensures Valid() && es == [e] + old(es) && Contents() == [e.id] + old(Contents())
    {
      if top == null {
        top, bottom := e, e;
      } else {
        LinkBottom(bottom, e, es);
        bottom := e;
      }
      hide Linked;
      size, es := size + 1, [e] + es;
    }

    /** `queue_get`. */
    method Get() returns (e: Entry?)
      requires Valid()
      modifies this
      ensures Valid()
      ensures e == null <==> old(es) == []
      ensures e == null ==> es == []
      ensures e != null ==> old(es) == [e] + es && old(Contents()) == [e.id] + Contents()
    {
      if bottom == null {
        return null;
      }
      Rest(es);
      hide Linked, Distinct, Ids;
      e := bottom;
      bottom := bottom.prev;
      if bottom == null {
        top := null;
      }
      size, es := size - 1, es[1..];
    }

    /** The loop of `queue_free`: all that are left leave, in order. */
    method Drain() returns (gone: seq<nat>)
      requires Valid()
      modifies this
      ensures Valid() && es == [] && gone == old(Contents())
    {
      hide Linked, Distinct, Ids;
      gone := [];
      var e := Get();
      while e != null
        invariant Valid()
        invariant old(Contents()) == gone + (if e == null then [] else [e.id]) + Contents()
        invariant e == null ==> es == []
        decreases size, e != null
      {
        gone := gone + [e.id];
        e := Get();
      }
    }
  }

  /** What is left when the first entry has gone. */
  lemma Rest(es: seq<Entry>)
    requires es != [] && Linked(es) && Distinct(es)
    ensures var r := es[1..];
            && es == [es[0]] + r && Ids(es) == [es[0].id] + Ids(r)
            && Linked(r) && Distinct(r) && At(r, 0) == es[0].prev && (r != [] ==> r[|r| - 1] == es[|es| - 1])
  {}

  method LinkTop(top: Entry, e: Entry, ghost es: seq<Entry>)
    requires es != [] && top == es[|es| - 1] && Linked(es) && Distinct(es) && e !in es && e.prev == null
    modifies top`prev
    ensures Linked(es + [e])
  {
    top.prev := e;
  }

  method LinkBottom(bottom: Entry, e: Entry, ghost es: seq<Entry>)
    requires es != [] && bottom == es[0] && Linked(es) && e !in es
    modifies e`prev
    ensures Linked([e] + es)
  {
    e.prev := bottom;
  }
}
