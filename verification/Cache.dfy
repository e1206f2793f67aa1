/**
 * The cache itself: a table of doubly linked chains changed in place. Every operation is
 * proved to do to its chain what CacheRun says, and to leave the other chains alone.
 */
module Cache {
  import opened Bytes
  import Decimal
  import opened CacheRun

  class Entry {
    const key: Key
    var val: Val
    var expire: int
    var prev: Entry?
    var next: Entry?

    constructor (key: Key, val: Val, expire: int)
      ensures this.key == key && this.val == val && this.expire == expire && prev == null && next == null
    {
      this.key, this.val, this.expire, prev, next := key, val, expire, null, null;
    }
  }

  ghost function Nth(es: seq<Entry>, i: int): Entry? {
    if 0 <= i < |es| then es[i] else null
  }

  ghost predicate Forward(es: seq<Entry>)
    reads es`next
  {
    forall i :: 0 <= i < |es| ==> es[i].next == Nth(es, i + 1)
  }

  ghost predicate Backward(es: seq<Entry>)
    reads es`prev
  {
    forall i :: 0 <= i < |es| ==> es[i].prev == Nth(es, i - 1)
  }

  ghost predicate Distinct(es: seq<Entry>) {
    forall i, j :: 0 <= i < j < |es| ==> es[i].key != es[j].key
  }

  ghost function Items(es: seq<Entry>): (c: Chain)
    reads es`val, es`expire
    ensures |c| == |es|
  {
    if es == [] then [] else [Item(es[0].key, es[0].val, es[0].expire)] + Items(es[1..])
  }

  lemma {:induction false} ItemsAt(es: seq<Entry>)
    ensures forall i :: 0 <= i < |es| ==> Items(es)[i] == Item(es[i].key, es[i].val, es[i].expire)
  {
    if es == [] {
    } else {
      ItemsAt(es[1..]);
    }
  }

  // ----- Links -----

  ghost predicate Missing(e: Entry, es: seq<Entry>) {
    forall i :: 0 <= i < |es| ==> es[i] != e
  }

  /** Put e in front of a list that is not empty. */
  method LinkFront(e: Entry, first: Entry, ghost es: seq<Entry>)
    requires es != [] && first == es[0] && Forward(es) && Backward(es) && Distinct(es)
    requires e.prev == null && Missing(e, es)
    modifies e`next, first`prev
    ensures Forward([e] + es) && Backward([e] + es)
  {
    e.next := first;
    first.prev := e;
  }

  ghost function Cut(es: seq<Entry>, i: nat): seq<Entry>
    requires i < |es|
  {
    es[..i] + es[i + 1..]
  }

  lemma Apart(es: seq<Entry>, i: nat)
    requires Distinct(es) && i < |es|
    ensures forall j :: 0 <= j < |es| && j != i ==> es[j] != es[i]
  {}

  /** The entry before the i-th skips it. */
  method SkipForward(p: Entry, e: Entry, ghost es: seq<Entry>, ghost i: nat)
    requires Forward(es) && Distinct(es) && 0 < i < |es| && e == es[i] && p == es[i - 1]
    modifies p`next
    ensures Forward(Cut(es, i)) && e.next == old(e.next)
  {
    Apart(es, i - 1);
    hide Distinct;
    p.next := e.next;
  }

  /** The entry after the i-th skips it. */
  method SkipBackward(e: Entry, n: Entry?, back: Entry?, ghost es: seq<Entry>, ghost i: nat)
    requires Backward(es) && Distinct(es) && i < |es| && e == es[i] && n == Nth(es, i + 1) && back == Nth(es, i - 1)
    modifies (if n == null then {} else {n})`prev
    ensures Backward(Cut(es, i)) && e.prev == old(e.prev)
  {
    hide Backward, Skipped, Distinct, Cut;
    if n == null {
      NotSkipped(es, i);
    } else {
      Relink(n, back, es, i);
    }
    CutBackward(es, i);
  }

  /** A list linked backwards, but with the entry after the i-th linked to the one before it. */
  ghost predicate Skipped(es: seq<Entry>, i: nat)
    reads es`prev
  {
    forall j :: 0 <= j < |es| ==> es[j].prev == Nth(es, if j == i + 1 then i - 1 else j - 1)
  }

  lemma NotSkipped(es: seq<Entry>, i: nat)
    requires Backward(es) && i < |es| && Nth(es, i + 1) == null
    ensures Skipped(es, i)
  {}

  method Relink(n: Entry, back: Entry?, ghost es: seq<Entry>, ghost i: nat)
    requires Backward(es) && Distinct(es) && i + 1 < |es| && n == es[i + 1] && back == Nth(es, i - 1)
    modifies n`prev
    ensures Skipped(es, i) && es[i].prev == old(es[i].prev)
  {
    Apart(es, i + 1);
    hide Distinct;
    n.prev := back;
  }

  lemma CutBackward(es: seq<Entry>, i: nat)
    requires i < |es| && Skipped(es, i)
    ensures Backward(Cut(es, i))
  {
    var r := Cut(es, i);
    forall j | 0 <= j < |r| ensures r[j].prev == Nth(r, j - 1) {
      CutNth(es, i, j);
      CutNth(es, i, j - 1);
      hide Cut, Nth;
    }
  }

  lemma CutNth(es: seq<Entry>, i: nat, j: int)
    requires i < |es|
    ensures Nth(Cut(es, i), j) == Nth(es, if j < i then j else j + 1)
    ensures 0 <= j < |es| - 1 ==> Cut(es, i)[j] == es[if j < i then j else j + 1]
  {}

  class ChainList {
    var len: nat
    var first: Entry?
    var last: Entry?
    ghost var es: seq<Entry>

    ghost predicate Valid()
      reads this, es`prev, es`next
    {
      && len == |es| && first == Nth(es, 0) && last == Nth(es, |es| - 1)
      && Forward(es) && Backward(es) && Distinct(es)
    }

    constructor ()
      ensures Valid() && es == []
    {
      len, first, last, es := 0, null, null, [];
    }

    ghost function Content(): Chain
      reads this, es`val, es`expire
    {
      Items(es)
    }

    /** `find_in_chain`. */
    method Find(key: Key) returns (e: Entry?, ghost i: nat)
      requires Valid()
      ensures i == IndexOf(Content(), key)
      ensures e == Nth(es, IndexOf(Content(), key))
      ensures e != null ==> Content()[i] == Item(e.key, e.val, e.expire)
    {
      ItemsAt(es);
      hide Items, Backward, Distinct;
      e, i := first, 0;
      while e != null && e.key != key
        invariant 0 <= i <= |es| && e == Nth(es, i)
        invariant forall j :: 0 <= j < i ==> es[j].key != key
        decreases |es| - i
      {
        e, i := e.next, i + 1;
      }
    }

    /** A new entry goes to the front. */
    method PushFront(e: Entry)
      requires Valid() && e !in es && e.prev == null && e.next == null
      requires forall i :: 0 <= i < |es| ==> es[i].key != e.key
      modifies this, e`next, es`prev
      ensures Valid() && es == [e] + old(es)
    {
      hide Distinct, Forward, Backward, Missing, Nth;
      FrontDistinct(e, es);
      FrontEnds(e, es);
      NotEmpty(es);
      ghost var r := [e] + es;
      if len == 0 {
        Alone(e);
        last := e;
      } else {
        LinkFront(e, first, es);
      }
      assert Forward(r) && Backward(r) && last == Nth(r, |r| - 1);
      first, len, es := e, len + 1, r;
    }

    /** A full chain gives up its last entry for a new one. */
    method ReplaceLast(e: Entry)
      requires Valid() && |es| >= 2 && e !in es && e.prev == null && e.next == null
      requires forall i :: 0 <= i < |es| ==> es[i].key != e.key
      modifies this, e`next, es`prev, es`next
      ensures Valid() && es == [e] + old(es)[..|old(es)| - 1]
    {
      hide Distinct, Forward, Backward, Nth, Missing;
      ghost var kept := es[..|es| - 1];
      KeptDistinct(es, e);
      LastTwo(es);
      Neighbours(es, |es| - 1);
      last := last.prev;
      CutLast(last, es);
      ghost var r := [e] + kept;
      FrontEnds(e, kept);
      LinkFront(e, first, kept);
      assert Forward(r) && Backward(r) && last == Nth(r, |r| - 1);
      first, es := e, r;
    }

    /** An entry that was set again moves to the front, if it is not there. */
    method Promote(e: Entry, ghost i: nat)
      requires Valid() && i < |es| && e == es[i]
      modifies this, es`prev, es`next
      ensures Valid() && es == [e] + Cut(old(es), i)
    {
      hide Distinct, Forward, Backward, Nth, Missing, Cut;
      AtFront(es, i);
      FrontAgain(es, i);
      NotEmpty(es);
      ghost var r := [e] + Cut(es, i);
      if first != e {
        CutEnds(es, i);
        Neighbours(es, i);
        CutStart(es, i);
        FrontEnds(e, Cut(es, i));
        CutLinks(e, first, es, i);
        if last == e {
          last := e.prev;
        }
        DetachFront(e, first, es, i);
        first := e;
      }
      assert Forward(r) && Backward(r);
      es := r;
    }

    /** Take the i-th entry out of the chain, as `cache_del` does. */
    method Unlink(e: Entry, ghost i: nat)
      requires Valid() && i < |es| && e == es[i]
      modifies this, es`prev, es`next
      ensures Valid() && es == Cut(old(es), i)
    {
      hide Distinct, Forward, Backward, Cut;
      CutDistinct(es, i);
      CutEnds(es, i);
      Neighbours(es, i);
      CutLinks(e, first, es, i);
      if first == e {
        first := e.next;
      }
      if last == e {
        last := e.prev;
      }
      len := len - 1;
      es := Cut(es, i);
    }

    /** `cache_set`. */
    method SetEntry(key: Key, val: Val, timeout: int, now: int)
      requires Valid() && |es| <= CHAINLEN + 1
      modifies this, es
      ensures Valid() && Content() == SetIn(old(Content()), key, val, timeout, now)
      ensures forall e <- es :: e in old(es) || fresh(e)
    {
      hide Distinct, Forward, Backward, Items;
      var e, i := Find(key);
      if e == null {
        AddEntry(key, val, Expiry(timeout, now));
      } else {
        SetVal(e, i, val);
        MoveFront(e, i);
      }
    }

    method AddEntry(key: Key, val: Val, expire: int)
      requires Valid() && IndexOf(Content(), key) == |es| <= CHAINLEN + 1
      modifies this, es
      ensures Valid()
      ensures var was := old(Content());
              Content() == [Item(key, val, expire)] + (if old(len) <= CHAINLEN then was else was[..old(len) - 1])
      ensures forall e <- es :: e in old(es) || fresh(e)
    {
      hide Distinct, Forward, Backward, Items;
      var e := new Entry(key, val, expire);
      NoSuchKey(es, key);
      if len <= CHAINLEN {
        ItemsFront(e, es);
        PushFront(e);
      } else {
        ItemsInit(es);
        ItemsFront(e, es[..|es| - 1]);
        ReplaceLast(e);
      }
    }

    method MoveFront(e: Entry, ghost i: nat)
      requires Valid() && i < |es| && e == es[i]
      modifies this, es
      ensures Valid() && Content() == [old(Content())[i]] + Drop(old(Content()), i)
      ensures forall e <- es :: e in old(es)
    {
      hide Distinct, Forward, Backward, Items, Cut, Drop;
      ItemsToFront(es, i);
      CutIsPart(es, i);
      ghost var target := [e] + Cut(es, i);
      ghost var items := Items(target);
      Promote(e, i);
      assert Items(target) == items;
    }

    method SetVal(e: Entry, ghost i: nat, val: Val)
      requires Valid() && i < |es| && e == es[i]
      modifies e`val
      ensures Valid() && Content() == PutIn(old(Content()), i, val)
    {
      hide Distinct, Forward, Backward, Items, PutIn;
      WriteVal(e, es, i, val);
    }

    method DropEntry(e: Entry, ghost i: nat)
      requires Valid() && i < |es| && e == es[i]
      modifies this, es
      ensures Valid() && Content() == Drop(old(Content()), i)
      ensures forall e <- es :: e in old(es)
    {
      hide Distinct, Forward, Backward, Items, Cut, Drop;
      ItemsToFront(es, i);
      CutIsPart(es, i);
      ghost var target := Cut(es, i);
      ghost var items := Items(target);
      Unlink(e, i);
      assert Items(target) == items;
    }

    /** `cache_get`: an entry that has expired is dropped and not returned. */
    method GetEntry(key: Key, now: int) returns (r: Reply)
      requires Valid()
      modifies this, es
      ensures Valid() && (Content(), r) == StepChain(old(Content()), Get(key), now)
      ensures forall e <- es :: e in old(es)
    {
      hide Distinct, Forward, Backward, Items;
      var e, i := Find(key);
      if e == null {
        return Miss;
      }
      if e.expire > 0 && e.expire < now {
        DropEntry(e, i);
        return Miss;
      }
      return Hit(e.val);
    }

    /** `cache_del`. */
    method DelEntry(key: Key) returns (r: Reply)
      requires Valid()
      modifies this, es
      ensures Valid() && forall now :: (Content(), r) == StepChain(old(Content()), Del(key), now)
      ensures forall e <- es :: e in old(es)
    {
      hide Distinct, Forward, Backward, Items;
      var e, i := Find(key);
      if e == null {
        return Miss;
      }
      DropEntry(e, i);
      return Deleted;
    }

    /** `cache_cas`. */
    method CasEntry(key: Key, expected: Val, val: Val) returns (r: Reply)
      requires Valid()
      modifies es
      ensures Valid() && forall now :: (Content(), r) == StepChain(old(Content()), Cas(key, expected, val), now)
    {
      hide Distinct, Forward, Backward, Items;
      var e, i := Find(key);
      if e == null {
        return Miss;
      }
      if e.val != expected {
        PutSame(Content(), i);
        return Differs;
      }
      SetVal(e, i, val);
      return Swapped;
    }

    /** `cache_incr`. */
    method IncrEntry(key: Key, amount: int) returns (r: Reply)
      requires Valid()
      modifies es
      ensures Valid() && forall now :: (Content(), r) == StepChain(old(Content()), Incr(key, amount), now)
    {
      hide Distinct, Forward, Backward, Items;
      var e, i := Find(key);
      if e == null {
        return Miss;
      }
      if !Decimal.IsText(e.val) {
        PutSame(Content(), i);
        return NotText;
      }
      var n := Decimal.Strtoll(e.val) + amount;
      SetVal(e, i, Decimal.Rewritten(e.val, n));
      return Counted(n);
    }

    /** Any operation, on the chain of its key. */
    method Perform(op: Op, now: int) returns (r: Reply)
      requires Valid() && |es| <= CHAINLEN + 1
      modifies this, es
      ensures Valid() && (Content(), r) == StepChain(old(Content()), op, now)
      ensures forall e <- es :: e in old(es) || fresh(e)
    {
      hide Distinct, Forward, Backward, Items, SetIn;
      match op {
        case Get(key) => r := GetEntry(key, now);
        case Set(key, val, timeout) => SetEntry(key, val, timeout, now); r := Stored;
        case Del(key) => r := DelEntry(key);
        case Cas(key, expected, val) => r := CasEntry(key, expected, val);
        case Incr(key, amount) => r := IncrEntry(key, amount);
      }
    }
  }

  method WriteVal(e: Entry, ghost es: seq<Entry>, ghost i: nat, val: Val)
    requires i < |es| && e == es[i] && Distinct(es)
    modifies e`val
    ensures Items(es) == PutIn(old(Items(es)), i, val)
  {
    Apart(es, i);
    ItemsAt(es);
    hide Distinct, Items;
    e.val := val;
    ItemsAt(es);
  }

  lemma {:induction false} ItemsCut(es: seq<Entry>, i: nat)
    requires i < |es|
    ensures Items(Cut(es, i)) == Drop(Items(es), i)
  {
    if i == 0 {
      assert Cut(es, 0) == es[1..];
    } else {
      ItemsCut(es[1..], i - 1);
      assert Cut(es, i) == [es[0]] + Cut(es[1..], i - 1);
      ItemsFront(es[0], Cut(es[1..], i - 1));
    }
  }

  lemma ItemsFront(e: Entry, es: seq<Entry>)
    ensures Items([e] + es) == [Item(e.key, e.val, e.expire)] + Items(es)
  {
    assert ([e] + es)[1..] == es;
  }

  lemma ItemsToFront(es: seq<Entry>, i: nat)
    requires i < |es|
    ensures Items([es[i]] + Cut(es, i)) == [Items(es)[i]] + Drop(Items(es), i)
    ensures Items(Cut(es, i)) == Drop(Items(es), i)
  {
    ItemsCut(es, i);
    ItemsFront(es[i], Cut(es, i));
    ItemsAt(es);
    hide Items, Cut, Drop;
  }

  lemma CutIsPart(es: seq<Entry>, i: nat)
    requires i < |es|
    ensures forall e <- Cut(es, i) :: e in es
  {}

  lemma {:induction false} ItemsInit(es: seq<Entry>)
    requires es != []
    ensures Items(es[..|es| - 1]) == Items(es)[..|es| - 1]
  {
    ItemsAt(es);
    ItemsAt(es[..|es| - 1]);
    hide Items;
  }

  lemma KeptDistinct(es: seq<Entry>, e: Entry)
    requires Distinct(es) && es != [] && forall i :: 0 <= i < |es| ==> es[i].key != e.key
    ensures Distinct(es[..|es| - 1]) && Distinct([e] + es[..|es| - 1])
    ensures Missing(e, es[..|es| - 1])
  {}

  lemma Alone(e: Entry)
    requires e.prev == null && e.next == null
    ensures Forward([e]) && Backward([e])
  {}

  lemma NotEmpty(es: seq<Entry>)
    ensures es != [] ==> Nth(es, 0) == es[0] && Nth(es, |es| - 1) == es[|es| - 1]
  {}

  lemma LastTwo(es: seq<Entry>)
    requires |es| >= 2
    ensures Nth(es, 0) == es[0] && Nth(es, |es| - 1) == es[|es| - 1] && Nth(es, |es| - 2) == es[|es| - 2]
    ensures var kept := es[..|es| - 1]; kept[0] == es[0] && Nth(kept, |kept| - 1) == es[|es| - 2]
  {}

  lemma FrontEnds(e: Entry, es: seq<Entry>)
    ensures var r := [e] + es;
            && |r| == |es| + 1 && Nth(r, 0) == e
            && Nth(r, |r| - 1) == (if es == [] then e else Nth(es, |es| - 1))
            && (es == [] ==> r == [e])
  {}

  lemma FrontDistinct(e: Entry, es: seq<Entry>)
    requires Distinct(es) && forall i :: 0 <= i < |es| ==> es[i].key != e.key
    ensures Distinct([e] + es) && Missing(e, es)
  {}

  lemma FrontAgain(es: seq<Entry>, i: nat)
    requires Distinct(es) && i < |es|
    ensures Distinct(Cut(es, i)) && Distinct([es[i]] + Cut(es, i))
    ensures i == 0 ==> [es[i]] + Cut(es, i) == es
    ensures Missing(es[i], Cut(es, i))
  {}

  /** Put the i-th entry, cut out of its list, in front of it. */
  method DetachFront(e: Entry, first: Entry, ghost es: seq<Entry>, ghost i: nat)
    requires 0 < i < |es| && e == es[i] && Distinct(es)
    requires Cut(es, i) != [] && first == Cut(es, i)[0] && Forward(Cut(es, i)) && Backward(Cut(es, i))
    requires Distinct(Cut(es, i)) && Missing(e, Cut(es, i))
    modifies e`prev, e`next, first`prev
    ensures Forward([e] + Cut(es, i)) && Backward([e] + Cut(es, i))
  {
    hide Distinct, Forward, Backward, Cut, Missing;
    EntryGone(es, i);
    e.prev := null;
    assert Backward(Cut(es, i));
    LinkFront(e, first, Cut(es, i));
  }

  lemma CutStart(es: seq<Entry>, i: nat)
    requires 0 < i < |es|
    ensures Cut(es, i) != [] && Cut(es, i)[0] == es[0]
    ensures forall x <- Cut(es, i) :: x in es
  {}

  lemma EntryGone(es: seq<Entry>, i: nat)
    requires Distinct(es) && i < |es|
    ensures es[i] !in Cut(es, i)
  {}

  /** Drop the last of at least two entries. */
  method CutLast(p: Entry, ghost es: seq<Entry>)
    requires Forward(es) && Backward(es) && Distinct(es) && |es| >= 2 && p == es[|es| - 2]
    modifies p`next
    ensures Forward(es[..|es| - 1]) && Backward(es[..|es| - 1])
  {
    Apart(es, |es| - 2);
    hide Distinct;
    p.next := null;
  }

  /** The relinking of `cache_del`. */
  method CutLinks(e: Entry, first: Entry, ghost es: seq<Entry>, ghost i: nat)
    requires Forward(es) && Backward(es) && Distinct(es) && i < |es| && e == es[i] && first == es[0]
    modifies es`prev, es`next
    ensures Forward(Cut(es, i)) && Backward(Cut(es, i))
    ensures e.prev == old(e.prev) && e.next == old(e.next)
  {
    hide Distinct, Forward, Backward, Cut;
    Neighbours(es, i);
    AtFront(es, i);
    if first == e {
      ForwardTail(es);
      assert Forward(Cut(es, i));
      SkipBackward(e, e.next, null, es, i);
      assert Forward(Cut(es, i));
    } else {
      SkipForward(e.prev, e, es, i);
      assert Forward(Cut(es, i));
      SkipBackward(e, e.next, e.prev, es, i);
      assert Forward(Cut(es, i));
    }
  }

  /** The ends of a list without its i-th entry. */
  lemma CutEnds(es: seq<Entry>, i: nat)
    requires i < |es| && Distinct(es)
    ensures |Cut(es, i)| == |es| - 1
    ensures Nth(Cut(es, i), 0) == if es[0] == es[i] then Nth(es, i + 1) else es[0]
    ensures Nth(Cut(es, i), |es| - 2) == if es[|es| - 1] == es[i] then Nth(es, i - 1) else es[|es| - 1]
  {
    AtFront(es, i);
    AtBack(es, i);
  }

  lemma CutDistinct(es: seq<Entry>, i: nat)
    requires Distinct(es) && i < |es|
    ensures Distinct(Cut(es, i))
  {}

  lemma Neighbours(es: seq<Entry>, i: nat)
    requires Forward(es) && Backward(es) && i < |es|
    ensures es[i].next == Nth(es, i + 1) && es[i].prev == Nth(es, i - 1)
  {}

  lemma AtFront(es: seq<Entry>, i: nat)
    requires Distinct(es) && i < |es|
    ensures es[0] == es[i] <==> i == 0
  {}

  lemma AtBack(es: seq<Entry>, i: nat)
    requires Distinct(es) && i < |es|
    ensures es[|es| - 1] == es[i] <==> i == |es| - 1
  {}

  lemma ForwardTail(es: seq<Entry>)
    requires Forward(es) && es != []
    ensures Forward(Cut(es, 0))
  {}

  lemma NoSuchKey(es: seq<Entry>, key: Key)
    requires IndexOf(Items(es), key) == |es|
    ensures forall i :: 0 <= i < |es| ==> es[i].key != key
  {
    ItemsAt(es);
    hide Items;
  }

  // ----- The table -----

  /** An intact chain that holds these items, all of whose objects are in `all`. */
  ghost predicate Holds(c: ChainList, items: Chain, all: set<object>)
    reads all
  {
    c in all && (forall e <- c.es :: e in all) && c.Valid() && c.Content() == items
  }

  /** Chains of different buckets share no entry, since no key belongs to two buckets. */
  lemma InBucket(c: ChainList, b: nat, n: nat, hash: Key -> nat)
    requires n > 0 && ChainOk(c.Content(), b, n, hash)
    ensures forall e <- c.es :: hash(e.key) % n == b
    ensures |c.es| <= CHAINLEN + 1
  {
    ItemsAt(c.es);
    hide Items, DistinctKeys;
    forall e <- c.es ensures hash(e.key) % n == b {
      var i :| 0 <= i < |c.es| && c.es[i] == e;
      assert c.Content()[i].key == e.key;
    }
  }

  lemma Inside(c: ChainList, items: Chain, all: set<object>)
    requires Holds(c, items, all)
    ensures c in all && forall e <- c.es :: e in all
  {}

  lemma NoneShared(table: seq<ChainList>, st: State, all: set<object>, b: nat, hash: Key -> nat)
    requires b < |table| == |st| && Shape(st, hash)
    requires forall d :: 0 <= d < |table| ==> Holds(table[d], st[d], all)
    ensures |table[b].es| <= CHAINLEN + 1
    ensures forall d, e :: 0 <= d < |table| && d != b && e in table[d].es ==> e !in table[b].es
  {
    var n := |table|;
    hide Items, Forward, Backward, Distinct;
    forall d | 0 <= d < n ensures forall e <- table[d].es :: hash(e.key) % n == d {
      assert Holds(table[d], st[d], all);
      InBucket(table[d], d, n, hash);
    }
    InBucket(table[b], b, n, hash);
  }

  ghost predicate NoRepeat(table: seq<ChainList>) {
    forall i, j :: 0 <= i < j < |table| ==> table[i] != table[j]
  }

  /** Every chain of a run keeps to its bucket. */
  lemma RunShape(n: nat, events: seq<Event>, hash: Key -> nat)
    requires n > 0
    ensures Shape(Run(Empty(n), events, hash).0, hash)
  {
    RunsAgree(n, events, hash);
  }

  method NewTable(n: nat) returns (table: seq<ChainList>, ghost all: set<object>)
    ensures |table| == n && NoRepeat(table) && fresh(all)
    ensures forall b :: 0 <= b < n ==> Holds(table[b], [], all)
  {
    table, all := [], {};
    for i := 0 to n
      invariant |table| == i && NoRepeat(table) && fresh(all)
      invariant forall b :: 0 <= b < i ==> table[b] in all && table[b].es == [] && Holds(table[b], [], all)
    {
      var c := new ChainList();
      table, all := table + [c], all + {c};
    }
  }

  class Cache {
    const hash: Key -> nat
    const table: seq<ChainList>
    ghost var all: set<object>
    /** All operations so far. */
    ghost var events: seq<Event>
    ghost var st: State

    ghost predicate Valid()
      reads this, all
    {
      && |table| > 0 && |st| == |table| && this !in all
      && NoRepeat(table)
      && (forall b :: 0 <= b < |table| ==> Holds(table[b], st[b], all))
      && st == Run(Empty(|table|), events, hash).0
    }

    /** `cache_create`: one chain for every four objects. */
    constructor (numobjs: nat, hash: Key -> nat)
      requires numobjs >= 4
      ensures Valid() && fresh(all) && events == [] && |table| == numobjs / 4 && this.hash == hash
    {
      var n := numobjs / CHAINLEN;
      var cs, objects := NewTable(n);
      this.hash, table, all, events, st := hash, cs, objects, [], Empty(n);
      new;
      assert forall b :: 0 <= b < |table| ==> Holds(table[b], [], all);
    }

    /**
     * Any operation: the answer is the one that the run so far calls for, and the chains
     * are those of that run.
     */
    method Perform(op: Op, now: int) returns (r: Reply)
      requires Valid()
      modifies this, all
      ensures Valid() && fresh(all - old(all))
      ensures events == old(events) + [Event(op, now)]
      ensures r == Run(Empty(|table|), events, hash).1[|old(events)|]
    {
      hide Run, StepChain, Shape, Holds, NoRepeat;
      RunShape(|table|, events, hash);
      RunStep(|table|, events, Event(op, now), hash);
      var b := hash(op.key) % |table|;
      NoneShared(table, st, all, b, hash);
      Inside(table[b], st[b], all);
      r, all, st := OnChain(table, b, op, now, st, all);
      events := events + [Event(op, now)];
    }
  }

  /** An operation on chain b leaves the other chains as they are. */
  method OnChain(table: seq<ChainList>, b: nat, op: Op, now: int, ghost st: State, ghost all: set<object>)
    returns (r: Reply, ghost all': set<object>, ghost st': State)
    requires b < |table| == |st| && |table[b].es| <= CHAINLEN + 1
    requires NoRepeat(table)
    requires forall d :: 0 <= d < |table| ==> Holds(table[d], st[d], all)
    requires forall d, e :: 0 <= d < |table| && d != b && e in table[d].es ==> e !in table[b].es
    modifies table[b], table[b].es
    ensures all <= all' && fresh(all' - all)
    ensures st' == st[b := StepChain(st[b], op, now).0] && r == StepChain(st[b], op, now).1
    ensures forall d :: 0 <= d < |table| ==> Holds(table[d], st'[d], all')
  {
    hide ChainList.Valid, Items, StepChain;
    assert Holds(table[b], st[b], all);

    r := table[b].Perform(op, now);
    all' := all + set e | e in table[b].es;
    st' := st[b := table[b].Content()];
    forall d | 0 <= d < |table| && d != b ensures Holds(table[d], st[d], all') {
      assert old(Holds(table[d], st[d], all));
      assert forall e <- table[d].es :: e !in old(table[b].es);
      assert forall e <- table[d].es :: e.val == old(e.val) && e.expire == old(e.expire);
      assert forall e <- table[d].es :: e.prev == old(e.prev) && e.next == old(e.next);
      assert table[d].Valid();
      assert table[d].Content() == old(table[d].Content());
    }
  }

  lemma RunStep(n: nat, events: seq<Event>, e: Event, hash: Key -> nat)
    requires n > 0
    ensures var (st, replies) := Run(Empty(n), events, hash);
            var (after, reply) := Step(st, e.op, e.now, hash);
            Run(Empty(n), events + [e], hash) == (after, replies + [reply])
  {
    assert (events + [e])[..|events|] == events;
  }
}
