/**
 * What the answers of the cache say about the past of a run: a hit is never too old, and a
 * key is forgotten only for a reason.
 */
module CacheHistory {
  import opened Bytes
  import Decimal
  import opened CacheRun

  predicate Has(c: Chain, key: Key) {
    IndexOf(c, key) < |c|
  }

  /** The chain of a key after a run. */
  function ChainOf(n: nat, events: seq<Event>, hash: Key -> nat, key: Key): Chain
    requires n > 0
  {
    var st := Run(Empty(n), events, hash).0;
    if hash(key) % n < |st| then st[hash(key) % n] else []
  }

  predicate Present(n: nat, events: seq<Event>, hash: Key -> nat, key: Key)
    requires n > 0
  {
    Has(ChainOf(n, events, hash, key), key)
  }

  // ----- When an entry was made -----

  /**
   * The entry of the key was made by the set of step j: the key was not there before, and has
   * been there ever since.
   */
  predicate BornAt(n: nat, events: seq<Event>, hash: Key -> nat, j: nat, key: Key)
    requires n > 0
  {
    && j < |events| && events[j].op.Set? && events[j].op.key == key
    && !Present(n, events[..j], hash, key)
    && forall i :: j < i <= |events| ==> Present(n, events[..i], hash, key)
  }

  function ExpiryOf(e: Event): int
    requires e.op.Set?
  {
    Expiry(e.op.timeout, e.now)
  }

  /** A set with a timeout has run out once its time plus the timeout is past, if that is a time after 0. */
  predicate PassedBy(e: Event, now: int)
    requires e.op.Set?
  {
    e.op.timeout != 0 && 0 < e.now + e.op.timeout < now
  }

  /** An entry is made only once. */
  lemma BornOnce(n: nat, events: seq<Event>, hash: Key -> nat, j: nat, k: nat, key: Key)
    requires n > 0 && BornAt(n, events, hash, j, key) && BornAt(n, events, hash, k, key)
    ensures j == k
  {
    hide Present;
  }

  /** Where the entries of a chain, and their expiries, come from. */
  lemma StepItems(c: Chain, op: Op, now: int, i: nat)
    requires DistinctKeys(c) && i < |StepChain(c, op, now).0|
    ensures var e := StepChain(c, op, now).0[i];
            if Has(c, e.key) then c[IndexOf(c, e.key)].expire == e.expire
            else op.Set? && e.key == op.key && e.expire == Expiry(op.timeout, now)
  {
    hide OnValue;
    var r := StepChain(c, op, now).0;
    var k := IndexOf(c, op.key);
    match op {
      case Set(_, _, _) =>
        if k < |c| {
          var j := if i == 0 then k else if i <= k then i - 1 else i;
          ItemAt(c, j, r[i]);
        } else if i > 0 {
          ItemAt(c, i - 1, r[i]);
        }
      case Get(_) => DropItem(c, k, r, i);
      case Del(_) => DropItem(c, k, r, i);
      case _ => ItemAt(c, i, r[i]);
    }
  }

  lemma ItemAt(c: Chain, j: nat, e: Item)
    requires DistinctKeys(c) && j < |c| && c[j].key == e.key && c[j].expire == e.expire
    ensures Has(c, e.key) && c[IndexOf(c, e.key)].expire == e.expire
  {}

  lemma DropItem(c: Chain, k: nat, r: Chain, i: nat)
    requires DistinctKeys(c) && (r == c || (k < |c| && r == Drop(c, k))) && i < |r|
    ensures Has(c, r[i].key) && c[IndexOf(c, r[i].key)].expire == r[i].expire
  {
    ItemAt(c, if r == c || i < k then i else i + 1, r[i]);
  }

  /** What one step does to a key. */
  lemma KeyStep(c: Chain, op: Op, now: int, key: Key)
    requires DistinctKeys(c) && Has(StepChain(c, op, now).0, key)
    ensures var r := StepChain(c, op, now).0;
            var expire := r[IndexOf(r, key)].expire;
            if Has(c, key) then c[IndexOf(c, key)].expire == expire
            else op.Set? && op.key == key && expire == Expiry(op.timeout, now)
  {
    var r := StepChain(c, op, now).0;
    hide StepChain, DistinctKeys;
    StepItems(c, op, now, IndexOf(r, key));
  }

  lemma ChainStep(n: nat, init: seq<Event>, e: Event, hash: Key -> nat, key: Key)
    requires n > 0
    ensures DistinctKeys(ChainOf(n, init, hash, key))
    ensures ChainOf(n, init + [e], hash, key) ==
            if hash(e.op.key) % n == hash(key) % n then StepChain(ChainOf(n, init, hash, key), e.op, e.now).0
            else ChainOf(n, init, hash, key)
  {
    ChainIsDistinct(n, init, hash, key);
    SameLength(n, init, hash);
    assert (init + [e])[..|init|] == init;
    hide StepChain, DistinctKeys;
  }

  lemma ChainIsDistinct(n: nat, events: seq<Event>, hash: Key -> nat, key: Key)
    requires n > 0
    ensures DistinctKeys(ChainOf(n, events, hash, key))
  {
    RunsAgree(n, events, hash);
    hide Run, RunStore, RunStamps, Agrees, Recent, DistinctKeys;
    var b := hash(key) % n;
    SameLength(n, events, hash);
    assert ChainOk(Run(Empty(n), events, hash).0[b], b, n, hash);
  }

  /** The key is there with this expiry, which it got when its entry was made. */
  ghost predicate HasBirth(n: nat, events: seq<Event>, hash: Key -> nat, key: Key, expire: int)
    requires n > 0
  {
    exists j: nat :: BornAt(n, events, hash, j, key) && ExpiryOf(events[j]) == expire
  }

  lemma BornStays(n: nat, init: seq<Event>, e: Event, hash: Key -> nat, j: nat, key: Key)
    requires n > 0 && BornAt(n, init, hash, j, key) && Present(n, init + [e], hash, key)
    ensures BornAt(n, init + [e], hash, j, key) && ExpiryOf((init + [e])[j]) == ExpiryOf(init[j])
  {
    hide Present;
    var events := init + [e];
    assert events[..j] == init[..j];
    forall i | j < i <= |events| ensures Present(n, events[..i], hash, key) {
      if i <= |init| {
        assert events[..i] == init[..i];
      } else {
        assert events[..i] == events;
      }
    }
  }

  lemma JustBorn(n: nat, init: seq<Event>, e: Event, hash: Key -> nat, key: Key)
    requires n > 0 && e.op.Set? && e.op.key == key
    requires !Present(n, init, hash, key) && Present(n, init + [e], hash, key)
    ensures BornAt(n, init + [e], hash, |init|, key) && ExpiryOf((init + [e])[|init|]) == ExpiryOf(e)
  {
    hide Present;
    var events := init + [e];
    assert events[..|init|] == init && events[..|events|] == events;
  }

  /** Every entry of every run has the expiry of the set that made it. */
  lemma {:induction false} ExpiryIsOfBirth(n: nat, events: seq<Event>, hash: Key -> nat, key: Key)
    requires n > 0 && Present(n, events, hash, key)
    ensures var c := ChainOf(n, events, hash, key);
            HasBirth(n, events, hash, key, c[IndexOf(c, key)].expire)
    decreases |events|
  {
    if events == [] {
      assert false;
    } else {
      var init, e := events[..|events| - 1], events[|events| - 1];
      assert events == init + [e];
      var c := ChainOf(n, init, hash, key);
      ChainStep(n, init, e, hash, key);
      hide BornAt, StepChain, IndexOf, ChainOf, DistinctKeys;
      if hash(e.op.key) % n == hash(key) % n {
        KeyStep(c, e.op, e.now, key);
      }
      if Has(c, key) {
        ExpiryIsOfBirth(n, init, hash, key);
        var j: nat :| BornAt(n, init, hash, j, key) && ExpiryOf(init[j]) == c[IndexOf(c, key)].expire;
        BornStays(n, init, e, hash, j, key);
      } else {
        JustBorn(n, init, e, hash, key);
      }
    }
  }

  ghost predicate Born(c: Chain, n: nat, events: seq<Event>, hash: Key -> nat)
    requires n > 0
  {
    forall i :: 0 <= i < |c| ==> HasBirth(n, events, hash, c[i].key, c[i].expire)
  }

  lemma RunsBorn(n: nat, events: seq<Event>, hash: Key -> nat, b: nat)
    requires n > 0 && b < n
    ensures |Run(Empty(n), events, hash).0| == n && Born(Run(Empty(n), events, hash).0[b], n, events, hash)
  {
    RunsAgree(n, events, hash);
    SameLength(n, events, hash);
    hide Run, HasBirth, Agrees, Recent;
    var c := Run(Empty(n), events, hash).0[b];
    assert ChainOk(c, b, n, hash);
    forall i | 0 <= i < |c| ensures HasBirth(n, events, hash, c[i].key, c[i].expire) {
      assert ChainOf(n, events, hash, c[i].key) == c;
      ItemAt(c, i, c[i]);
      ExpiryIsOfBirth(n, events, hash, c[i].key);
    }
  }

  // ----- Why a key is forgotten -----

  /** The keys of the same chain that were set after the last set of this one. */
  function Newer(stamps: Stamps, key: Key, n: nat, hash: Key -> nat): set<Key>
    requires n > 0 && key in stamps
  {
    set k | k in stamps && hash(k) % n == hash(key) % n && stamps[k] > stamps[key]
  }

  /** A get at step k, after step `since`, found the entry of the key past the expiry of the set that made it. */
  ghost predicate LateGet(n: nat, events: seq<Event>, hash: Key -> nat, k: nat, since: nat, key: Key)
    requires n > 0
  {
    && since < k < |events| && events[k].op == Get(key)
    && exists j: nat :: BornAt(n, events[..k], hash, j, key) && PassedBy(events[..k][j], events[k].now)
  }

  ghost predicate RanOut(n: nat, events: seq<Event>, hash: Key -> nat, since: nat, key: Key)
    requires n > 0
  {
    exists k: nat :: LateGet(n, events, hash, k, since, key)
  }

  ghost predicate Reason(events: seq<Event>, stamps: Stamps, key: Key, n: nat, hash: Key -> nat)
    requires n > 0
  {
    key in stamps && (|Newer(stamps, key, n, hash)| > CHAINLEN || RanOut(n, events, hash, stamps[key], key))
  }

  ghost predicate Remembers(c: Chain, b: nat, n: nat, hash: Key -> nat, m: Store, events: seq<Event>, stamps: Stamps)
    requires n > 0
  {
    forall key :: key in m && hash(key) % n == b && !Has(c, key) ==> Reason(events, stamps, key, n, hash)
  }

  lemma {:induction false} SubsetSize(a: set<Key>, b: set<Key>)
    requires a <= b
    ensures |a| <= |b|
  {
    if a == {} {
    } else {
      var x :| x in a;
      SubsetSize(a - {x}, b - {x});
    }
  }

  function KeySet(c: Chain): (r: set<Key>)
    ensures forall k :: k in r <==> exists i :: 0 <= i < |c| && c[i].key == k
  {
    set i | 0 <= i < |c| :: c[i].key
  }

  lemma {:induction false} KeyCount(c: Chain)
    requires DistinctKeys(c)
    ensures |KeySet(c)| == |c|
  {
    if c == [] {
    } else {
      var last, init := c[|c| - 1], c[..|c| - 1];
      KeyCount(init);
      assert last.key !in KeySet(init);
      KeySetLast(c);
    }
  }

  lemma KeySetLast(c: Chain)
    requires c != []
    ensures KeySet(c) == KeySet(c[..|c| - 1]) + {c[|c| - 1].key}
  {
    var last, init := c[|c| - 1], c[..|c| - 1];
    forall k | k in KeySet(c) ensures k in KeySet(init) + {last.key} {
      var i :| 0 <= i < |c| && c[i].key == k;
      assert i < |init| ==> init[i].key == k;
    }
  }

  ghost predicate StampsBefore(stamps: Stamps, clock: nat) {
    forall k :: k in stamps ==> stamps[k] < clock
  }

  lemma LateGetStays(n: nat, events: seq<Event>, e: Event, hash: Key -> nat, k: nat, since: nat, key: Key)
    requires n > 0 && LateGet(n, events, hash, k, since, key)
    ensures LateGet(n, events + [e], hash, k, since, key)
  {
    hide BornAt;
    assert (events + [e])[..k] == events[..k];
  }

  /** A reason stays a reason until the key is set again. */
  lemma ReasonStays(events: seq<Event>, e: Event, stamps: Stamps, key: Key, n: nat, hash: Key -> nat)
    requires n > 0 && Reason(events, stamps, key, n, hash) && StampsBefore(stamps, |events|)
    requires !(e.op.Set? && e.op.key == key)
    ensures Reason(events + [e], Stamp(stamps, e.op, |events|), key, n, hash)
  {
    hide LateGet;
    var after := Stamp(stamps, e.op, |events|);
    SubsetSize(Newer(stamps, key, n, hash), Newer(after, key, n, hash));
    if RanOut(n, events, hash, stamps[key], key) {
      var k: nat :| LateGet(n, events, hash, k, stamps[key], key);
      LateGetStays(n, events, e, hash, k, stamps[key], key);
    }
  }

  /** An evicted key has been overtaken by all that stay. */
  lemma Overtaken(c: Chain, e: Event, b: nat, n: nat, hash: Key -> nat, stamps: Stamps, clock: nat)
    requires n > 0 && e.op.Set? && hash(e.op.key) % n == b
    requires ChainOk(c, b, n, hash) && Recent(c, stamps, clock) && |c| > CHAINLEN && !Has(c, e.op.key)
    ensures var key := c[|c| - 1].key;
            var after := stamps[e.op.key := clock];
            key in after && |Newer(after, key, n, hash)| > CHAINLEN
  {
    var last := c[|c| - 1];
    var r := c[..|c| - 1];
    var after := stamps[e.op.key := clock];
    KeyCount(r);
    hide IndexOf;
    assert e.op.key !in KeySet(r);
    assert KeySet(r) + {e.op.key} <= Newer(after, last.key, n, hash);
    SubsetSize(KeySet(r) + {e.op.key}, Newer(after, last.key, n, hash));
  }

  /** One step takes no other key out of a chain than its own and, when it evicts, the last. */
  lemma OthersStay(c: Chain, op: Op, now: int, key: Key)
    requires key != op.key && Has(c, key)
    requires !(op.Set? && !Has(c, op.key) && |c| > CHAINLEN && key == c[|c| - 1].key)
    ensures Has(StepChain(c, op, now).0, key)
  {
    hide OnValue;
    var i, k := IndexOf(c, key), IndexOf(c, op.key);
    var r := StepChain(c, op, now).0;
    match op {
      case Set(_, _, _) =>
        var j := if k < |c| && i > k then i else i + 1;
        assert r[j].key == key;
      case Get(_) => DropOther(c, k, r, i);
      case Del(_) => DropOther(c, k, r, i);
      case _ => assert r[i].key == key;
    }
  }

  lemma DropOther(c: Chain, k: nat, r: Chain, i: nat)
    requires r == c || (k < |c| && r == Drop(c, k))
    requires i < |c| && i != k
    ensures Has(r, c[i].key)
  {
    var j := if r == c || i < k then i else i - 1;
    assert r[j] == c[i];
  }

  /** The key of the operation itself is there afterwards unless deleted, late, or not set at all. */
  lemma OwnKey(c: Chain, op: Op, now: int)
    ensures op.Set? ==> Has(StepChain(c, op, now).0, op.key)
    ensures Has(c, op.key) && !op.Del? && !(op.Get? && Expired(c[IndexOf(c, op.key)], now)) ==>
              Has(StepChain(c, op, now).0, op.key)
  {
    hide OnValue;
    var r := StepChain(c, op, now).0;
    if op.Set? {
      assert r[0].key == op.key;
    } else if Has(c, op.key) && (op.Cas? || op.Incr?) {
      assert r[IndexOf(c, op.key)].key == op.key;
    }
  }

  lemma LateNow(c: Chain, n: nat, events: seq<Event>, e: Event, hash: Key -> nat, stamps: Stamps)
    requires n > 0 && Born(c, n, events, hash) && StampsBefore(stamps, |events|) && e.op.Get? && e.op.key in stamps
    requires Has(c, e.op.key) && Expired(c[IndexOf(c, e.op.key)], e.now)
    ensures RanOut(n, events + [e], hash, stamps[e.op.key], e.op.key)
  {
    hide BornAt;
    var i := IndexOf(c, e.op.key);
    assert HasBirth(n, events, hash, c[i].key, c[i].expire);
    var after := events + [e];
    assert after[..|events|] == events && after[|events|] == e;
    assert LateGet(n, after, hash, |events|, stamps[e.op.key], e.op.key);
  }

  /** One step on its own chain leaves no key forgotten without a reason. */
  lemma RemembersChain(
      c: Chain, e: Event, b: nat, n: nat, hash: Key -> nat, m: Store, events: seq<Event>, stamps: Stamps)
    requires n > 0 && hash(e.op.key) % n == b
    requires ChainOk(c, b, n, hash) && Recent(c, stamps, |events|)
    requires Born(c, n, events, hash) && StampsBefore(stamps, |events|)
    requires Remembers(c, b, n, hash, m, events, stamps)
    ensures Remembers(StepChain(c, e.op, e.now).0, b, n, hash, StepStore(m, e.op).0,
                      events + [e], Stamp(stamps, e.op, |events|))
  {
    var c' := StepChain(c, e.op, e.now).0;
    var m' := StepStore(m, e.op).0;
    var after := Stamp(stamps, e.op, |events|);
    forall key | key in m' && hash(key) % n == b && !Has(c', key) ensures Reason(events + [e], after, key, n, hash) {
      WhyGone(c, e, key, b, n, hash, m, events, stamps);
    }
  }

  lemma WhyGone(
      c: Chain, e: Event, key: Key, b: nat, n: nat, hash: Key -> nat, m: Store, events: seq<Event>, stamps: Stamps)
    requires n > 0 && hash(e.op.key) % n == b == hash(key) % n
    requires ChainOk(c, b, n, hash) && Recent(c, stamps, |events|)
    requires Born(c, n, events, hash) && StampsBefore(stamps, |events|)
    requires Remembers(c, b, n, hash, m, events, stamps)
    requires key in StepStore(m, e.op).0 && !Has(StepChain(c, e.op, e.now).0, key)
    ensures Reason(events + [e], Stamp(stamps, e.op, |events|), key, n, hash)
  {
    InStore(m, e.op, key);
    InStamps(c, stamps, |events|);
    if key == e.op.key {
      OwnKey(c, e.op, e.now);
    }
    hide StepChain, StepStore, ChainOk, Recent, Born, StampsBefore, RanOut, Newer, IndexOf;
    if !Has(c, key) {
      ReasonStays(events, e, stamps, key, n, hash);
    } else if key == e.op.key {
      LateNow(c, n, events, e, hash, stamps);
    } else if e.op.Set? && !Has(c, e.op.key) && |c| > CHAINLEN && key == c[|c| - 1].key {
      Overtaken(c, e, b, n, hash, stamps, |events|);
    } else {
      OthersStay(c, e.op, e.now, key);
    }
  }

  lemma InStore(m: Store, op: Op, key: Key)
    requires key in StepStore(m, op).0
    ensures key in m || (op.Set? && key == op.key)
    ensures op != Del(key)
  {
    hide OnValue;
  }

  lemma InStamps(c: Chain, stamps: Stamps, clock: nat)
    requires Recent(c, stamps, clock)
    ensures forall i :: 0 <= i < |c| ==> c[i].key in stamps
  {}

  lemma RemembersOther(
      c: Chain, e: Event, b: nat, n: nat, hash: Key -> nat, m: Store, events: seq<Event>, stamps: Stamps)
    requires n > 0 && hash(e.op.key) % n != b
    requires StampsBefore(stamps, |events|) && Remembers(c, b, n, hash, m, events, stamps)
    ensures Remembers(c, b, n, hash, StepStore(m, e.op).0, events + [e], Stamp(stamps, e.op, |events|))
  {
    var m' := StepStore(m, e.op).0;
    forall key | key in m' && hash(key) % n == b && !Has(c, key)
      ensures Reason(events + [e], Stamp(stamps, e.op, |events|), key, n, hash)
    {
      InStore(m, e.op, key);
      ReasonStays(events, e, stamps, key, n, hash);
    }
  }

  // ----- Whole runs -----

  ghost predicate Past(st: State, m: Store, stamps: Stamps, events: seq<Event>, hash: Key -> nat) {
    && st != [] && StampsBefore(stamps, |events|)
    && forall b :: 0 <= b < |st| ==> Remembers(st[b], b, |st|, hash, m, events, stamps)
  }

  lemma PastStep(st: State, m: Store, stamps: Stamps, events: seq<Event>, e: Event, hash: Key -> nat)
    requires Invariant(st, m, stamps, |events|, hash) && Past(st, m, stamps, events, hash)
    requires forall b :: 0 <= b < |st| ==> Born(st[b], |st|, events, hash)
    ensures Past(Step(st, e.op, e.now, hash).0, StepStore(m, e.op).0, Stamp(stamps, e.op, |events|), events + [e], hash)
  {
    assert StampsBefore(Stamp(stamps, e.op, |events|), |events| + 1);
    var n := |st|;
    var b := hash(e.op.key) % n;
    hide Born, Remembers, Agrees, Recent, StampsBefore, StepChain, StepStore, Stamp, IndexOf, DistinctKeys;
    RemembersChain(st[b], e, b, n, hash, m, events, stamps);
    forall c | 0 <= c < n && c != b
      ensures Remembers(st[c], c, n, hash, StepStore(m, e.op).0, events + [e], Stamp(stamps, e.op, |events|))
    {
      RemembersOther(st[c], e, c, n, hash, m, events, stamps);
    }
  }

  lemma NewHasPast(n: nat, hash: Key -> nat)
    requires n > 0
    ensures Past(Empty(n), map[], map[], [], hash)
  {}

  lemma {:induction false} RunsHavePast(n: nat, events: seq<Event>, hash: Key -> nat)
    requires n > 0
    ensures Past(Run(Empty(n), events, hash).0, RunStore(map[], events).0, RunStamps(events), events, hash)
  {
    hide Invariant, Past, Step, StepStore, Stamp, Born;
    if events == [] {
      NewHasPast(n, hash);
    } else {
      var init, e := events[..|events| - 1], events[|events| - 1];
      RunsHavePast(n, init, hash);
      RunsAgree(n, init, hash);
      assert init + [e] == events;
      SameLength(n, init, hash);
      forall b | 0 <= b < n ensures Born(Run(Empty(n), init, hash).0[b], n, init, hash) {
        RunsBorn(n, init, hash, b);
      }
      PastStep(Run(Empty(n), init, hash).0, RunStore(map[], init).0, RunStamps(init), init, e, hash);
    }
  }

  /**
   * After any run, a get at time `now` hits exactly when the entry of the key was made by a
   * set whose expiry has not passed; then it returns what the map that never forgets holds.
   */
  lemma HitsAreFresh(n: nat, events: seq<Event>, key: Key, now: int, hash: Key -> nat)
    requires n > 0
    ensures var r := Step(Run(Empty(n), events, hash).0, Get(key), now, hash).1;
            var m := RunStore(map[], events).0;
            && (r.Hit? ==> key in m && r.val == m[key])
            && (r.Hit? <==> exists j: nat :: BornAt(n, events, hash, j, key) && !PassedBy(events[j], now))
  {
    var st, m := Run(Empty(n), events, hash).0, RunStore(map[], events).0;
    var c := ChainOf(n, events, hash, key);
    SameLength(n, events, hash);
    var r := Step(st, Get(key), now, hash).1;
    HitIs(c, key, now);
    assert r == StepChain(c, Get(key), now).1;
    RunsAgree(n, events, hash);
    StepKeeps(st, Get(key), now, hash, m, RunStamps(events), |events|);
    hide Run, RunStore, RunStamps, BornAt, Step, StepChain, IndexOf, Invariant;
    if Has(c, key) {
      ExpiryIsOfBirth(n, events, hash, key);
      var j: nat :| BornAt(n, events, hash, j, key) && ExpiryOf(events[j]) == c[IndexOf(c, key)].expire;
      forall k: nat | BornAt(n, events, hash, k, key) ensures k == j {
        BornOnce(n, events, hash, j, k, key);
      }
    } else {
      forall k: nat | BornAt(n, events, hash, k, key) ensures false {
        BornIsPresent(n, events, hash, k, key);
      }
    }
  }

  /**
   * After any run, deletions, swaps and increments miss exactly when the key is gone, and
   * else answer as the map does.
   */
  lemma AnswersAreExact(n: nat, events: seq<Event>, op: Op, now: int, hash: Key -> nat)
    requires n > 0 && !op.Get?
    ensures Step(Run(Empty(n), events, hash).0, op, now, hash).1 ==
            if op.Set? || Present(n, events, hash, op.key) then StepStore(RunStore(map[], events).0, op).1 else Miss
  {
    var st, m, c := Run(Empty(n), events, hash).0, RunStore(map[], events).0, ChainOf(n, events, hash, op.key);
    SameLength(n, events, hash);
    RunsAgree(n, events, hash);
    StepKeeps(st, op, now, hash, m, RunStamps(events), |events|);
    assert Step(st, op, now, hash).1 == StepChain(c, op, now).1;
    hide Run, RunStore, RunStamps, Invariant, Step;
    NoMiss(c, op, now);
  }

  lemma NoMiss(c: Chain, op: Op, now: int)
    requires !op.Get?
    ensures StepChain(c, op, now).1 == Miss <==> !op.Set? && !Has(c, op.key)
  {
    hide Decimal.Strtoll, Decimal.Rewritten;
  }

  lemma BornIsPresent(n: nat, events: seq<Event>, hash: Key -> nat, j: nat, key: Key)
    requires n > 0 && BornAt(n, events, hash, j, key)
    ensures Present(n, events, hash, key)
  {
    hide Present;
    assert events[..|events|] == events;
  }

  lemma HitIs(c: Chain, key: Key, now: int)
    ensures StepChain(c, Get(key), now).1.Hit? <==> Has(c, key) && !Expired(c[IndexOf(c, key)], now)
  {}

  /**
   * After any run, a get misses a key that the map holds only if the key was overtaken by
   * sets of more than `chainlen` other keys of its chain, or a get of this or an earlier step
   * since its last set came after the expiry of the set that had made its entry.
   */
  lemma MissesHaveReasons(n: nat, events: seq<Event>, key: Key, now: int, hash: Key -> nat)
    requires n > 0
    ensures var r := Step(Run(Empty(n), events, hash).0, Get(key), now, hash).1;
            r == Miss && key in RunStore(map[], events).0 ==>
              Reason(events + [Event(Get(key), now)], RunStamps(events), key, n, hash)
  {
    RunsHavePast(n, events, hash);
    RunsAgree(n, events, hash);
    RunsBorn(n, events, hash, hash(key) % n);
    hide Run, RunStore, RunStamps, Reason, Born, BornAt, Recent, IndexOf, StepChain, StampsBefore, ChainOk, Agrees;
    var st := Run(Empty(n), events, hash).0;
    var e := Event(Get(key), now);
    var b := hash(key) % |st|;
    SameLength(n, events, hash);
    if Step(st, Get(key), now, hash).1 == Miss && key in RunStore(map[], events).0 {
      MissedNow(st[b], key, now);
      WhyGone(st[b], e, key, b, n, hash, RunStore(map[], events).0, events, RunStamps(events));
    }
  }

  lemma MissedNow(c: Chain, key: Key, now: int)
    requires StepChain(c, Get(key), now).1 == Miss
    requires DistinctKeys(c)
    ensures !Has(StepChain(c, Get(key), now).0, key)
  {}

  lemma {:induction false} SameLength(n: nat, events: seq<Event>, hash: Key -> nat)
    requires n > 0
    ensures |Run(Empty(n), events, hash).0| == n
  {
    if events == [] {
    } else {
      SameLength(n, events[..|events| - 1], hash);
    }
  }

  /**
   * A second set does not prolong the life of an entry: set for 10 at time 0 and for 1000 at
   * time 1, it is gone at time 20.
   */
  lemma OldExpiryStays(n: nat, key: Key, v: Val, w: Val, hash: Key -> nat)
    requires n > 0
    ensures var events := [Event(Set(key, v, 10), 0), Event(Set(key, w, 1000), 1)];
            Step(Run(Empty(n), events, hash).0, Get(key), 20, hash).1 == Miss
  {
    var first, second := Event(Set(key, v, 10), 0), Event(Set(key, w, 1000), 1);
    hide *;
    NoSets(n, hash, key);
    ChainStep(n, [], first, hash, key);
    ChainStep(n, [first], second, hash, key);
    assert [] + [first] == [first] && [first] + [second] == [first, second];
    TwoSets(key, v, w);
    GetIs(n, [first, second], key, 20, hash);
  }

  lemma TwoSets(key: Key, v: Val, w: Val)
    ensures var one := StepChain([], Set(key, v, 10), 0).0;
            var two := StepChain(one, Set(key, w, 1000), 1).0;
            StepChain(two, Get(key), 20).1 == Miss
  {
    assert SetIn([], key, v, 10, 0) == [Item(key, v, 10)];
    assert SetIn([Item(key, v, 10)], key, w, 1000, 1) == [Item(key, w, 10)];
  }

  lemma GetIs(n: nat, events: seq<Event>, key: Key, now: int, hash: Key -> nat)
    requires n > 0
    ensures Step(Run(Empty(n), events, hash).0, Get(key), now, hash).1 ==
            StepChain(ChainOf(n, events, hash, key), Get(key), now).1
  {
    SameLength(n, events, hash);
    hide Run, StepChain;
  }

  // ----- How long a chain gets -----

  function Sets(keys: seq<Key>): seq<Event> {
    if keys == [] then [] else Sets(keys[..|keys| - 1]) + [Event(Set(keys[|keys| - 1], [], 0), 0)]
  }

  predicate SameChain(keys: seq<Key>, b: nat, n: nat, hash: Key -> nat)
    requires n > 0
  {
    && (forall i, j :: 0 <= i < j < |keys| ==> keys[i] != keys[j])
    && (forall i :: 0 <= i < |keys| ==> hash(keys[i]) % n == b)
  }

  /** Up to five keys of one chain are all kept. */
  lemma {:induction false} ChainFills(n: nat, keys: seq<Key>, hash: Key -> nat, key: Key)
    requires n > 0 && |keys| <= CHAINLEN + 1 && SameChain(keys, hash(key) % n, n, hash)
    ensures var c := ChainOf(n, Sets(keys), hash, key);
            |c| == |keys| && forall i :: 0 <= i < |c| ==> c[i].key in keys
    decreases |keys|
  {
    hide *;
    if keys == [] {
      NoSets(n, hash, key);
    } else {
      var init, last := keys[..|keys| - 1], keys[|keys| - 1];
      SameChainInit(keys, hash(key) % n, n, hash);
      ChainFills(n, init, hash, key);
      var e := Event(Set(last, [], 0), 0);
      ChainStep(n, Sets(init), e, hash, key);
      SetsStep(keys);
      var c := ChainOf(n, Sets(init), hash, key);
      SetNew(c, last, 0);
      OneKeyMore(c, keys);
    }
  }

  lemma OneKeyMore(c: Chain, keys: seq<Key>)
    requires keys != [] && forall i :: 0 <= i < |c| ==> c[i].key in keys[..|keys| - 1]
    ensures var r := [Item(keys[|keys| - 1], [], 0)] + c;
            forall i :: 0 <= i < |r| ==> r[i].key in keys
  {
    var r := [Item(keys[|keys| - 1], [], 0)] + c;
    forall i | 0 <= i < |r| ensures r[i].key in keys {
      if i > 0 {
        assert r[i] == c[i - 1];
      }
    }
  }

  lemma NoSets(n: nat, hash: Key -> nat, key: Key)
    requires n > 0
    ensures Sets([]) == [] && ChainOf(n, [], hash, key) == []
  {}

  lemma SameChainInit(keys: seq<Key>, b: nat, n: nat, hash: Key -> nat)
    requires n > 0 && keys != [] && SameChain(keys, b, n, hash)
    ensures SameChain(keys[..|keys| - 1], b, n, hash)
    ensures keys[|keys| - 1] !in keys[..|keys| - 1] && hash(keys[|keys| - 1]) % n == b
  {}

  lemma SetNew(c: Chain, key: Key, now: int)
    requires |c| <= CHAINLEN && forall i :: 0 <= i < |c| ==> c[i].key != key
    ensures StepChain(c, Set(key, [], 0), now).0 == [Item(key, [], 0)] + c
  {
    assert IndexOf(c, key) == |c|;
  }

  lemma SetsStep(keys: seq<Key>)
    requires keys != []
    ensures Sets(keys) == Sets(keys[..|keys| - 1]) + [Event(Set(keys[|keys| - 1], [], 0), 0)]
  {}

  /** The lengths that a chain reaches are exactly those up to `chainlen + 1`, which is 5. */
  lemma ChainLengths(len: nat, hash: Key -> nat)
    ensures len <= 5 <==> exists events :: |ChainOf(1, events, hash, [])| == len
  {
    if len <= 5 {
      var keys: seq<Key> := seq(len, i requires 0 <= i < len => seq(i, _ => 0));
      ChainFills(1, keys, hash, []);
    }
    forall events ensures |ChainOf(1, events, hash, [])| <= CHAINLEN + 1 {
      RunsAgree(1, events, hash);
      SameLength(1, events, hash);
    }
  }
}
