/**
 * What the cache of server/cache.c means: chains of entries, most recently set first, and
 * what every run of operations has in common with a map that never forgets.
 */
module CacheRun {
  import opened Bytes
  import opened Decimal

  type Key = seq<Byte>
  type Val = seq<Byte>

  datatype Item = Item(key: Key, val: Val, expire: int)

  type Chain = seq<Item>
  type State = seq<Chain>

  const CHAINLEN: nat := 4

  function IndexOf(c: Chain, key: Key): (i: nat)
    ensures i <= |c| && (i < |c| ==> c[i].key == key)
    ensures forall j :: 0 <= j < i ==> c[j].key != key
  {
    if c == [] || c[0].key == key then 0 else 1 + IndexOf(c[1..], key)
  }

  function Drop(c: Chain, i: nat): Chain
    requires i < |c|
  {
    c[..i] + c[i + 1..]
  }

  /** An entry with an expiry time is gone once that time has passed. */
  predicate Expired(e: Item, now: int) {
    0 < e.expire < now
  }

  function Expiry(timeout: int, now: int): int {
    if timeout == 0 then 0 else now + timeout
  }

  // ----- One chain -----

  /**
   * `cache_set`: an entry that is there moves to the front with its new value and its old
   * expiry; a new one goes to the front, and pushes the last one out of a full chain.
   */
  function SetIn(c: Chain, key: Key, val: Val, timeout: int, now: int): Chain {
    var i := IndexOf(c, key);
    if i < |c| then [c[i].(val := val)] + Drop(c, i)
    else
      var e := Item(key, val, Expiry(timeout, now));
      [e] + if |c| <= CHAINLEN then c else c[..|c| - 1]
  }

  function PutIn(c: Chain, i: nat, val: Val): Chain
    requires i < |c|
  {
    c[i := c[i].(val := val)]
  }

  lemma PutSame(c: Chain, i: nat)
    requires i < |c|
    ensures PutIn(c, i, c[i].val) == c
  {}

  // ----- Operations and replies -----

  datatype Op =
    | Get(key: Key)
    | Set(key: Key, val: Val, timeout: int)
    | Del(key: Key)
    | Cas(key: Key, expected: Val, val: Val)
    | Incr(key: Key, amount: int)

  datatype Reply = Miss | Hit(val: Val) | Stored | Deleted | Differs | Swapped | NotText | Counted(n: int)

  /** The effect on a value of an operation that finds one, and what it answers. */
  function OnValue(v: Val, op: Op): (Val, Reply)
    requires op.Cas? || op.Incr?
  {
    match op
    case Cas(_, expected, val) => if v == expected then (val, Swapped) else (v, Differs)
    case Incr(_, amount) =>
      if !IsText(v) then (v, NotText)
      else var n := Strtoll(v) + amount; (Rewritten(v, n), Counted(n))
  }

  /** The cache on one chain, at time `now`. */
  function StepChain(c: Chain, op: Op, now: int): (Chain, Reply) {
    var i := IndexOf(c, op.key);
    match op
    case Set(key, val, timeout) => (SetIn(c, key, val, timeout, now), Stored)
    case Get(_) =>
      if i == |c| then (c, Miss)
      else if Expired(c[i], now) then (Drop(c, i), Miss)
      else (c, Hit(c[i].val))
    case Del(_) => if i == |c| then (c, Miss) else (Drop(c, i), Deleted)
    case Cas(_, _, _) =>
      if i == |c| then (c, Miss)
      else var (v, r) := OnValue(c[i].val, op); (PutIn(c, i, v), r)
    case Incr(_, _) =>
      if i == |c| then (c, Miss)
      else var (v, r) := OnValue(c[i].val, op); (PutIn(c, i, v), r)
  }

  function Step(st: State, op: Op, now: int, hash: Key -> nat): (State, Reply)
    requires st != []
  {
    var b := hash(op.key) % |st|;
    var (c, r) := StepChain(st[b], op, now);
    (st[b := c], r)
  }

  // ----- The map that never forgets -----

  type Store = map<Key, Val>

  /** The same operations on an unbounded map without expiry. */
  function StepStore(m: Store, op: Op): (Store, Reply) {
    match op
    case Set(key, val, _) => (m[key := val], Stored)
    case Get(key) => (m, if key in m then Hit(m[key]) else Miss)
    case Del(key) => (m - {key}, if key in m then Deleted else Miss)
    case Cas(key, expected, val) =>
      if key !in m then (m, Miss)
      else if m[key] == expected then (m[key := val], Swapped)
      else (m, Differs)
    case Incr(key, amount) =>
      if key !in m then (m, Miss)
      else if m[key] == [] || m[key][|m[key]| - 1] != 0 then (m, NotText)
      else
        var n := Strtoll(m[key]) + amount;
        (m[key := Rewritten(m[key], n)], Counted(n))
  }

  /** What an operation does to a value is what it does to the map. */
  lemma StoreOnValue(m: Store, op: Op)
    requires (op.Cas? || op.Incr?) && op.key in m
    ensures var (v, r) := OnValue(m[op.key], op); StepStore(m, op) == (m[op.key := v], r)
  {
    hide Strtoll, Rewritten;
    assert m[op.key := m[op.key]] == m;
  }

  // ----- What every run keeps -----

  predicate DistinctKeys(c: Chain) {
    forall i, j :: 0 <= i < j < |c| ==> c[i].key != c[j].key
  }

  /** A chain holds different keys, at most one more than `chainlen` of them, all of its own bucket. */
  predicate ChainOk(c: Chain, b: nat, n: nat, hash: Key -> nat)
    requires n > 0
  {
    && |c| <= CHAINLEN + 1
    && DistinctKeys(c)
    && forall i :: 0 <= i < |c| ==> hash(c[i].key) % n == b
  }

  predicate Shape(st: State, hash: Key -> nat) {
    st != [] && forall b :: 0 <= b < |st| ==> ChainOk(st[b], b, |st|, hash)
  }

  /** What a chain remembers is right. */
  predicate Agrees(c: Chain, m: Store) {
    forall i :: 0 <= i < |c| ==> c[i].key in m && m[c[i].key] == c[i].val
  }

  type Stamps = map<Key, nat>

  /** Entries stand in the order of their last set, the latest first; all sets are before `clock`. */
  predicate Recent(c: Chain, stamps: Stamps, clock: nat) {
    && (forall i :: 0 <= i < |c| ==> c[i].key in stamps && stamps[c[i].key] < clock)
    && (forall i, j :: 0 <= i < j < |c| ==>
          c[i].key in stamps && c[j].key in stamps && stamps[c[i].key] > stamps[c[j].key])
  }

  function Stamp(stamps: Stamps, op: Op, clock: nat): Stamps {
    if op.Set? then stamps[op.key := clock] else stamps
  }

  lemma DropKeeps(c: Chain, i: nat, b: nat, n: nat, hash: Key -> nat, m: Store, stamps: Stamps, clock: nat)
    requires n > 0 && i < |c| && ChainOk(c, b, n, hash) && Agrees(c, m) && Recent(c, stamps, clock)
    ensures ChainOk(Drop(c, i), b, n, hash) && Agrees(Drop(c, i), m - {c[i].key}) && Recent(Drop(c, i), stamps, clock)
  {
    assert forall j :: 0 <= j < |Drop(c, i)| ==> Drop(c, i)[j] == c[if j < i then j else j + 1];
  }

  lemma FrontKeeps(c: Chain, e: Item, b: nat, n: nat, hash: Key -> nat, m: Store, stamps: Stamps, clock: nat)
    requires n > 0 && |c| <= CHAINLEN && ChainOk(c, b, n, hash) && hash(e.key) % n == b
    requires Agrees(c, m - {e.key}) && Recent(c, stamps, clock)
    ensures ChainOk([e] + c, b, n, hash)
    ensures Agrees([e] + c, m[e.key := e.val])
    ensures Recent([e] + c, stamps[e.key := clock], clock + 1)
  {
    var r := [e] + c;
    assert forall j :: 1 <= j < |r| ==> r[j] == c[j - 1];
    assert forall j :: 0 <= j < |c| ==> c[j].key in m - {e.key};
  }

  lemma Absent(c: Chain, key: Key, m: Store)
    requires Agrees(c, m) && IndexOf(c, key) == |c|
    ensures Agrees(c, m - {key})
  {}

  /** `cache_set` on one chain. */
  lemma SetKeeps(c: Chain, key: Key, val: Val, timeout: int, now: int,
                 b: nat, n: nat, hash: Key -> nat, m: Store, stamps: Stamps, clock: nat)
    requires n > 0 && hash(key) % n == b
    requires ChainOk(c, b, n, hash) && Agrees(c, m) && Recent(c, stamps, clock)
    ensures var r := SetIn(c, key, val, timeout, now);
            ChainOk(r, b, n, hash) && Agrees(r, m[key := val]) && Recent(r, stamps[key := clock], clock + 1)
  {
    hide ChainOk, Agrees, Recent;
    var i := IndexOf(c, key);
    LengthOk(c, b, n, hash);
    if i < |c| {
      DropKeeps(c, i, b, n, hash, m, stamps, clock);
      FrontKeeps(Drop(c, i), c[i].(val := val), b, n, hash, m, stamps, clock);
    } else {
      var e := Item(key, val, Expiry(timeout, now));
      Absent(c, key, m);
      if |c| <= CHAINLEN {
        FrontKeeps(c, e, b, n, hash, m, stamps, clock);
      } else {
        EvictKeeps(c, key, b, n, hash, m, stamps, clock);
        FrontKeeps(c[..|c| - 1], e, b, n, hash, m, stamps, clock);
      }
    }
  }

  lemma LengthOk(c: Chain, b: nat, n: nat, hash: Key -> nat)
    requires n > 0 && ChainOk(c, b, n, hash)
    ensures |c| <= CHAINLEN + 1
  {}

  lemma EvictKeeps(c: Chain, key: Key, b: nat, n: nat, hash: Key -> nat, m: Store, stamps: Stamps, clock: nat)
    requires n > 0 && c != [] && ChainOk(c, b, n, hash) && Agrees(c, m - {key}) && Recent(c, stamps, clock)
    ensures var r := c[..|c| - 1];
            ChainOk(r, b, n, hash) && Agrees(r, m - {key}) && Recent(r, stamps, clock)
  {}

  /** A set gives an entry its own expiry exactly when the key is not there, or had that expiry already. */
  lemma SetExpiry(c: Chain, key: Key, val: Val, timeout: int, now: int)
    ensures var r := SetIn(c, key, val, timeout, now);
            var i := IndexOf(c, key);
            && r != [] && r[0].key == key
            && (r[0].expire == Expiry(timeout, now) <==> i == |c| || c[i].expire == Expiry(timeout, now))
  {}

  /** The entry a full chain gives up is the one set longest ago, and it is the only one given up. */
  lemma EvictsLeastRecent(c: Chain, key: Key, val: Val, timeout: int, now: int, stamps: Stamps, clock: nat)
    requires Recent(c, stamps, clock) && |c| > CHAINLEN && IndexOf(c, key) == |c|
    ensures var last := c[|c| - 1];
            var r := SetIn(c, key, val, timeout, now);
            && (forall i :: 0 <= i < |c| - 1 ==> stamps[c[i].key] > stamps[last.key])
            && r[1..] + [last] == c && r[0].key == key && r[0].val == val
  {}

  /** A value changed in place changes nothing else. */
  lemma PutKeeps(c: Chain, i: nat, v: Val, b: nat, n: nat, hash: Key -> nat, m: Store, stamps: Stamps, clock: nat)
    requires n > 0 && i < |c| && ChainOk(c, b, n, hash) && Agrees(c, m) && Recent(c, stamps, clock)
    ensures var r := PutIn(c, i, v);
            ChainOk(r, b, n, hash) && Agrees(r, m[c[i].key := v]) && Recent(r, stamps, clock)
  {}

  lemma Later(c: Chain, stamps: Stamps, clock: nat)
    requires Recent(c, stamps, clock)
    ensures Recent(c, stamps, clock + 1)
  {}

  /**
   * One operation on one chain: the shape stays, what is remembered is what the map holds,
   * and the answer is a miss or the answer of the map.
   */
  lemma StepChainKeeps(
      c: Chain, op: Op, now: int, b: nat, n: nat, hash: Key -> nat, m: Store, stamps: Stamps, clock: nat)
    requires n > 0 && hash(op.key) % n == b
    requires ChainOk(c, b, n, hash) && Agrees(c, m) && Recent(c, stamps, clock)
    ensures var (c', r) := StepChain(c, op, now);
            var (m', r') := StepStore(m, op);
            && ChainOk(c', b, n, hash) && Agrees(c', m') && Recent(c', Stamp(stamps, op, clock), clock + 1)
            && (r == Miss || r == r')
  {
    var i := IndexOf(c, op.key);
    if i < |c| {
      Found(c, i, m);
    }
    if i == |c| {
      Absent(c, op.key, m);
    }
    Later(c, stamps, clock);
    if (op.Cas? || op.Incr?) && op.key in m {
      StoreOnValue(m, op);
    }
    hide ChainOk, Agrees, Recent, OnValue, SetIn, Strtoll, Rewritten;
    match op {
      case Set(key, val, timeout) => SetKeeps(c, key, val, timeout, now, b, n, hash, m, stamps, clock);
      case Get(_) =>
        if i < |c| && Expired(c[i], now) {
          DropKeeps(c, i, b, n, hash, m, stamps, clock + 1);
          Forgets(Drop(c, i), m, op.key);
        }
      case Del(_) =>
        if i < |c| {
          DropKeeps(c, i, b, n, hash, m, stamps, clock + 1);
        }
      case Cas(_, _, _) =>
        if i < |c| {
          PutKeeps(c, i, OnValue(c[i].val, op).0, b, n, hash, m, stamps, clock + 1);
        } else if op.key in m {
          AbsentChanged(c, op.key, m, OnValue(m[op.key], op).0);
        }
      case Incr(_, _) =>
        if i < |c| {
          PutKeeps(c, i, OnValue(c[i].val, op).0, b, n, hash, m, stamps, clock + 1);
        } else if op.key in m {
          AbsentChanged(c, op.key, m, OnValue(m[op.key], op).0);
        }
    }
  }

  lemma Found(c: Chain, i: nat, m: Store)
    requires Agrees(c, m) && i < |c|
    ensures c[i].key in m && m[c[i].key] == c[i].val
  {}

  lemma AbsentChanged(c: Chain, key: Key, m: Store, v: Val)
    requires Agrees(c, m) && IndexOf(c, key) == |c|
    ensures Agrees(c, m[key := v])
  {}

  lemma Forgets(c: Chain, m: Store, key: Key)
    requires Agrees(c, m - {key})
    ensures Agrees(c, m)
  {
    assert forall i :: 0 <= i < |c| ==> c[i].key in m - {key};
  }

  // ----- Whole runs -----

  datatype Event = Event(op: Op, now: int)

  function Run(st: State, events: seq<Event>, hash: Key -> nat): (r: (State, seq<Reply>))
    requires st != []
    ensures r.0 != [] && |r.1| == |events|
  {
    if events == [] then (st, [])
    else
      var e := events[|events| - 1];
      var (before, replies) := Run(st, events[..|events| - 1], hash);
      var (after, reply) := Step(before, e.op, e.now, hash);
      (after, replies + [reply])
  }

  function RunStore(m: Store, events: seq<Event>): (r: (Store, seq<Reply>))
    ensures |r.1| == |events|
  {
    if events == [] then (m, [])
    else
      var (before, replies) := RunStore(m, events[..|events| - 1]);
      var (after, reply) := StepStore(before, events[|events| - 1].op);
      (after, replies + [reply])
  }

  /** When each key was last set, counting the operations of the run. */
  function RunStamps(events: seq<Event>): Stamps {
    if events == [] then map[]
    else Stamp(RunStamps(events[..|events| - 1]), events[|events| - 1].op, |events| - 1)
  }

  predicate Invariant(st: State, m: Store, stamps: Stamps, clock: nat, hash: Key -> nat) {
    && Shape(st, hash)
    && forall b :: 0 <= b < |st| ==> Agrees(st[b], m) && Recent(st[b], stamps, clock)
  }

  /** Chains of other buckets do not have the key, so nothing that happens to it concerns them. */
  lemma OtherChain(c: Chain, op: Op, b: nat, n: nat, hash: Key -> nat, m: Store, stamps: Stamps, clock: nat)
    requires n > 0 && hash(op.key) % n != b
    requires ChainOk(c, b, n, hash) && Agrees(c, m) && Recent(c, stamps, clock)
    ensures Agrees(c, StepStore(m, op).0) && Recent(c, Stamp(stamps, op, clock), clock + 1)
  {
    hide OnValue, DistinctKeys;
    assert forall i :: 0 <= i < |c| ==> c[i].key != op.key;
  }

  lemma StepKeeps(st: State, op: Op, now: int, hash: Key -> nat, m: Store, stamps: Stamps, clock: nat)
    requires Invariant(st, m, stamps, clock, hash)
    ensures var (st', r) := Step(st, op, now, hash);
            var (m', r') := StepStore(m, op);
            Invariant(st', m', Stamp(stamps, op, clock), clock + 1, hash) && (r == Miss || r == r')
  {
    hide ChainOk, Agrees, Recent, StepChain, StepStore, Stamp;
    var n := |st|;
    var b := hash(op.key) % n;
    StepChainKeeps(st[b], op, now, b, n, hash, m, stamps, clock);
    forall c | 0 <= c < n && c != b
      ensures Agrees(st[c], StepStore(m, op).0) && Recent(st[c], Stamp(stamps, op, clock), clock + 1)
    {
      OtherChain(st[c], op, c, n, hash, m, stamps, clock);
    }
  }

  /** A new cache: `hashlen` empty chains. */
  function Empty(n: nat): State {
    seq(n, _ => [])
  }

  /**
   * Every run from a new cache: each chain stays short, free of repeated keys and ordered by
   * last set; each answer is a miss or what a map that never forgets would answer.
   */
  lemma {:induction false} RunsAgree(n: nat, events: seq<Event>, hash: Key -> nat)
    requires n > 0
    ensures var (st, replies) := Run(Empty(n), events, hash);
            var (m, expected) := RunStore(map[], events);
            && Invariant(st, m, RunStamps(events), |events|, hash)
            && forall k :: 0 <= k < |events| ==> replies[k] == Miss || replies[k] == expected[k]
  {
    hide Invariant, Step, StepStore, Stamp;
    if events == [] {
      NewIsOk(n, hash);
    } else {
      var init, e := events[..|events| - 1], events[|events| - 1];
      RunsAgree(n, init, hash);
      var st, m := Run(Empty(n), init, hash).0, RunStore(map[], init).0;
      StepKeeps(st, e.op, e.now, hash, m, RunStamps(init), |init|);
    }
  }

  lemma NewIsOk(n: nat, hash: Key -> nat)
    requires n > 0
    ensures Invariant(Empty(n), map[], map[], 0, hash)
  {}
}
