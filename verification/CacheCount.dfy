/**
 * Counters in the cache: what a run of increments answers.
 */
module CacheCount {
  import opened Bytes
  import opened Decimal
  import opened CacheRun

  /** Nothing but gets and increments happens to the key. */
  predicate OnlyCounts(events: seq<Event>, key: Key) {
    forall i :: 0 <= i < |events| && events[i].op.key == key ==> events[i].op.Get? || events[i].op.Incr?
  }

  /** The amounts by which the key is incremented, in order. */
  function Amounts(events: seq<Event>, key: Key): seq<int> {
    if events == [] then []
    else
      var op := events[|events| - 1].op;
      Amounts(events[..|events| - 1], key) + if op.Incr? && op.key == key then [op.amount] else []
  }

  lemma {:induction false} StoreJoins(m: Store, a: seq<Event>, b: seq<Event>)
    ensures RunStore(m, a + b).0 == RunStore(RunStore(m, a).0, b).0
    ensures RunStore(m, a + b).1 == RunStore(m, a).1 + RunStore(RunStore(m, a).0, b).1
    decreases |b|
  {
    hide StepStore;
    if b == [] {
      assert a + b == a;
    } else {
      var init := b[..|b| - 1];
      assert (a + b)[..|a + b| - 1] == a + init;
      StoreJoins(m, a, init);
    }
  }

  /** The amounts of the first steps are the first amounts. */
  lemma {:induction false} AmountsBefore(events: seq<Event>, key: Key, k: nat)
    requires k <= |events|
    ensures Amounts(events[..k], key) <= Amounts(events, key)
    decreases |events|
  {
    if k == |events| {
      assert events[..k] == events;
    } else {
      var init := events[..|events| - 1];
      assert init[..k] == events[..k];
      AmountsBefore(init, key, k);
    }
  }

  lemma NoOverflowBefore(start: int, a: seq<int>, b: seq<int>)
    requires a <= b && NoOverflow(start, b)
    ensures NoOverflow(start, a)
  {
    forall k | 0 <= k <= |a| ensures InRange(start + Sum(a[..k])) {
      assert a[..k] == b[..k];
    }
  }

  /** While a key is only counted, the map holds its text after the increments so far. */
  lemma {:induction false} StoreCounts(m: Store, key: Key, events: seq<Event>)
    requires key in m && IsText(m[key]) && OnlyCounts(events, key)
    requires NoOverflow(Strtoll(m[key]), Amounts(events, key))
    ensures var r := RunStore(m, events).0;
            key in r && r[key] == Increments(m[key], Amounts(events, key)) && IsText(r[key])
            && Strtoll(r[key]) == Strtoll(m[key]) + Sum(Amounts(events, key))
    decreases |events|
  {
    IncrementsAdd(m[key], Amounts(events, key));
    hide Strtoll, Rewritten, IsText, NoOverflow, Sum;
    if events == [] {
    } else {
      var init, e := events[..|events| - 1], events[|events| - 1];
      assert init == events[..|init|];
      AmountsBefore(events, key, |init|);
      NoOverflowBefore(Strtoll(m[key]), Amounts(init, key), Amounts(events, key));
      StoreCounts(m, key, init);
      var before := RunStore(m, init).0;
      StepCounts(before, e.op, key);
      if e.op.Incr? && e.op.key == key {
        OneMore(m[key], Amounts(init, key), e.op.amount);
      } else {
        assert Amounts(events, key) == Amounts(init, key);
      }
    }
  }

  lemma OneMore(v: Val, incs: seq<int>, amount: int)
    ensures Increments(v, incs + [amount]) == Rewritten(Increments(v, incs), Strtoll(Increments(v, incs)) + amount)
  {
    hide Strtoll, Rewritten;
    assert (incs + [amount])[..|incs|] == incs;
  }

  lemma StepCounts(m: Store, op: Op, key: Key)
    requires key in m && IsText(m[key]) && (op.key == key ==> op.Get? || op.Incr?)
    ensures var (m', r) := StepStore(m, op);
            && key in m'
            && (op.Incr? && op.key == key ==>
                  var n := Strtoll(m[key]) + op.amount; m'[key] == Rewritten(m[key], n) && r == Counted(n))
            && (!(op.Incr? && op.key == key) ==> m'[key] == m[key])
  {
    hide Strtoll, Rewritten;
  }

  /** The steps of a run that sets a counter and then only counts it. */
  function Counting(before: seq<Event>, key: Key, v: Val, timeout: int, now: int, events: seq<Event>): seq<Event> {
    before + [Event(Set(key, v, timeout), now)] + events
  }

  /** On the map that never forgets, the increment at step k answers the first number plus all amounts up to it. */
  lemma MapCounts(before: seq<Event>, key: Key, v: Val, timeout: int, now: int, events: seq<Event>, k: nat)
    requires IsText(v) && OnlyCounts(events, key) && NoOverflow(Strtoll(v), Amounts(events, key))
    requires k < |events| && events[k].op.Incr? && events[k].op.key == key
    ensures var all := Counting(before, key, v, timeout, now, events);
            RunStore(map[], all).1[|before| + 1 + k] == Counted(Strtoll(v) + Sum(Amounts(events[..k + 1], key)))
  {
    var all := Counting(before, key, v, timeout, now, events);
    var start := before + [Event(Set(key, v, timeout), now)];
    var m := RunStore(map[], start).0;
    hide Strtoll, Rewritten, IsText, NoOverflow, Sum;
    assert start[..|start| - 1] == before;
    assert key in m && m[key] == v;
    StoreJoins(map[], start, events);
    assert events[..k] + events[k..] == events;
    AmountsBefore(events, key, k);
    NoOverflowBefore(Strtoll(v), Amounts(events[..k], key), Amounts(events, key));
    StoreCounts(m, key, events[..k]);
    ReplyAt(m, events, k);
    StepCounts(RunStore(m, events[..k]).0, events[k].op, key);
    SumNext(events, key, k);
  }

  lemma SumNext(events: seq<Event>, key: Key, k: nat)
    requires k < |events| && events[k].op.Incr? && events[k].op.key == key
    ensures Sum(Amounts(events[..k + 1], key)) == Sum(Amounts(events[..k], key)) + events[k].op.amount
  {
    assert events[..k + 1][..k] == events[..k];
    var a, x := Amounts(events[..k], key), events[k].op.amount;
    assert Amounts(events[..k + 1], key) == a + [x] && (a + [x])[..|a|] == a;
  }

  lemma {:induction false} ReplyAt(m: Store, events: seq<Event>, k: nat)
    requires k < |events|
    ensures RunStore(m, events).1[k] == StepStore(RunStore(m, events[..k]).0, events[k].op).1
    decreases |events|
  {
    hide StepStore;
    var init := events[..|events| - 1];
    if k < |init| {
      ReplyAt(m, init, k);
      assert init[..k] == events[..k];
    } else {
      assert events[..k] == init;
    }
  }

  /**
   * In the cache: after a set of a text, and as long as the key is only read and counted and
   * no sum overflows, every increment answers the number that was set plus all amounts up to
   * it, or finds the key gone.
   */
  lemma CacheCounts(n: nat, before: seq<Event>, key: Key, v: Val, timeout: int, now: int, events: seq<Event>, k: nat,
                    hash: Key -> nat)
    requires n > 0 && IsText(v) && OnlyCounts(events, key) && NoOverflow(Strtoll(v), Amounts(events, key))
    requires k < |events| && events[k].op.Incr? && events[k].op.key == key
    ensures var all := Counting(before, key, v, timeout, now, events);
            var r := Run(Empty(n), all, hash).1[|before| + 1 + k];
            r == Miss || r == Counted(Strtoll(v) + Sum(Amounts(events[..k + 1], key)))
  {
    hide Run, RunStore, RunStamps, Invariant, Strtoll, Sum, Amounts, NoOverflow, IsText;
    MapCounts(before, key, v, timeout, now, events, k);
    RunsAgree(n, Counting(before, key, v, timeout, now, events), hash);
  }
}
