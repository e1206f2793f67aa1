/**
 * What requests and connections can count on over whole runs of the server: order,
 * exactly-once processing, and the life of a socket.
 */
module ServerOrder {
  import opened Bytes
  import opened ServerRun
  import opened ServerSafe

  // ----- Sockets -----

  /**
   * In every state of every run: a socket has one reference for its open connection and one
   * per live entry; it has been freed once if it has none left, else never; its hook has run
   * at most once, and not before; and no live entry refers to a freed socket.
   */
  lemma SocketLife(n: nat, steps: seq<Step>, states: seq<State>, l: nat, k: nat)
    requires IsRun(n, steps, states) && l <= |steps| && k < |states[l].socks|
    ensures var s := states[l];
            var c := s.socks[k];
            var refs := set id | id in s.live && id < |s.made| && s.made[id].sock == k;
            && c.refcount == |refs| + (if c.open then 1 else 0)
            && c.freed == (if !c.open && refs == {} then 1 else 0)
            && c.hooks <= c.freed
            && forall id :: id in refs ==> s.socks[s.made[id].sock].freed == 0
  {
    RunSafe(n, steps, states, l);
    hide IsRun, Places, LiveOk, Bounded;
    var s := states[l];
    var refs := Refs(s.live, s.made, k);
    assert SockOk(s.socks[k], |refs|);
    assert refs != {} ==> |refs| > 0;
  }

  /** At step j the driver of some module, busy with an entry of socket k, sets the socket's close hook. */
  predicate HookedAt(steps: seq<Step>, states: seq<State>, j: nat, k: nat)
    requires |states| == |steps| + 1
  {
    && j < |steps| && steps[j].Hook? && steps[j].m < |states[j].mods|
    && var w := states[j].mods[steps[j].m].worker;
       w.Busy? && w.id < |states[j].made| && states[j].made[w.id].sock == k
  }

  ghost predicate Hooked(steps: seq<Step>, states: seq<State>, l: nat, k: nat)
    requires |states| == |steps| + 1
  {
    exists j: nat :: j < l && HookedAt(steps, states, j, k)
  }

  /** The socket of the entry that a step frees, or of the entry a driver is busy with when it sets the hook. */
  function Concerned(s: State, step: Step): Option<nat>
    requires Enabled(s, step)
  {
    match step
    case Answer => SockOf(s, s.held.value)
    case Release(m) => SockOf(s, s.mods[m].worker.id)
    case Drop(m) => SockOf(s, s.mods[m].queue[0])
    case Hook(m) => SockOf(s, s.mods[m].worker.id)
    case _ => None
  }

  function SockOf(s: State, id: Id): Option<nat> {
    if id < |s.made| then Some(s.made[id].sock) else None
  }

  /** What a step does to socket k. */
  function SockNext(s: State, step: Step, k: nat): Sock
    requires Enabled(s, step) && k < |s.socks|
  {
    var c := s.socks[k];
    if step.Make? then (if step.sock == k then AddRef(c) else c)
    else if step.Close? then (if step.sock == k then RemoveRef(c.(open := false)) else c)
    else if Concerned(s, step) == Some(k) then (if step.Hook? then c.(hook := true) else RemoveRef(c))
    else c
  }

  lemma SockAfter(s: State, step: Step, k: nat)
    requires Enabled(s, step)
    ensures var t := Next(s, step);
            && |t.socks| == |s.socks| + (if step.Accept? then 1 else 0)
            && (k < |s.socks| ==> t.socks[k] == SockNext(s, step, k))
            && (step.Accept? ==> t.socks[|s.socks|] == Sock(1, true, false, 0, 0))
  {
    hide RemoveRef, Fetch, Handled, Dropped, Queued, ModOf, Busy100;
  }

  /** The close hook has run or is set exactly if some driver has set it, and it runs when the socket is freed. */
  predicate HookOk(c: Sock, hooked: bool) {
    && c.hooks == (if c.freed == 1 && hooked then 1 else 0)
    && (c.freed == 0 ==> c.hook == hooked)
  }

  lemma HookStep(c: Sock, d: Sock, n: nat, hooked: bool)
    requires SockOk(c, n) && HookOk(c, hooked)
    requires d == c || d == AddRef(c) || d == RemoveRef(c) || (c.open && d == RemoveRef(c.(open := false)))
    requires d == AddRef(c) ==> c.freed == 0
    ensures HookOk(d, hooked)
  {}

  /**
   * In every state of every run, the close hook of a socket has run once if the socket has
   * been freed and some driver had set the hook, and else never.
   */
  lemma {:induction false} HookRunsOnce(n: nat, steps: seq<Step>, states: seq<State>, l: nat, k: nat)
    requires IsRun(n, steps, states) && l <= |steps| && k < |states[l].socks|
    ensures HookOk(states[l].socks[k], Hooked(steps, states, l, k))
  {
    hide Follow, Init, Places, Next, Enabled, Hooked, HookedAt, SockOk, RemoveRef, HookOk, SockNext, Refs;
    if l == 0 {
      NoSocks(n);
      assert false;
    } else {
      var s, step, t := states[l - 1], steps[l - 1], states[l];
      StepOf(n, steps, states, l - 1);
      SockAfter(s, step, k);
      SafeSock(n, steps, states, l, k);
      if k >= |s.socks| {
        NotYet(n, steps, states, l, k);
        NewSock();
      } else {
        SafeSock(n, steps, states, l - 1, k);
        HookRunsOnce(n, steps, states, l - 1, k);
        HookedNext(steps, states, l - 1, k);
        HookedNow(steps, states, l - 1, k);
        OneSockStep(s, step, k, Hooked(steps, states, l - 1, k), |Refs(s.live, s.made, k)|, |Refs(t.live, t.made, k)|);
      }
    }
  }

  lemma NoSocks(n: nat)
    ensures Init(n).socks == []
  {}

  lemma HookedNow(steps: seq<Step>, states: seq<State>, l: nat, k: nat)
    requires |states| == |steps| + 1 && l < |steps| && Enabled(states[l], steps[l])
    ensures HookedAt(steps, states, l, k) <==> steps[l].Hook? && Concerned(states[l], steps[l]) == Some(k)
  {}

  lemma OneSockStep(s: State, step: Step, k: nat, hooked: bool, n: nat, n': nat)
    requires Enabled(s, step) && k < |s.socks| && SockOk(s.socks[k], n) && HookOk(s.socks[k], hooked)
    requires SockOk(SockNext(s, step, k), n')
    ensures var now := step.Hook? && Concerned(s, step) == Some(k);
            HookOk(SockNext(s, step, k), hooked || now)
  {
    var c, d := s.socks[k], SockNext(s, step, k);
    if step.Hook? && Concerned(s, step) == Some(k) {
    } else {
      hide Concerned, ModOf;
      HookStep(c, d, n, hooked);
    }
  }

  lemma NewSock()
    ensures HookOk(Sock(1, true, false, 0, 0), false)
  {}

  lemma SafeSock(n: nat, steps: seq<Step>, states: seq<State>, l: nat, k: nat)
    requires IsRun(n, steps, states) && l <= |steps| && k < |states[l].socks|
    ensures SockOk(states[l].socks[k], |Refs(states[l].live, states[l].made, k)|)
    ensures forall e :: 0 <= e < |states[l].made| ==> states[l].made[e].sock < |states[l].socks|
  {
    RunSafe(n, steps, states, l);
    hide Places, LiveOk, Bounded, SockOk, Refs;
  }

  lemma HookedNext(steps: seq<Step>, states: seq<State>, l: nat, k: nat)
    requires |states| == |steps| + 1 && l < |steps|
    ensures Hooked(steps, states, l + 1, k) <==> Hooked(steps, states, l, k) || HookedAt(steps, states, l, k)
  {
    hide HookedAt;
    if HookedAt(steps, states, l, k) {
      assert l < l + 1;
    }
    if Hooked(steps, states, l, k) {
      var j: nat :| j < l && HookedAt(steps, states, j, k);
      assert j < l + 1;
    }
  }

  /** A socket that has not been accepted yet has no hook. */
  lemma {:induction false} NotYet(n: nat, steps: seq<Step>, states: seq<State>, l: nat, k: nat)
    requires IsRun(n, steps, states) && 0 < l <= |steps| && k >= |states[l - 1].socks|
    ensures !Hooked(steps, states, l, k)
  {
    forall j: nat | j < l ensures !HookedAt(steps, states, j, k) {
      FewerSocks(n, steps, states, j, l - 1);
      RunSafe(n, steps, states, j);
      hide Follow, Places, LiveOk, Bounded;
    }
  }

  lemma {:induction false} FewerSocks(n: nat, steps: seq<Step>, states: seq<State>, j: nat, l: nat)
    requires IsRun(n, steps, states) && j <= l <= |steps|
    ensures |states[j].socks| <= |states[l].socks|
    decreases l
  {
    if j == l {
    } else {
      FewerSocks(n, steps, states, j, l - 1);
      StepOf(n, steps, states, l - 1);
      hide Follow, Init, Places, Next;
      SockAfter(states[l - 1], steps[l - 1], 0);
    }
  }

  // ----- Order -----

  predicate Precedes(q: seq<Id>, x: Id, y: Id) {
    exists i, j :: 0 <= i < j < |q| && q[i] == x && q[j] == y
  }

  lemma InsertKeepsOrder(g: seq<Id>, q: seq<Id>, id: Id, sync: bool, x: Id, y: Id)
    requires Precedes(g + q, x, y)
    ensures Precedes(g + Enqueue(q, id, sync), x, y)
  {
    var s, r := g + q, g + Enqueue(q, id, sync);
    var i, j :| 0 <= i < j < |s| && s[i] == x && s[j] == y;
    if sync {
      Shifted(g, q, id, i);
      Shifted(g, q, id, j);
      assert r[if i < |g| then i else i + 1] == x && r[if j < |g| then j else j + 1] == y;
    } else {
      assert r == s + [id];
      assert r[i] == x && r[j] == y;
    }
  }

  lemma Shifted(g: seq<Id>, q: seq<Id>, id: Id, i: nat)
    requires i < |g + q|
    ensures (g + ([id] + q))[if i < |g| then i else i + 1] == (g + q)[i]
  {}

  /** Only an insertion changes the order of a module. */
  lemma StepOrder(s: State, step: Step, m: nat)
    requires Places(s) && Enabled(s, step) && m < |s.mods|
    ensures m < |Next(s, step).mods|
    ensures if step.Insert? && ModOf(s, s.held.value) == Some(m)
            then
              var id := s.held.value;
              Order(Next(s, step).mods[m]) == Gone(s.mods[m]) + Enqueue(s.mods[m].queue, id, s.made[id].sync)
            else Order(Next(s, step).mods[m]) == Order(s.mods[m])
  {
    var md := s.mods[m];
    assert ModuleOk(md);
    ModAfter(s, step, m);
    hide Places, NoRepeat, ModuleOk, Next, Fetch, Handled, Dropped, ModOf;
    match step {
      case Get(k) => if k == m { FetchOk(md); }
      case Handle(k) => if k == m { HandledOk(md); }
      case Release(k) => if k == m { ReleasedOk(md); }
      case Drop(k) => if k == m { DroppedOk(md); }
      case _ =>
    }
  }

  lemma StepKeepsPrecedes(s: State, step: Step, m: nat, x: Id, y: Id)
    requires Places(s) && Enabled(s, step) && m < |s.mods| && Precedes(Order(s.mods[m]), x, y)
    ensures m < |Next(s, step).mods| && Precedes(Order(Next(s, step).mods[m]), x, y)
  {
    StepOrder(s, step, m);
    var md := s.mods[m];
    if step.Insert? && ModOf(s, s.held.value) == Some(m) {
      assert Order(md) == Gone(md) + md.queue;
      InsertKeepsOrder(Gone(md), md.queue, s.held.value, s.made[s.held.value].sync, x, y);
    }
  }

  /** Where a step of a run comes from, and where it goes. */
  lemma StepOf(n: nat, steps: seq<Step>, states: seq<State>, k: nat)
    requires IsRun(n, steps, states) && k < |steps|
    ensures Places(states[k]) && Goes(states[k], steps[k], states[k + 1])
  {
    RunSafe(n, steps, states, k);
    hide Places, LiveOk, RefsOk, Bounded, Goes;
  }

  lemma {:induction false} PrecedesForGood(
      n: nat, steps: seq<Step>, states: seq<State>, k: nat, l: nat, m: nat, x: Id, y: Id)
    requires IsRun(n, steps, states) && k <= l <= |steps| && m < |states[k].mods|
    requires Precedes(Order(states[k].mods[m]), x, y)
    ensures m < |states[l].mods| && Precedes(Order(states[l].mods[m]), x, y)
    decreases l
  {
    hide Precedes, Places, Order, Follow, Init, Enabled, Next;
    if k == l {
    } else {
      PrecedesForGood(n, steps, states, k, l - 1, m, x, y);
      StepOf(n, steps, states, l - 1);
      StepKeepsPrecedes(states[l - 1], steps[l - 1], m, x, y);
    }
  }

  /** Whoever precedes leaves first. */
  lemma LeavesFirst(md: Module, x: Id, y: Id)
    requires ModuleOk(md) && Precedes(Order(md), x, y)
    ensures y in Gone(md) ==> x in Gone(md) && Precedes(Gone(md), x, y)
  {
    var g, q := Gone(md), Order(md);
    assert q == g + md.queue;
    var i, j :| 0 <= i < j < |q| && q[i] == x && q[j] == y;
    if y in g {
      var l :| 0 <= l < |g| && g[l] == y;
      assert q[l] == y;
      assert j == l;
      assert g[i] == x;
    }
  }

  /** Step k queues the entry x for module m. */
  predicate Inserts(steps: seq<Step>, states: seq<State>, k: nat, m: nat, x: Id)
    requires |states| == |steps| + 1
  {
    k < |steps| && steps[k].Insert? && states[k].held == Some(x) && ModOf(states[k], x) == Some(m)
  }

  /** x comes before y in the order of module m; if y has left its queue, x had left before. */
  predicate Overtakes(md: Module, x: Id, y: Id) {
    && Precedes(Order(md), x, y)
    && (y in Gone(md) ==> x in Gone(md) && Precedes(Gone(md), x, y))
  }

  /** Asynchronous requests of a module leave in the order in which they were queued, now and ever after. */
  lemma FirstComeFirstServed(
      n: nat, steps: seq<Step>, states: seq<State>, k: nat, l: nat, end: nat, m: nat, x: Id, y: Id)
    requires IsRun(n, steps, states) && k < l < end <= |steps|
    requires Inserts(steps, states, k, m, x) && Inserts(steps, states, l, m, y) && !states[l].made[y].sync
    ensures m < |states[end].mods| && Overtakes(states[end].mods[m], x, y)
  {
    hide IsRun, Order, Precedes, Gone, ModOf, Overtakes;
    Queues(n, steps, states, k, m, x);
    StaysQueued(n, steps, states, k + 1, l, m, x);
    Queues(n, steps, states, l, m, y);
    Finally(n, steps, states, l + 1, end, m, x, y);
  }

  /** A synchronous request leaves before everything that was waiting when it was queued. */
  lemma SyncGoesFirst(n: nat, steps: seq<Step>, states: seq<State>, k: nat, end: nat, m: nat, x: Id, y: Id)
    requires IsRun(n, steps, states) && k < end <= |steps|
    requires Inserts(steps, states, k, m, x) && states[k].made[x].sync && y in states[k].mods[m].queue
    ensures m < |states[end].mods| && Overtakes(states[end].mods[m], x, y)
  {
    hide IsRun, Order, Precedes, Gone, ModOf, Overtakes;
    Queues(n, steps, states, k, m, x);
    Finally(n, steps, states, k + 1, end, m, x, y);
  }

  /** What an insertion does to the order. */
  lemma Queues(n: nat, steps: seq<Step>, states: seq<State>, k: nat, m: nat, x: Id)
    requires IsRun(n, steps, states) && Inserts(steps, states, k, m, x)
    ensures m < |states[k + 1].mods|
    ensures var s, t := states[k], states[k + 1];
            && x in Order(t.mods[m])
            && (s.made[x].sync ==> forall y :: y in s.mods[m].queue ==> Precedes(Order(t.mods[m]), x, y))
            && (!s.made[x].sync ==> forall y :: y in Order(s.mods[m]) ==> Precedes(Order(t.mods[m]), y, x))
  {
    StepOf(n, steps, states, k);
    var s := states[k];
    hide IsRun, Places, Next, Enabled, Precedes;
    StepOrder(s, Insert, m);
    Inserted(Gone(s.mods[m]), s.mods[m].queue, x, s.made[x].sync);
  }

  lemma Inserted(g: seq<Id>, q: seq<Id>, x: Id, sync: bool)
    ensures var r := g + Enqueue(q, x, sync);
            && x in r
            && (sync ==> forall y :: y in q ==> Precedes(r, x, y))
            && (!sync ==> forall y :: y in g + q ==> Precedes(r, y, x))
  {
    var r := g + Enqueue(q, x, sync);
    if sync {
      assert r[|g|] == x;
      forall y | y in q ensures Precedes(r, x, y) {
        var i :| 0 <= i < |q| && q[i] == y;
        assert r[|g| + 1 + i] == y;
      }
    } else {
      assert r == g + q + [x];
      assert r[|g + q|] == x;
      forall y | y in g + q ensures Precedes(r, y, x) {
        var i :| 0 <= i < |g + q| && (g + q)[i] == y;
        assert r[i] == y;
      }
    }
  }

  lemma Finally(n: nat, steps: seq<Step>, states: seq<State>, k: nat, end: nat, m: nat, x: Id, y: Id)
    requires IsRun(n, steps, states) && k <= end <= |steps| && m < |states[k].mods|
    requires Precedes(Order(states[k].mods[m]), x, y)
    ensures m < |states[end].mods| && Overtakes(states[end].mods[m], x, y)
  {
    PrecedesForGood(n, steps, states, k, end, m, x, y);
    RunSafe(n, steps, states, end);
    hide IsRun, Precedes, Order, Gone, LiveOk, RefsOk, Bounded, Fits;
    LeavesFirst(states[end].mods[m], x, y);
  }

  lemma StepKeepsQueued(s: State, step: Step, m: nat, x: Id)
    requires Places(s) && Enabled(s, step) && m < |s.mods| && x in Order(s.mods[m])
    ensures m < |Next(s, step).mods| && x in Order(Next(s, step).mods[m])
  {
    StepOrder(s, step, m);
    hide Places, Enabled, Next;
  }

  /** What has been queued is never lost. */
  lemma {:induction false} StaysQueued(n: nat, steps: seq<Step>, states: seq<State>, k: nat, l: nat, m: nat, x: Id)
    requires IsRun(n, steps, states) && k <= l <= |steps| && m < |states[k].mods|
    requires x in Order(states[k].mods[m])
    ensures m < |states[l].mods| && x in Order(states[l].mods[m])
    decreases l
  {
    hide Places, Order, Follow, Init, Enabled, Next;
    if k == l {
    } else {
      StaysQueued(n, steps, states, k, l - 1, m, x);
      StepOf(n, steps, states, l - 1);
      StepKeepsQueued(states[l - 1], steps[l - 1], m, x);
    }
  }

  // ----- Exactly once -----

  /**
   * In every state of every run, an entry that was queued is in exactly one place, and
   * there once: waiting, in the worker's hands, handed to the driver, or freed unprocessed.
   */
  lemma ExactlyOnce(n: nat, steps: seq<Step>, states: seq<State>, k: nat, end: nat, m: nat, x: Id)
    requires IsRun(n, steps, states) && k < end <= |steps| && Inserts(steps, states, k, m, x)
    ensures m < |states[end].mods|
    ensures var md := states[end].mods[m];
            multiset(md.processed)[x] + multiset(InHand(md.worker))[x]
            + multiset(md.dropped)[x] + multiset(md.queue)[x] == 1
  {
    Queues(n, steps, states, k, m, x);
    StaysQueued(n, steps, states, k + 1, end, m, x);
    RunSafe(n, steps, states, end);
    hide IsRun, LiveOk, RefsOk, Bounded, Fits, Inserts;
    var md := states[end].mods[m];
    assert ModuleOk(md);
    Once(Order(md), x);
  }

  lemma {:induction false} Once(q: seq<Id>, x: Id)
    requires NoRepeat(q) && x in q
    ensures multiset(q)[x] == 1
  {
    var i :| 0 <= i < |q| && q[i] == x;
    var a, b := q[..i], q[i + 1..];
    assert q == a + [x] + b;
    assert x !in a && x !in b;
    hide NoRepeat;
    assert multiset(q) == multiset(a) + multiset{x} + multiset(b);
  }

  // ----- The end -----

  /**
   * At step k the worker of module m found its queue empty; at the end it has processed
   * exactly the entries that had been queued by then.
   */
  predicate LastFoundEmpty(steps: seq<Step>, states: seq<State>, k: nat, end: nat, m: nat)
    requires |states| == |steps| + 1 && end <= |steps| && m < |states[end].mods|
  {
    && k < end && steps[k] == Get(m) && m < |states[k].mods|
    && states[k].mods[m].queue == [] && Order(states[k].mods[m]) == states[end].mods[m].processed
  }

  /** A worker stops only after it has found its queue empty; it has processed all that had been queued by then. */
  lemma {:induction false} StopsAfterEmpty(n: nat, steps: seq<Step>, states: seq<State>, end: nat, m: nat)
    requires IsRun(n, steps, states) && end <= |steps| && m < |states[end].mods|
    requires states[end].mods[m].worker.Stopped? || states[end].mods[m].worker.FoundEmpty?
    ensures exists k: nat :: LastFoundEmpty(steps, states, k, end, m)
  {
    hide Follow, Init, Next, Enabled, Order, Places;
    if end == 0 {
      StartsIdle(n);
      assert false;
    } else {
      StepOf(n, steps, states, end - 1);
      StillStopped(states[end - 1], steps[end - 1], m);
      if steps[end - 1] == Get(m) {
        assert LastFoundEmpty(steps, states, end - 1, end, m);
      } else {
        StopsAfterEmpty(n, steps, states, end - 1, m);
        var k: nat :| LastFoundEmpty(steps, states, k, end - 1, m);
        assert LastFoundEmpty(steps, states, k, end, m);
      }
    }
  }

  lemma StartsIdle(n: nat)
    ensures forall m :: 0 <= m < |Init(n).mods| ==> Init(n).mods[m].worker.Idle?
  {}

  /** How a worker comes to wait for the order to stop, or stays stopped. */
  lemma StillStopped(s: State, step: Step, m: nat)
    requires Places(s) && Enabled(s, step) && m < |Next(s, step).mods|
    requires Next(s, step).mods[m].worker.Stopped? || Next(s, step).mods[m].worker.FoundEmpty?
    ensures m < |s.mods|
    ensures var md, after := s.mods[m], Next(s, step).mods[m];
            if step == Get(m) then md.queue == [] && Order(md) == after.processed
            else (md.worker.Stopped? || md.worker.FoundEmpty?) && md.processed == after.processed
  {
    ModAfter(s, step, m);
    assert WorkerOk(s.mods[m]);
    hide Places, Next, ModOf, Enqueue;
  }

  /** Whatever a module has in its order was queued for it at some earlier step. */
  lemma {:induction false} OrderWasInserted(n: nat, steps: seq<Step>, states: seq<State>, k: nat, m: nat, x: Id)
    requires IsRun(n, steps, states) && k <= |steps| && m < |states[k].mods| && x in Order(states[k].mods[m])
    ensures exists j: nat :: j < k && Inserts(steps, states, j, m, x)
  {
    hide Follow, Init, Places, Next, Enabled, Order, Inserts;
    if k == 0 {
      StartsEmpty(n, m);
      assert false;
    } else {
      StepOf(n, steps, states, k - 1);
      if WasThere(states[k - 1], m, x) {
        OrderWasInserted(n, steps, states, k - 1, m, x);
      } else {
        ComesNow(steps, states, k - 1, m, x);
      }
    }
  }

  lemma StartsEmpty(n: nat, m: nat)
    ensures m < |Init(n).mods| ==> Order(Init(n).mods[m]) == []
  {}

  predicate WasThere(s: State, m: nat, x: Id) {
    m < |s.mods| && x in Order(s.mods[m])
  }

  lemma ComesNow(steps: seq<Step>, states: seq<State>, k: nat, m: nat, x: Id)
    requires |states| == |steps| + 1 && k < |steps| && Places(states[k]) && Goes(states[k], steps[k], states[k + 1])
    requires m < |states[k + 1].mods| && x in Order(states[k + 1].mods[m])
    requires !WasThere(states[k], m, x)
    ensures Inserts(steps, states, k, m, x)
  {
    var s := states[k];
    ModAfter(s, steps[k], m);
    hide Next, Places;
    StepOrder(s, steps[k], m);
    assert Order(s.mods[m]) == Gone(s.mods[m]) + s.mods[m].queue;
  }

  /**
   * When a worker has stopped, the requests it has processed are exactly those queued for
   * its module before its last look at the queue, which found it empty.
   */
  lemma ProcessedIffInTime(n: nat, steps: seq<Step>, states: seq<State>, end: nat, m: nat)
    requires IsRun(n, steps, states) && end <= |steps| && m < |states[end].mods|
    requires states[end].mods[m].worker.Stopped?
    ensures exists k: nat :: && LastFoundEmpty(steps, states, k, end, m)
                             && forall x :: x in states[end].mods[m].processed <==>
                                            exists j: nat :: j < k && Inserts(steps, states, j, m, x)
  {
    StopsAfterEmpty(n, steps, states, end, m);
    var k: nat :| LastFoundEmpty(steps, states, k, end, m);
    forall x ensures x in states[end].mods[m].processed <==> exists j: nat :: j < k && Inserts(steps, states, j, m, x) {
      if x in states[end].mods[m].processed {
        OrderWasInserted(n, steps, states, k, m, x);
      }
      if exists j: nat :: j < k && Inserts(steps, states, j, m, x) {
        var j: nat :| j < k && Inserts(steps, states, j, m, x);
        Queues(n, steps, states, j, m, x);
        StaysQueued(n, steps, states, j + 1, k, m, x);
      }
    }
  }

  /** Every entry made for a module is in the main thread's hands or has been queued there. */
  predicate NoneLost(s: State) {
    forall id :: 0 <= id < |s.made| && s.made[id].mod.Some? ==>
      && s.made[id].mod.value < |s.mods|
      && (s.held == Some(id) || id in Order(s.mods[s.made[id].mod.value]))
  }

  lemma StepLosesNone(s: State, step: Step)
    requires Places(s) && NoneLost(s) && Enabled(s, step)
    ensures NoneLost(Next(s, step))
  {
    var t := Next(s, step);
    MadeAfter(s, step);
    forall id | 0 <= id < |t.made| && t.made[id].mod.Some?
      ensures t.made[id].mod.value < |t.mods| && (t.held == Some(id) || id in Order(t.mods[t.made[id].mod.value]))
    {
      ModAfter(s, step, 0);
      if id < |s.made| {
        StepOrder(s, step, s.made[id].mod.value);
        hide Next, Order, Places;
      }
    }
  }

  lemma {:induction false} RunLosesNone(n: nat, steps: seq<Step>, states: seq<State>, k: nat)
    requires IsRun(n, steps, states) && k <= |steps|
    ensures NoneLost(states[k])
  {
    hide NoneLost, Next, Enabled, Init, Places;
    if k == 0 {
      NothingToLose(n);
    } else {
      RunLosesNone(n, steps, states, k - 1);
      StepOf(n, steps, states, k - 1);
      StepLosesNone(states[k - 1], steps[k - 1]);
    }
  }

  lemma NothingToLose(n: nat)
    ensures NoneLost(Init(n))
  {}

  /**
   * When all workers have stopped and `queue_free` has emptied the queues, no entry is left,
   * every closed connection's socket has been freed, once, and every request that was made
   * for a module was processed or dropped, once.
   */
  lemma AtTheEnd(n: nat, steps: seq<Step>, states: seq<State>, end: nat)
    requires IsRun(n, steps, states) && end <= |steps| && states[end].held.None?
    requires forall m :: 0 <= m < |states[end].mods| ==>
               states[end].mods[m].worker.Stopped? && states[end].mods[m].queue == []
    ensures var s := states[end];
            && s.live == {}
            && (forall k :: 0 <= k < |s.socks| ==> s.socks[k].freed == (if s.socks[k].open then 0 else 1))
            && (forall id, m :: 0 <= id < |s.made| && s.made[id].mod == Some(m) ==>
                  m < |s.mods| && multiset(s.mods[m].processed)[id] + multiset(s.mods[m].dropped)[id] == 1)
  {
    RunSafe(n, steps, states, end);
    RunLosesNone(n, steps, states, end);
    var s := states[end];
    hide IsRun, Bounded, Fits, Refs;
    NoneAlive(s);
    forall k | 0 <= k < |s.socks| ensures s.socks[k].freed == (if s.socks[k].open then 0 else 1) {
      assert SockOk(s.socks[k], |Refs(s.live, s.made, k)|);
      NoRefs(s.made, k);
    }
    forall id, m | 0 <= id < |s.made| && s.made[id].mod == Some(m)
      ensures m < |s.mods| && multiset(s.mods[m].processed)[id] + multiset(s.mods[m].dropped)[id] == 1
    {
      Once(Order(s.mods[m]), id);
    }
  }

  lemma NoneAlive(s: State)
    requires LiveOk(s) && s.held.None?
    requires forall m :: 0 <= m < |s.mods| ==> s.mods[m].worker.Stopped? && s.mods[m].queue == []
    ensures s.live == {}
  {
    forall id ensures id !in s.live {
      assert !Alive(s, id);
    }
  }

  lemma NoRefs(made: seq<Entry>, k: nat)
    ensures Refs({}, made, k) == {}
  {}

  /**
   * A request can come too late: queued after the worker's last look at its queue, it is
   * freed without having been processed.
   */
  lemma LateRequest()
    ensures var steps := [Accept, Get(0), Make(0, Some(0), false), Insert, Shutdown, Flag(0), Look(0), Drop(0)];
            exists states: seq<State> :: && IsRun(1, steps, states) && |states[8].mods| == 1
                             && states[8].mods[0].processed == [] && states[8].mods[0].dropped == [0]
  {
    var a := Init(1);
    var b := a.(socks := [OPEN]);
    var c := b.(mods := [LOOKED]);
    var d := c.(socks := [USED], made := [Entry(0, Some(0), false)], live := {0}, held := Some(0));
    var e := d.(held := None, mods := [LOOKED.(queue := [0])]);
    var f := e.(serving := false);
    var g := f.(mods := [LOOKED.(queue := [0], stop := true)]);
    var h := f.(mods := [Module([0], Stopped, true, [], [])]);
    var i := h.(socks := [OPEN], live := {}, mods := [Module([], Stopped, true, [], [0])]);
    hide Goes, Init;
    LateFrame(a, b, e, f);
    LateUntilInsert(b, c, d, e);
    LateUntilDrop(f, g, h, i);
    var steps := [Accept, Get(0), Make(0, Some(0), false), Insert, Shutdown, Flag(0), Look(0), Drop(0)];
    var states := [a, b, c, d, e, f, g, h, i];
    assert IsRun(1, steps, states);
  }

  lemma LateFrame(a: State, b: State, e: State, f: State)
    requires a == Init(1) && b == a.(socks := [OPEN])
    requires e.serving && e.held.None? && f == e.(serving := false)
    ensures Goes(a, Accept, b) && Goes(e, Shutdown, f)
    ensures b == State([OPEN], [], {}, None, [LOOKED.(worker := Idle)], true)
  {
    assert a.mods == [LOOKED.(worker := Idle)];
  }

  const OPEN: Sock := Sock(1, true, false, 0, 0)
  const USED: Sock := Sock(2, true, false, 0, 0)
  const LOOKED: Module := Module([], FoundEmpty, false, [], [])

  lemma LateUntilInsert(b: State, c: State, d: State, e: State)
    requires b == State([OPEN], [], {}, None, [LOOKED.(worker := Idle)], true) && c == b.(mods := [LOOKED])
    requires d == c.(socks := [USED], made := [Entry(0, Some(0), false)], live := {0}, held := Some(0))
    requires e == d.(held := None, mods := [LOOKED.(queue := [0])])
    ensures Goes(b, Get(0), c) && Goes(c, Make(0, Some(0), false), d) && Goes(d, Insert, e)
  {
    assert Enqueue([], 0, false) == [0];
    assert Next(d, Insert).mods == e.mods;
    assert Next(c, Make(0, Some(0), false)).socks == d.socks;
  }

  lemma LateUntilDrop(f: State, g: State, h: State, i: State)
    requires f.mods == [LOOKED.(queue := [0])] && !f.serving && f.socks == [USED]
    requires f.made == [Entry(0, Some(0), false)] && f.live == {0}
    requires g == f.(mods := [LOOKED.(queue := [0], stop := true)])
    requires h == f.(mods := [Module([0], Stopped, true, [], [])])
    requires i == h.(socks := [OPEN], live := {}, mods := [Module([], Stopped, true, [], [0])])
    ensures Goes(f, Flag(0), g) && Goes(g, Look(0), h) && Goes(h, Drop(0), i)
  {
    var after := Dropped(h.mods[0]);
    assert after == i.mods[0];
    assert OnMod(h, 0, after).mods == i.mods;
    assert h.live - {0} == {} && h.socks[0 := RemoveRef(h.socks[0])] == i.socks;
  }

  // ----- How long a queue gets -----

  /** A server with one connection and one module, whose queue has this length. */
  predicate Growing(s: State, len: nat) {
    && s.serving && s.held.None? && |s.socks| == 1 && s.socks[0].open
    && |s.mods| == 1 && |s.mods[0].queue| == len
  }

  lemma OneStepMore(n: nat, steps: seq<Step>, states: seq<State>, step: Step)
    requires IsRun(n, steps, states) && Enabled(states[|steps|], step)
    ensures IsRun(n, steps + [step], states + [Next(states[|steps|], step)])
  {
    hide Next, Enabled, Init;
  }

  lemma GrowStep(s: State, len: nat)
    requires Growing(s, len) && len < LONGEST
    ensures Enabled(s, Make(0, Some(0), false))
    ensures Enabled(Next(s, Make(0, Some(0), false)), Insert)
    ensures Growing(Next(Next(s, Make(0, Some(0), false)), Insert), len + 1)
  {}

  lemma {:induction false} QueueGrows(len: nat) returns (steps: seq<Step>, states: seq<State>)
    requires len <= LONGEST
    ensures IsRun(1, steps, states) && Growing(states[|steps|], len)
  {
    if len == 0 {
      steps, states := [Accept], [Init(1), Next(Init(1), Accept)];
    } else {
      steps, states := QueueGrows(len - 1);
      var s := states[|steps|];
      GrowStep(s, len - 1);
      hide Next, Enabled, Init, Growing, Follow;
      OneStepMore(1, steps, states, Make(0, Some(0), false));
      steps, states := steps + [Make(0, Some(0), false)], states + [Next(s, Make(0, Some(0), false))];
      OneStepMore(1, steps, states, Insert);
      steps, states := steps + [Insert], states + [Next(states[|steps|], Insert)];
    }
  }

  /** After k steps of a run the only queue has this length. */
  predicate LengthAt(steps: seq<Step>, states: seq<State>, k: nat, len: nat) {
    IsRun(1, steps, states) && k <= |steps| && |states[k].mods| == 1 && |states[k].mods[0].queue| == len
  }

  ghost predicate ReachesLength(len: nat) {
    exists steps, states, k: nat :: LengthAt(steps, states, k, len)
  }

  /** The lengths that a queue reaches are exactly those up to 2097200. */
  lemma QueueLengths(len: nat)
    ensures ReachesLength(len) <==> len <= 2097200
  {
    if len <= LONGEST {
      var steps, states := QueueGrows(len);
      assert LengthAt(steps, states, |steps|, len);
    }
    if ReachesLength(len) {
      var steps: seq<Step>, states: seq<State>, k: nat :| LengthAt(steps, states, k, len);
      RunSafe(1, steps, states, k);
      hide Places, LiveOk, RefsOk, IsRun;
      assert |states[k].mods[0].queue| + Coming(states[k], 0) <= LONGEST;
    }
  }
}
