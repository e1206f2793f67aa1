/**
 * What every run of the server keeps: where each entry is, and how many references each
 * socket has.
 */
module ServerSafe {
  import opened Bytes
  import opened ServerRun

  // ----- Where the entries of a module are -----

  function InHand(w: Worker): seq<Id> {
    if w.Busy? && !w.handled then [w.id] else []
  }

  /** All entries that were ever queued for a module: those that have left, then those that wait. */
  function Order(md: Module): seq<Id> {
    md.processed + InHand(md.worker) + md.dropped + md.queue
  }

  predicate NoRepeat(q: seq<Id>) {
    forall i, j :: 0 <= i < j < |q| ==> q[i] != q[j]
  }

  /** A worker that has handled an entry handled it last; only what a stopped worker left is dropped. */
  predicate WorkerOk(md: Module) {
    && (md.worker.Busy? && md.worker.handled ==> md.processed != [] && md.processed[|md.processed| - 1] == md.worker.id)
    && (md.dropped != [] ==> md.worker.Stopped?)
    && (md.worker.Stopped? ==> md.stop)
  }

  predicate ModuleOk(md: Module) {
    WorkerOk(md) && NoRepeat(Order(md))
  }

  /** Waiting, or in the hands of the worker. */
  predicate InModule(md: Module, id: Id) {
    id in md.queue || (md.worker.Busy? && md.worker.id == id)
  }

  lemma FetchOk(md: Module)
    requires ModuleOk(md) && md.worker.Idle?
    ensures ModuleOk(Fetch(md)) && Order(Fetch(md)) == Order(md)
    ensures forall id :: InModule(Fetch(md), id) <==> InModule(md, id)
  {
    assert Order(Fetch(md)) == Order(md);
    assert md.queue != [] ==> md.queue == [md.queue[0]] + md.queue[1..];
  }

  lemma HandledOk(md: Module)
    requires ModuleOk(md) && md.worker.Busy? && !md.worker.handled
    ensures ModuleOk(Handled(md)) && Order(Handled(md)) == Order(md)
    ensures forall id :: InModule(Handled(md), id) <==> InModule(md, id)
  {
    assert Order(Handled(md)) == Order(md);
  }

  lemma ReleasedOk(md: Module)
    requires ModuleOk(md) && md.worker.Busy? && md.worker.handled
    ensures var r := md.(worker := Idle);
            && ModuleOk(r) && Order(r) == Order(md)
            && forall id :: InModule(r, id) <==> InModule(md, id) && id != md.worker.id
  {
    var r := md.(worker := Idle);
    assert Order(r) == Order(md);
    var k := |md.processed| - 1;
    assert Order(md)[k] == md.worker.id;
    assert forall i :: 0 <= i < |md.queue| ==> md.queue[i] == Order(md)[|Order(md)| - |md.queue| + i];
  }

  lemma DroppedOk(md: Module)
    requires ModuleOk(md) && md.worker.Stopped? && md.queue != []
    ensures ModuleOk(Dropped(md)) && Order(Dropped(md)) == Order(md)
    ensures forall id :: InModule(Dropped(md), id) <==> InModule(md, id) && id != md.queue[0]
  {
    assert Order(Dropped(md)) == Order(md);
    var at := |Order(md)| - |md.queue|;
    assert forall i :: 0 <= i < |md.queue| ==> md.queue[i] == Order(md)[at + i];
    assert md.queue == [md.queue[0]] + md.queue[1..];
  }

  /** Before the queue: what has left. */
  function Gone(md: Module): seq<Id> {
    md.processed + InHand(md.worker) + md.dropped
  }

  lemma QueuedOk(md: Module, id: Id, sync: bool)
    requires ModuleOk(md) && id !in Order(md)
    ensures ModuleOk(Queued(md, id, sync))
    ensures Order(Queued(md, id, sync)) == Gone(md) + Enqueue(md.queue, id, sync)
    ensures forall x :: InModule(Queued(md, id, sync), x) <==> InModule(md, x) || x == id
    ensures forall x :: x in Order(Queued(md, id, sync)) <==> x in Order(md) || x == id
  {
    var g := Gone(md);
    assert Order(md) == g + md.queue;
    InsertOnce(g, md.queue, id, sync);
  }

  lemma InsertOnce(g: seq<Id>, q: seq<Id>, id: Id, sync: bool)
    requires NoRepeat(g + q) && id !in g + q
    ensures NoRepeat(g + Enqueue(q, id, sync))
  {
    if sync {
      var r := g + ([id] + q);
      forall i, j | 0 <= i < j < |r| ensures r[i] != r[j] {
        var k, l := if i <= |g| then i else i - 1, if j <= |g| then j else j - 1;
        assert i != |g| ==> r[i] == (g + q)[k];
        assert j != |g| ==> r[j] == (g + q)[l];
      }
    } else {
      assert g + (q + [id]) == g + q + [id];
    }
  }

  // ----- Where all entries are -----

  /** The entries of one module: made for it, and not in the hands of the main thread. */
  predicate Fits(made: seq<Entry>, held: Option<Id>, m: nat, order: seq<Id>) {
    forall i :: 0 <= i < |order| ==> order[i] < |made| && made[order[i]].mod == Some(m) && held != Some(order[i])
  }

  predicate Places(s: State) {
    && (s.held.Some? ==> s.serving && s.held.value < |s.made|)
    && forall m :: 0 <= m < |s.mods| ==>
         && ModuleOk(s.mods[m]) && Fits(s.made, s.held, m, Order(s.mods[m]))
         && (s.mods[m].stop ==> !s.serving)
  }

  predicate Alive(s: State, id: Id) {
    s.held == Some(id) || (ModOf(s, id).Some? && InModule(s.mods[ModOf(s, id).value], id))
  }

  /** Allocated are exactly the entries that somebody will still get at. */
  ghost predicate LiveOk(s: State) {
    && (forall id :: id in s.live ==> Alive(s, id))
    && (forall id :: Alive(s, id) ==> id in s.live)
  }

  lemma ModChange(s: State, m: nat, md: Module)
    requires Places(s) && m < |s.mods| && ModuleOk(md) && Order(md) == Order(s.mods[m]) && (md.stop ==> !s.serving)
    ensures Places(OnMod(s, m, md))
  {
    hide ModuleOk, Order, Fits;
  }

  lemma LiveChange(s: State, m: nat, md: Module, gone: set<Id>)
    requires LiveOk(s) && m < |s.mods|
    requires forall id :: InModule(md, id) <==> InModule(s.mods[m], id) && id !in gone
    requires forall id :: id in gone ==> ModOf(s, id) == Some(m) && s.held != Some(id)
    ensures LiveOk(OnMod(s, m, md).(live := s.live - gone))
  {
    var t := OnMod(s, m, md).(live := s.live - gone);
    hide InModule;
    forall id ensures Alive(t, id) <==> Alive(s, id) && id !in gone {
      assert ModOf(t, id) == ModOf(s, id);
    }
  }

  /** An entry of a module belongs to it. */
  lemma Belongs(s: State, m: nat, id: Id)
    requires Places(s) && m < |s.mods| && InModule(s.mods[m], id)
    ensures id in Order(s.mods[m]) && ModOf(s, id) == Some(m) && s.held != Some(id)
  {
    var md := s.mods[m];
    assert ModuleOk(md) && Fits(s.made, s.held, m, Order(md));
    InOrder(md, id);
  }

  lemma InOrder(md: Module, id: Id)
    requires WorkerOk(md) && InModule(md, id)
    ensures id in Order(md)
  {}

  lemma InsertPlaces(s: State)
    requires Places(s) && LiveOk(s) && Enabled(s, Insert)
    ensures Places(Next(s, Insert)) && LiveOk(Next(s, Insert))
  {
    var id := s.held.value;
    var m := ModOf(s, id).value;
    var md := s.mods[m];
    assert ModuleOk(md) && Fits(s.made, s.held, m, Order(md));
    QueuedOk(md, id, s.made[id].sync);
    var after := Queued(md, id, s.made[id].sync);
    hide ModuleOk, Order, InModule, Queued;
    var t := Next(s, Insert);
    assert t.mods[m] == after && t.held == None;
    StillFits(s, m, id, Order(after));
    forall x ensures Alive(t, x) <==> Alive(s, x) {
      assert ModOf(t, x) == ModOf(s, x);
    }
    forall k | 0 <= k < |s.mods| && k != m ensures Fits(t.made, t.held, k, Order(t.mods[k])) {
      assert Fits(s.made, s.held, k, Order(s.mods[k]));
    }
  }

  lemma StillFits(s: State, m: nat, id: Id, order: seq<Id>)
    requires m < |s.mods| && Fits(s.made, s.held, m, Order(s.mods[m])) && ModOf(s, id) == Some(m)
    requires forall x :: x in order <==> x in Order(s.mods[m]) || x == id
    ensures Fits(s.made, None, m, order)
  {
    forall i | 0 <= i < |order| ensures order[i] < |s.made| && s.made[order[i]].mod == Some(m) {
      assert order[i] in order;
    }
  }

  lemma MakePlaces(s: State, k: nat, mod: Option<nat>, sync: bool)
    requires Places(s) && LiveOk(s) && Enabled(s, Make(k, mod, sync))
    ensures Places(Next(s, Make(k, mod, sync))) && LiveOk(Next(s, Make(k, mod, sync)))
  {
    var t := Next(s, Make(k, mod, sync));
    var id := |s.made|;
    hide ModuleOk, Order, InModule;
    forall m | 0 <= m < |s.mods| ensures Fits(t.made, t.held, m, Order(t.mods[m])) {
      assert Fits(s.made, s.held, m, Order(s.mods[m]));
    }
    forall x ensures Alive(t, x) <==> Alive(s, x) || x == id {
      if x != id {
        assert ModOf(t, x) == ModOf(s, x);
      }
    }
  }

  lemma AnswerPlaces(s: State)
    requires Places(s) && LiveOk(s) && Enabled(s, Answer)
    ensures Places(Next(s, Answer)) && LiveOk(Next(s, Answer))
  {
    var t := Next(s, Answer);
    hide ModuleOk, Order, InModule;
    forall m | 0 <= m < |s.mods| ensures Fits(t.made, t.held, m, Order(t.mods[m])) {
      assert Fits(s.made, s.held, m, Order(s.mods[m]));
    }
    forall x ensures Alive(t, x) <==> Alive(s, x) && x != s.held.value {
      assert ModOf(t, x) == ModOf(s, x);
    }
  }

  /** A step that changes one module, frees `gone` and does what it likes to sockets. */
  lemma ModStep(s: State, m: nat, md: Module, gone: set<Id>, t: State)
    requires Places(s) && LiveOk(s) && m < |s.mods|
    requires ModuleOk(md) && Order(md) == Order(s.mods[m]) && (md.stop ==> !s.serving)
    requires forall id :: InModule(md, id) <==> InModule(s.mods[m], id) && id !in gone
    requires forall id :: id in gone ==> InModule(s.mods[m], id)
    requires t == OnMod(s, m, md).(live := s.live - gone, socks := t.socks)
    ensures Places(t) && LiveOk(t)
  {
    forall id | id in gone ensures ModOf(s, id) == Some(m) && s.held != Some(id) {
      Belongs(s, m, id);
    }
    hide ModuleOk, Order, InModule, LiveOk, Places, ModOf;
    ModChange(s, m, md);
    LiveChange(s, m, md, gone);
    var u := OnMod(s, m, md);
    SameElsewhere(u, t);
    SameElsewhere(u.(live := s.live - gone), t);
  }

  /** Neither condition speaks of sockets, and the first not of `live`. */
  lemma SameElsewhere(s: State, t: State)
    requires t == s.(live := t.live, socks := t.socks)
    ensures Places(s) ==> Places(t)
    ensures LiveOk(s) && s.live == t.live ==> LiveOk(t)
  {
    hide ModuleOk, Order, InModule, Fits;
    if LiveOk(s) && s.live == t.live {
      assert forall id :: Alive(t, id) <==> Alive(s, id);
    }
  }

  /** The worker's own steps, and those of the shutdown. */
  lemma WorkerPlaces(s: State, step: Step)
    requires Places(s) && LiveOk(s) && Enabled(s, step)
    requires step.Get? || step.Handle? || step.Release? || step.Look? || step.Flag? || step.Drop?
    ensures Places(Next(s, step)) && LiveOk(Next(s, step))
  {
    var m := step.m;
    var md := s.mods[m];
    assert ModuleOk(md) && (md.stop ==> !s.serving);
    hide Places, LiveOk, Order, NoRepeat, ModOf;
    var t := Next(s, step);
    match step {
      case Get(_) =>
        FetchOk(md);
        ModStep(s, m, Fetch(md), {}, t);
      case Handle(_) =>
        HandledOk(md);
        ModStep(s, m, Handled(md), {}, t);
      case Release(_) =>
        ReleasedOk(md);
        ModStep(s, m, md.(worker := Idle), {md.worker.id}, t);
      case Look(_) =>
        var after := md.(worker := if md.stop then Stopped else Idle);
        SameOrder(md, after);
        ModStep(s, m, after, {}, t);
      case Flag(_) =>
        SameOrder(md, md.(stop := true));
        ModStep(s, m, md.(stop := true), {}, t);
      case Drop(_) =>
        DroppedOk(md);
        ModStep(s, m, Dropped(md), {md.queue[0]}, t);
    }
  }

  lemma SameOrder(a: Module, b: Module)
    requires a.queue == b.queue && a.processed == b.processed && a.dropped == b.dropped
    requires InHand(a.worker) == InHand(b.worker)
    ensures Order(a) == Order(b)
  {}

  // ----- References -----

  /** The live entries that refer to a socket. */
  function Refs(live: set<Id>, made: seq<Entry>, k: nat): set<Id> {
    set e | e in live && e < |made| && made[e].sock == k
  }

  /** One reference for the connection while it is open, and one for each of n entries. */
  predicate SockOk(c: Sock, n: nat) {
    && c.refcount == (if c.open then 1 else 0) + n
    && c.freed == (if c.refcount == 0 then 1 else 0)
    && c.hooks <= c.freed && (c.hook ==> c.freed == 0)
  }

  predicate RefsOk(s: State) {
    && (forall e :: 0 <= e < |s.made| ==> s.made[e].sock < |s.socks|)
    && (forall k :: 0 <= k < |s.socks| ==> SockOk(s.socks[k], |Refs(s.live, s.made, k)|))
  }

  lemma RemoveOk(c: Sock, n: nat)
    requires SockOk(c, n)
    ensures n > 0 ==> SockOk(RemoveRef(c), n - 1)
    ensures c.open ==> SockOk(RemoveRef(c.(open := false)), n)
  {}

  lemma FreeRefs(s: State, id: Id)
    requires RefsOk(s) && id in s.live && id < |s.made|
    ensures RefsOk(FreeEntry(s, id))
  {
    var k := s.made[id].sock;
    var t := FreeEntry(s, id);
    assert SockOk(s.socks[k], |Refs(s.live, s.made, k)|);
    forall j | 0 <= j < |s.socks| ensures SockOk(t.socks[j], |Refs(t.live, t.made, j)|) {
      assert SockOk(s.socks[j], |Refs(s.live, s.made, j)|);
      if j == k {
        assert Refs(t.live, t.made, j) == Refs(s.live, s.made, j) - {id};
        assert id in Refs(s.live, s.made, j);
        RemoveOk(s.socks[j], |Refs(s.live, s.made, j)|);
      } else {
        assert Refs(t.live, t.made, j) == Refs(s.live, s.made, j);
      }
    }
  }

  lemma MakeRefs(s: State, k: nat, mod: Option<nat>, sync: bool)
    requires RefsOk(s) && Enabled(s, Make(k, mod, sync)) && |s.made| !in s.live
    ensures RefsOk(Next(s, Make(k, mod, sync)))
  {
    var t := Next(s, Make(k, mod, sync));
    forall j | 0 <= j < |s.socks| ensures SockOk(t.socks[j], |Refs(t.live, t.made, j)|) {
      assert SockOk(s.socks[j], |Refs(s.live, s.made, j)|);
      OneMoreRef(s.live, s.made, Entry(k, mod, sync), j);
      hide Refs;
    }
  }

  lemma OneMoreRef(live: set<Id>, made: seq<Entry>, e: Entry, j: nat)
    requires |made| !in live
    ensures |Refs(live + {|made|}, made + [e], j)| == |Refs(live, made, j)| + (if e.sock == j then 1 else 0)
  {
    var before, after := Refs(live, made, j), Refs(live + {|made|}, made + [e], j);
    if e.sock == j {
      assert after == before + {|made|};
    } else {
      assert after == before;
    }
  }

  lemma AcceptRefs(s: State)
    requires RefsOk(s)
    ensures RefsOk(s.(socks := s.socks + [AddRef(Sock(0, true, false, 0, 0))]))
  {
    assert Refs(s.live, s.made, |s.socks|) == {};
    hide Refs;
  }

  /** Only one socket changes. */
  lemma OneSock(s: State, k: nat, c: Sock)
    requires RefsOk(s) && k < |s.socks| && SockOk(c, |Refs(s.live, s.made, k)|)
    ensures RefsOk(s.(socks := s.socks[k := c]))
  {
    hide Refs, SockOk;
  }

  lemma HookRefs(s: State, id: Id)
    requires RefsOk(s) && id in s.live && id < |s.made|
    ensures RefsOk(OnSockOf(s, id, (c: Sock) => c.(hook := true)))
  {
    var k := s.made[id].sock;
    assert SockOk(s.socks[k], |Refs(s.live, s.made, k)|);
    assert id in Refs(s.live, s.made, k);
    hide Refs;
    OneSock(s, k, s.socks[k].(hook := true));
  }

  // ----- The length of queues -----

  /** What a step does to module m. */
  function ModNext(s: State, step: Step, m: nat): Module
    requires Enabled(s, step) && m < |s.mods|
  {
    var md := s.mods[m];
    match step
    case Insert =>
      var id := s.held.value;
      if ModOf(s, id) == Some(m) then Queued(md, id, s.made[id].sync) else md
    case Get(k) => if k == m then Fetch(md) else md
    case Handle(k) => if k == m then Handled(md) else md
    case Release(k) => if k == m then md.(worker := Idle) else md
    case Look(k) => if k == m then md.(worker := if md.stop then Stopped else Idle) else md
    case Flag(k) => if k == m then md.(stop := true) else md
    case Drop(k) => if k == m then Dropped(md) else md
    case _ => md
  }

  lemma ModAfter(s: State, step: Step, m: nat)
    requires Enabled(s, step)
    ensures |Next(s, step).mods| == |s.mods|
    ensures m < |s.mods| ==> Next(s, step).mods[m] == ModNext(s, step, m)
  {
    hide Fetch, Handled, Dropped, Queued, RemoveRef, ModOf, Busy100;
  }

  /** What a step does to the entries made so far, and to the one in hand. */
  lemma MadeAfter(s: State, step: Step)
    requires Enabled(s, step)
    ensures var t := Next(s, step);
            if step.Make? then
              && t.made == s.made + [Entry(step.sock, step.mod, step.sync)]
              && t.held == Some(|s.made|) && s.held == None
            else t.made == s.made && t.held == (if step.Insert? || step.Answer? then None else s.held)
  {
    hide RemoveRef, Fetch, Handled, Dropped, Queued;
  }

  /** Requests are refused when the queue is long and its length a multiple of a hundred. */
  const LONGEST: nat := 2097200

  function Coming(s: State, m: nat): nat {
    if s.held.Some? && ModOf(s, s.held.value) == Some(m) then 1 else 0
  }

  predicate Bounded(s: State) {
    forall m :: 0 <= m < |s.mods| ==> |s.mods[m].queue| + Coming(s, m) <= LONGEST
  }

  // ----- Every step, every run -----

  ghost predicate Safe(s: State) {
    Places(s) && LiveOk(s) && RefsOk(s) && Bounded(s)
  }

  lemma StepPlaces(s: State, step: Step)
    requires Places(s) && LiveOk(s) && Enabled(s, step)
    ensures Places(Next(s, step)) && LiveOk(Next(s, step))
  {
    match step {
      case Make(k, mod, sync) => MakePlaces(s, k, mod, sync);
      case Insert => InsertPlaces(s);
      case Answer => AnswerPlaces(s);
      case Accept => hide Places, LiveOk; SameElsewhere(s, Next(s, step));
      case Close(_) => hide Places, LiveOk; SameElsewhere(s, Next(s, step));
      case Hook(_) => hide Places, LiveOk; SameElsewhere(s, Next(s, step));
      case Shutdown =>
        hide ModuleOk, Order, InModule, Fits;
        assert forall id :: Alive(Next(s, step), id) <==> Alive(s, id);
      case _ => WorkerPlaces(s, step);
    }
  }

  lemma IsLive(s: State, id: Id)
    requires LiveOk(s) && Places(s) && Alive(s, id)
    ensures id in s.live && id < |s.made|
  {}

  lemma InModuleIsLive(s: State, m: nat, id: Id)
    requires LiveOk(s) && Places(s) && m < |s.mods| && InModule(s.mods[m], id)
    ensures id in s.live && id < |s.made|
  {
    Belongs(s, m, id);
    IsLive(s, id);
  }

  lemma NotMadeYet(s: State)
    requires LiveOk(s) && Places(s)
    ensures |s.made| !in s.live
  {
    assert !Alive(s, |s.made|);
  }

  lemma StepRefs(s: State, step: Step)
    requires RefsOk(s) && Places(s) && LiveOk(s) && Enabled(s, step)
    ensures RefsOk(Next(s, step))
  {
    match step {
      case Accept => AcceptRefs(s);
      case Make(k, mod, sync) =>
        NotMadeYet(s);
        MakeRefs(s, k, mod, sync);
      case Answer =>
        IsLive(s, s.held.value);
        FreeRefs(s.(held := None), s.held.value);
      case Close(k) =>
        assert SockOk(s.socks[k], |Refs(s.live, s.made, k)|);
        hide RefsOk, Refs, SockOk, RemoveRef;
        RemoveOk(s.socks[k], |Refs(s.live, s.made, k)|);
        OneSock(s, k, RemoveRef(s.socks[k].(open := false)));
      case Hook(m) =>
        InModuleIsLive(s, m, s.mods[m].worker.id);
        HookRefs(s, s.mods[m].worker.id);
      case Release(m) =>
        InModuleIsLive(s, m, s.mods[m].worker.id);
        FreeRefs(OnMod(s, m, s.mods[m].(worker := Idle)), s.mods[m].worker.id);
      case Drop(m) =>
        InModuleIsLive(s, m, s.mods[m].queue[0]);
        FreeRefs(OnMod(s, m, Dropped(s.mods[m])), s.mods[m].queue[0]);
      case _ =>
    }
  }

  lemma StepBounded(s: State, step: Step)
    requires Bounded(s) && Enabled(s, step)
    ensures Bounded(Next(s, step))
  {
    var t := Next(s, step);
    MadeAfter(s, step);
    forall m | 0 <= m < |t.mods| ensures |t.mods[m].queue| + Coming(t, m) <= LONGEST {
      ModAfter(s, step, m);
      hide Next;
      assert |s.mods[m].queue| + Coming(s, m) <= LONGEST;
    }
  }

  lemma StepSafe(s: State, step: Step)
    requires Safe(s) && Enabled(s, step)
    ensures Safe(Next(s, step))
  {
    hide Places, LiveOk, RefsOk, Bounded, Next;
    StepPlaces(s, step);
    StepRefs(s, step);
    StepBounded(s, step);
  }

  lemma InitSafe(n: nat)
    ensures Safe(Init(n))
  {}

  /** Every state of every run is safe. */
  lemma {:induction false} RunSafe(n: nat, steps: seq<Step>, states: seq<State>, k: nat)
    requires IsRun(n, steps, states) && k <= |steps|
    ensures Safe(states[k])
  {
    assert k > 0 ==> Goes(states[k - 1], steps[k - 1], states[k]);
    hide Safe, Next, Enabled, Init, Follow;
    if k == 0 {
      InitSafe(n);
    } else {
      RunSafe(n, steps, states, k - 1);
      StepSafe(states[k - 1], steps[k - 1]);
    }
  }
}
