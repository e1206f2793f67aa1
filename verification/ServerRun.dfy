/**
 * The running server as a system of atomic steps: the main thread accepts connections,
 * makes and queues requests and closes; each module has a queue and a worker.
 */
module ServerRun {
  import opened Bytes

  // ----- Sockets -----

  /** `open`: the connection still holds its reference. `freed` and `hooks` count what has happened to the socket. */
  datatype Sock = Sock(refcount: int, open: bool, hook: bool, freed: nat, hooks: nat)

  /** `tcp_socket_add_ref`. */
  function AddRef(s: Sock): Sock {
    s.(refcount := s.refcount + 1)
  }

  /** `tcp_socket_free`. */
  function Free(s: Sock): Sock {
    s.(hook := false, freed := s.freed + 1, hooks := if s.hook then s.hooks + 1 else s.hooks)
  }

  /** `tcp_socket_remove_ref`. */
  function RemoveRef(s: Sock): Sock {
    if s.refcount <= 0 then s
    else
      var t := s.(refcount := s.refcount - 1);
      if t.refcount == 0 then Free(t) else t
  }

  // ----- Requests, modules, states -----

  type Id = nat

  /** The module is missing for the names that the server answers itself. */
  datatype Entry = Entry(sock: nat, mod: Option<nat>, sync: bool)

  datatype Worker =
    | Idle
    | FoundEmpty
    | Busy(id: Id, handled: bool)
    | Stopped

  /** `processed` and `dropped` list the entries handed to the driver, and those freed by `queue_free`. */
  datatype Module = Module(queue: seq<Id>, worker: Worker, stop: bool, processed: seq<Id>, dropped: seq<Id>)

  /** `made` lists all entries ever made; `held` is the one the main thread is about to queue. */
  datatype State = State(
    socks: seq<Sock>,
    made: seq<Entry>,
    live: set<Id>,
    held: Option<Id>,
    mods: seq<Module>,
    serving: bool)

  function Init(n: nat): State {
    State([], [], {}, None, seq(n, _ => Module([], Idle, false, [], [])), true)
  }

  const MAX_QUEUE_ENTRY: nat := 2097152

  /** `put_in_queue_long` turns requests away only at every hundredth length. */
  predicate Busy100(size: nat) {
    size > MAX_QUEUE_ENTRY && size % 100 == 0
  }

  // ----- Steps -----

  datatype Step =
    | Accept
    | Make(sock: nat, mod: Option<nat>, sync: bool)
    | Insert
    | Answer
    | Close(sock: nat)
    | Hook(m: nat)
    | Get(m: nat)
    | Handle(m: nat)
    | Release(m: nat)
    | Look(m: nat)
    | Shutdown
    | Flag(m: nat)
    | Drop(m: nat)

  /** The module whose queue an entry is for. */
  function ModOf(s: State, id: Id): (r: Option<nat>)
    ensures r.Some? ==> r.value < |s.mods| && id < |s.made| && s.made[id].mod == r
  {
    if id < |s.made| && s.made[id].mod.Some? && s.made[id].mod.value < |s.mods| then s.made[id].mod else None
  }

  /** When the thread that takes a step has come to it. */
  predicate Enabled(s: State, step: Step) {
    match step
    case Accept => s.serving && s.held.None?
    case Make(k, mod, _) =>
      && s.serving && s.held.None? && k < |s.socks| && s.socks[k].open
      && (mod.Some? ==> mod.value < |s.mods| && !Busy100(|s.mods[mod.value].queue|))
    case Insert => s.held.Some? && ModOf(s, s.held.value).Some?
    case Answer => s.held.Some? && ModOf(s, s.held.value).None?
    case Close(k) => s.serving && s.held.None? && k < |s.socks| && s.socks[k].open
    case Shutdown => s.serving && s.held.None?
    case Flag(m) => m < |s.mods| && !s.serving
    case Hook(m) => m < |s.mods| && s.mods[m].worker.Busy? && !s.mods[m].worker.handled
    case Get(m) => m < |s.mods| && s.mods[m].worker.Idle?
    case Handle(m) => m < |s.mods| && s.mods[m].worker.Busy? && !s.mods[m].worker.handled
    case Release(m) => m < |s.mods| && s.mods[m].worker.Busy? && s.mods[m].worker.handled
    case Look(m) => m < |s.mods| && s.mods[m].worker.FoundEmpty?
    case Drop(m) => m < |s.mods| && s.mods[m].worker.Stopped? && s.mods[m].queue != []
  }

  function OnSock(s: State, k: nat, f: Sock -> Sock): State {
    if k < |s.socks| then s.(socks := s.socks[k := f(s.socks[k])]) else s
  }

  /** What happens to the socket of an entry. */
  function OnSockOf(s: State, id: Id, f: Sock -> Sock): State {
    if id < |s.made| then OnSock(s, s.made[id].sock, f) else s
  }

  /** `queue_entry_free`. */
  function FreeEntry(s: State, id: Id): State {
    OnSockOf(s.(live := s.live - {id}), id, RemoveRef)
  }

  /** Synchronous requests go to the end where entries leave, the others to the other end. */
  function Enqueue(q: seq<Id>, id: Id, sync: bool): seq<Id> {
    if sync then [id] + q else q + [id]
  }

  function OnMod(s: State, m: nat, md: Module): State
    requires m < |s.mods|
  {
    s.(mods := s.mods[m := md])
  }

  /** One round of `moc_start_base_entry` at the queue. */
  function Fetch(md: Module): Module {
    if md.queue == [] then md.(worker := FoundEmpty)
    else md.(queue := md.queue[1..], worker := Busy(md.queue[0], false))
  }

  /** An entry is handed to the driver. */
  function Handled(md: Module): Module
    requires md.worker.Busy?
  {
    md.(worker := Busy(md.worker.id, true), processed := md.processed + [md.worker.id])
  }

  /** An entry is freed unprocessed. */
  function Dropped(md: Module): Module
    requires md.queue != []
  {
    md.(queue := md.queue[1..], dropped := md.dropped + [md.queue[0]])
  }

  function Queued(md: Module, id: Id, sync: bool): Module {
    md.(queue := Enqueue(md.queue, id, sync))
  }

  function Next(s: State, step: Step): State
    requires Enabled(s, step)
  {
    match step
    case Accept => s.(socks := s.socks + [AddRef(Sock(0, true, false, 0, 0))])
    case Make(k, mod, sync) =>
      OnSock(s.(made := s.made + [Entry(k, mod, sync)], live := s.live + {|s.made|}, held := Some(|s.made|)), k, AddRef)
    case Insert =>
      var id := s.held.value;
      var m := ModOf(s, id).value;
      OnMod(s.(held := None), m, Queued(s.mods[m], id, s.made[id].sync))
    case Answer => FreeEntry(s.(held := None), s.held.value)
    case Close(k) => OnSock(s, k, (c: Sock) => RemoveRef(c.(open := false)))
    case Hook(m) => OnSockOf(s, s.mods[m].worker.id, (c: Sock) => c.(hook := true))
    case Get(m) => OnMod(s, m, Fetch(s.mods[m]))
    case Handle(m) => OnMod(s, m, Handled(s.mods[m]))
    case Release(m) => FreeEntry(OnMod(s, m, s.mods[m].(worker := Idle)), s.mods[m].worker.id)
    case Look(m) => OnMod(s, m, s.mods[m].(worker := if s.mods[m].stop then Stopped else Idle))
    case Shutdown => s.(serving := false)
    case Flag(m) => OnMod(s, m, s.mods[m].(stop := true))
    case Drop(m) => FreeEntry(OnMod(s, m, Dropped(s.mods[m])), s.mods[m].queue[0])
  }

  predicate Goes(s: State, step: Step, t: State) {
    Enabled(s, step) && t == Next(s, step)
  }

  /** A run of a server with n modules: its steps, and the states before, between and after them. */
  predicate IsRun(n: nat, steps: seq<Step>, states: seq<State>) {
    |states| == |steps| + 1 && states[0] == Init(n) && Follow(steps, states)
  }

  predicate Follow(steps: seq<Step>, states: seq<State>)
    requires |states| == |steps| + 1
  {
    forall k :: 0 <= k < |steps| ==> Goes(states[k], steps[k], states[k + 1])
  }
}
