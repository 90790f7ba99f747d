/** The scratch-growth protocol of one compute queue (lib/queue.cpp).

    Three actors share a handful of words: host threads that dispatch kernels under the submit mutex, the
    command processor (CP) that executes ring packets in order, and the watcher thread that reallocates
    scratch. Every load and store of a shared word is one step, so a run is any interleaving of them. End-of-pipe
    writes land in ring order, on which progress rests: a handler woken by an event ahead of the counter it announces
    would go back to sleep with no event left to wake it. */
module ScratchMachine {
  import opened Util

  /** A scratch allocation. `gen` tells two allocations at one address apart. */
  datatype Region = Region(gen: nat, va: nat, tmpring: nat, perThread: nat)

  /** The packets of a dispatch that touch the protocol. */
  datatype Packet =
    | SetScratch(va: nat, tmpring: nat)
    | ReleaseReady(value: nat)
    | ReleaseEvent
    | WaitDone(value: nat)
    | IndirectBuffer
    | DispatchDirect(need: nat)

  /** One submitted dispatch: what the host read before encoding it. `seqNo` is its `current_seq`. */
  datatype Job = Job(need: nat, va: nat, tmpring: nat, seqNo: nat, resize: bool, stall: bool)

  /** The packet sequence a dispatch encodes, in ring order. */
  function Packets(j: Job): seq<Packet> {
    if !j.stall then
      [SetScratch(j.va, j.tmpring), DispatchDirect(j.need)]
    else if !j.resize then
      [SetScratch(j.va, j.tmpring), WaitDone(j.seqNo), IndirectBuffer, DispatchDirect(j.need)]
    else
      [SetScratch(j.va, j.tmpring), ReleaseReady(j.seqNo), ReleaseEvent, WaitDone(j.seqNo), IndirectBuffer,
       DispatchDirect(j.need)]
  }

  /** A launched kernel: the registers it was launched with and, as history, the region live at that moment. */
  datatype Kernel = Kernel(id: nat, need: nat, va: nat, tmpring: nat, region: Option<Region>)

  /** An end-of-pipe write in flight: it lands once every kernel with an id below `before` has retired. */
  datatype Eop = Ready(value: nat, before: nat) | Event(before: nat)

  /** Where the thread holding the submit mutex is inside a dispatch. */
  datatype Host =
    | Idle
    | Begun(need: nat)
    | NeedsResize(need: nat)
    | Decided(need: nat, resize: bool)
    | Checked(need: nat, resize: bool, stall: bool)
    | HaveVa(need: nat, resize: bool, stall: bool, va: nat)
    | HaveTmpring(need: nat, resize: bool, stall: bool, va: nat, tmpring: nat)

  /** Where the watcher thread is inside a call of the scratch handler; from Popped on it holds a request. */
  datatype Handler =
    | Asleep
    | Woken
    | GotReady(ready: nat)
    | GotBoth(ready: nat, done: nat)
    | Popped(req: nat)
    | Releasing(req: nat)
    | ClearVa(req: nat)
    | ClearTmpring(req: nat)
    | ClearPerThread(req: nat)
    | Allocating(req: nat)
    | PublishVa(req: nat, region: Region)
    | PublishTmpring(req: nat, region: Region)
    | PublishPerThread(req: nat, region: Region)
    | FillBase(req: nat)
    | FillRest(req: nat)
    | MarkError(req: nat)
    | Finishing(req: nat)
  {
    predicate Holding() {
      !Asleep? && !Woken? && !GotReady? && !GotBoth?
    }
  }

  /** The indirect buffer: either one big NOP or the two register values it will write. */
  datatype Ib = Ib(nop: bool, va: nat, tmpring: nat)

  /** The words of the scratch context that only the handler writes, and the allocation behind them. */
  datatype Mem = Mem(va: nat, tmpring: nat, perThread: nat, error: bool, ib: Ib, live: Option<Region>, gens: nat)

  /** The request queue and the three counters. `pushed` and `served` are history: every request ever made
      and ever answered. */
  datatype Book = Book(seqNo: nat, ready: nat, done: nat, requests: seq<nat>, pushed: seq<nat>, served: seq<nat>)

  /** The command processor: unfinished jobs, the next packet of the first one, its two registers, kernels in
      flight, end-of-pipe writes in flight, and (history) the number of the last finished job. */
  datatype Gpu = Gpu(ring: seq<Job>, ip: nat, regVa: nat, regTmpring: nat,
                     inflight: set<Kernel>, launched: nat, eops: seq<Eop>, finished: nat)

  /** `lost` is history: a resize request was queued whose packets never reached the ring. */
  datatype State = State(mem: Mem, book: Book, gpu: Gpu, host: Host, handler: Handler, eventPending: bool,
                         lost: bool)

  function Init(): State {
    State(Mem(0, 0, 0, false, Ib(false, 0, 0), None, 0), Book(0, 0, 0, [], [], []),
          Gpu([], 0, 0, 0, {}, 0, [], 0), Idle, Asleep, false, false)
  }

  datatype Action =
    // the dispatching host thread
    | Begin(need: nat) | Compare | Reject | Push | ReadDone | ReadVa | ReadTmpring | Submit | SubmitFails
    // the GPU
    | Fetch | Land | Retire(kernel: Kernel)
    // the watcher thread
    | Wake | SpuriousWake | Handle | AllocOk(va: nat, tmpring: nat) | AllocFails

  /** The CP is stopped at a WAIT_REG_MEM whose condition does not hold yet. */
  predicate Stalled(g: Gpu, done: nat) {
    g.ring != [] && g.ip < |Packets(g.ring[0])| &&
    var p := Packets(g.ring[0])[g.ip]; p.WaitDone? && done < p.value
  }

  predicate Enabled(s: State, a: Action) {
    match a
    case Begin(_) => s.host.Idle? && !s.mem.error
    case Compare => s.host.Begun?
    case Reject => s.host.NeedsResize?
    case Push => s.host.NeedsResize?
    case ReadDone => s.host.Decided?
    case ReadVa => s.host.Checked?
    case ReadTmpring => s.host.HaveVa?
    case Submit => s.host.HaveTmpring?
    case SubmitFails => s.host.HaveTmpring?
    case Fetch => s.gpu.ring != [] && s.gpu.ip < |Packets(s.gpu.ring[0])| && !Stalled(s.gpu, s.book.done)
    case Land => s.gpu.eops != [] && forall k :: k in s.gpu.inflight ==> s.gpu.eops[0].before <= k.id
    case Retire(k) => k in s.gpu.inflight
    case Wake => s.handler.Asleep? && s.eventPending
    case SpuriousWake => s.handler.Asleep?
    case Handle => !s.handler.Asleep? && !s.handler.Allocating?
    case AllocOk(va, _) => s.handler.Allocating? && va != 0
    case AllocFails => s.handler.Allocating?
  }

  function Apply(s: State, a: Action): State
    requires Enabled(s, a)
  {
    match a
    case Begin(need) => s.(host := Begun(need))
    case Compare =>
      s.(host := if s.host.need > s.mem.perThread then NeedsResize(s.host.need) else Decided(s.host.need, false))
    case Reject => s.(host := Idle)
    case Push =>
      s.(host := Decided(s.host.need, true),
         book := s.book.(requests := s.book.requests + [s.host.need], seqNo := s.book.seqNo + 1,
                         pushed := s.book.pushed + [s.host.need]))
    case ReadDone =>
      s.(host := Checked(s.host.need, s.host.resize, s.host.need > 0 && s.book.seqNo > s.book.done))
    case ReadVa => s.(host := HaveVa(s.host.need, s.host.resize, s.host.stall, s.mem.va))
    case ReadTmpring =>
      s.(host := HaveTmpring(s.host.need, s.host.resize, s.host.stall, s.host.va, s.mem.tmpring))
    case Submit =>
      var j := Job(s.host.need, s.host.va, s.host.tmpring, s.book.seqNo, s.host.resize, s.host.stall);
      s.(host := Idle, gpu := s.gpu.(ring := s.gpu.ring + [j]))
    case SubmitFails => s.(host := Idle, lost := s.lost || s.host.resize)
    case Fetch => s.(gpu := FetchPacket(s.gpu, s.mem, Packets(s.gpu.ring[0])[s.gpu.ip]))
    case Land =>
      var t := s.(gpu := s.gpu.(eops := s.gpu.eops[1..]));
      (match s.gpu.eops[0]
       case Ready(value, _) => t.(book := s.book.(ready := value))
       case Event(_) => t.(eventPending := true))
    case Retire(k) => s.(gpu := s.gpu.(inflight := s.gpu.inflight - {k}))
    case Wake => s.(handler := Woken, eventPending := false)
    case SpuriousWake => s.(handler := Woken)
    case Handle =>
      if s.handler.Holding() && !s.handler.Finishing? then
        var (m, h) := Rebuild(s.mem, s.handler); s.(mem := m, handler := h)
      else
        var (b, h) := Answer(s.book, s.handler); s.(book := b, handler := h)
    case AllocOk(va, tmpring) =>
      var r := Region(s.mem.gens, va, tmpring, s.handler.req);
      s.(mem := s.mem.(live := Some(r), gens := s.mem.gens + 1), handler := PublishVa(s.handler.req, r))
    case AllocFails => s.(mem := s.mem.(ib := s.mem.ib.(nop := true)), handler := MarkError(s.handler.req))
  }

  function FetchPacket(g: Gpu, m: Mem, p: Packet): Gpu
    requires g.ring != []
  {
    match p
    case SetScratch(va, tmpring) => g.(ip := g.ip + 1, regVa := va, regTmpring := tmpring)
    case ReleaseReady(value) => g.(ip := g.ip + 1, eops := g.eops + [Ready(value, g.launched)])
    case ReleaseEvent => g.(ip := g.ip + 1, eops := g.eops + [Event(g.launched)])
    case WaitDone(_) => g.(ip := g.ip + 1)
    case IndirectBuffer =>
      if m.ib.nop then g.(ip := g.ip + 1) else g.(ip := g.ip + 1, regVa := m.ib.va, regTmpring := m.ib.tmpring)
    case DispatchDirect(need) =>
      g.(ring := g.ring[1..], ip := 0, finished := g.ring[0].seqNo, launched := g.launched + 1,
         inflight := g.inflight + {Kernel(g.launched, need, g.regVa, g.regTmpring, m.live)})
  }

  /** The handler's steps on the counters and the queue: entry, the sequence check, and the final store. */
  function Answer(b: Book, h: Handler): (Book, Handler)
    requires !h.Asleep? && (!h.Holding() || h.Finishing?)
  {
    match h
    case Woken => (b, GotReady(b.ready))
    case GotReady(r) => (b, GotBoth(r, b.done))
    case GotBoth(r, d) =>
      if d + 1 > r || b.requests == [] then (b, Asleep)
      else (b.(requests := b.requests[1..]), Popped(b.requests[0]))
    case Finishing(req) => (b.(done := b.done + 1, served := b.served + [req]), Asleep)
  }

  /** The handler's steps on the region words and the indirect buffer. */
  function Rebuild(m: Mem, h: Handler): (Mem, Handler)
    requires h.Holding() && !h.Finishing? && !h.Allocating?
  {
    match h
    case Popped(req) =>
      (m, if req <= m.perThread then FillBase(req) else if m.va != 0 then Releasing(req) else Allocating(req))
    case Releasing(req) => (m.(live := None), ClearVa(req))
    case ClearVa(req) => (m.(va := 0), ClearTmpring(req))
    case ClearTmpring(req) => (m.(tmpring := 0), ClearPerThread(req))
    case ClearPerThread(req) => (m.(perThread := 0), Allocating(req))
    case PublishVa(req, r) => (m.(va := r.va), PublishTmpring(req, r))
    case PublishTmpring(req, r) => (m.(tmpring := r.tmpring), PublishPerThread(req, r))
    case PublishPerThread(req, r) => (m.(perThread := req), FillBase(req))
    case FillBase(req) => (m.(ib := Ib(false, m.va, m.ib.tmpring)), FillRest(req))
    case FillRest(req) => (m.(ib := m.ib.(tmpring := m.tmpring)), Finishing(req))
    case MarkError(req) => (m.(error := true), Finishing(req))
  }

  // ----- runs -----

  ghost predicate Runs(s: State, actions: seq<Action>, t: State)
    decreases |actions|
  {
    if actions == [] then s == t
    else Enabled(s, actions[0]) && Runs(Apply(s, actions[0]), actions[1..], t)
  }

  ghost predicate Reachable(t: State) {
    exists actions :: Runs(Init(), actions, t)
  }

  lemma {:induction false} RunSnoc(s: State, actions: seq<Action>, t: State, a: Action)
    requires Runs(s, actions, t) && Enabled(t, a)
    ensures Runs(s, actions + [a], Apply(t, a))
    decreases |actions|
  {
    hide Apply, Enabled;
    if actions == [] {
      assert [a][1..] == [];
    } else {
      RunSnoc(Apply(s, actions[0]), actions[1..], t, a);
      assert (actions + [a])[1..] == actions[1..] + [a];
    }
  }

  lemma ReachMore(s: State, a: Action)
    requires Reachable(s) && Enabled(s, a)
    ensures Reachable(Apply(s, a))
  {
    var actions :| Runs(Init(), actions, s);
    RunSnoc(Init(), actions, s, a);
  }

  lemma {:induction false} ReachRun(s: State, actions: seq<Action>, t: State)
    requires Reachable(s) && Runs(s, actions, t)
    ensures Reachable(t)
    decreases |actions|
  {
    hide Reachable, Apply, Enabled;
    if actions != [] {
      ReachMore(s, actions[0]);
      ReachRun(Apply(s, actions[0]), actions[1..], t);
    }
  }
}
