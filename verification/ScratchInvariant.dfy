/** The inductive invariant of the scratch-growth machine, and that every step keeps it. */
module ScratchInvariant {
  import opened Util
  import opened ScratchMachine

  /** Requests are neither lost, reordered nor answered twice. */
  ghost predicate Accounting(b: Book, h: Handler) {
    && |b.pushed| == b.seqNo && |b.served| == b.done
    && b.pushed == b.served + (if h.Holding() then [h.req] else []) + b.requests
    && b.done <= b.ready <= b.seqNo
    && (h.GotReady? ==> h.ready <= b.ready)
    && (h.GotBoth? ==> h.ready <= b.ready && h.done == b.done)
    && (h.Holding() ==> b.done < b.ready)
  }

  ghost predicate JobFits(b: Book, j: Job) {
    && j.seqNo <= b.seqNo
    && (j.resize ==> j.stall && 0 < j.seqNo <= |b.pushed| && b.pushed[j.seqNo - 1] == j.need)
    && (j.stall ==> j.need > 0 && j.seqNo > 0)
    && (j.need > 0 && !j.stall ==> j.seqNo <= b.done)
  }

  /** Jobs sit in the ring in sequence order, a resizing job strictly after everything before it. */
  ghost predicate RingOrder(g: Gpu, b: Book) {
    && (if g.ring == [] then g.ip == 0 else g.ip < |Packets(g.ring[0])|)
    && (forall i :: 0 <= i < |g.ring| ==> JobFits(b, g.ring[i]))
    && (forall i, j :: 0 <= i < j < |g.ring| ==>
          g.ring[i].seqNo <= g.ring[j].seqNo && (g.ring[j].resize ==> g.ring[i].seqNo < g.ring[j].seqNo))
    && (forall i :: 0 <= i < |g.ring| && g.ring[i].resize && (i == 0 ==> g.ip < 2) ==> b.ready < g.ring[i].seqNo)
  }

  /** The host thread has queued a request that is not in the ring yet. */
  predicate HostResizing(h: Host) {
    (h.Decided? || h.Checked? || h.HaveVa? || h.HaveTmpring?) && h.resize
  }

  /** The CP has passed the first RELEASE_MEM of a resizing job and not yet its WAIT_REG_MEM. */
  predicate AtWait(g: Gpu) {
    g.ring != [] && g.ring[0].resize && 2 <= g.ip <= 3
  }

  predicate HasReady(eops: seq<Eop>) {
    exists i :: 0 <= i < |eops| && eops[i].Ready?
  }

  /** End-of-pipe order and the stall together: while a request is open the CP stands at that job's wait
      and nothing runs. */
  ghost predicate Pipeline(g: Gpu, b: Book) {
    && (forall k :: k in g.inflight ==> k.id < g.launched)
    && (forall i :: 0 <= i < |g.eops| ==> g.eops[i].before <= g.launched)
    && (forall i :: 0 <= i < |g.eops| && g.eops[i].Ready? ==>
          && AtWait(g) && g.eops[i].value == g.ring[0].seqNo
          && g.eops[i].before == g.launched && b.ready < g.eops[i].value)
    && (forall i, j :: 0 <= i < j < |g.eops| && g.eops[i].Ready? ==> !g.eops[j].Ready?)
    && (b.done < b.ready ==> AtWait(g) && g.ring[0].seqNo == b.ready && g.inflight == {} && !HasReady(g.eops))
    && (AtWait(g) && b.done < g.ring[0].seqNo ==> b.ready == g.ring[0].seqNo || HasReady(g.eops))
    && (g.ring != [] && g.ring[0].stall && g.ip >= (if g.ring[0].resize then 4 else 2) ==> g.ring[0].seqNo <= b.done)
  }

  ghost predicate WordsAgree(m: Mem) {
    match m.live
    case None => m.va == 0 && m.tmpring == 0 && m.perThread == 0
    case Some(r) => m.va == r.va && m.tmpring == r.tmpring && m.perThread == r.perThread && r.va != 0
  }

  /** The indirect buffer says what the words say, or is a NOP because there is no region. */
  ghost predicate IbAgrees(m: Mem) {
    if m.ib.nop then m.perThread == 0 && m.error else m.ib.va == m.va && m.ib.tmpring == m.tmpring
  }

  /** What the handler's program counter says about the words. */
  ghost predicate Words(m: Mem, h: Handler, done: nat) {
    match h
    case Popped(_) => WordsAgree(m)
    case Releasing(req) => WordsAgree(m) && req > m.perThread
    case ClearVa(req) => m.live.None? && req > m.perThread
    case ClearTmpring(req) => m.live.None? && req > m.perThread && m.va == 0
    case ClearPerThread(req) => m.live.None? && req > m.perThread && m.va == 0 && m.tmpring == 0
    case Allocating(req) => m.live.None? && WordsAgree(m) && req > 0
    case PublishVa(req, r) => Publishing(m, req, r)
    case PublishTmpring(req, r) => Publishing(m, req, r) && m.va == r.va
    case PublishPerThread(req, r) => Publishing(m, req, r) && m.va == r.va && m.tmpring == r.tmpring
    case FillBase(req) => WordsAgree(m) && req <= m.perThread
    case FillRest(req) => WordsAgree(m) && req <= m.perThread && !m.ib.nop && m.ib.va == m.va
    case MarkError(req) => m.live.None? && WordsAgree(m) && m.ib.nop
    case Finishing(req) => WordsAgree(m) && IbAgrees(m) && (!m.error ==> req <= m.perThread)
    case _ => WordsAgree(m) && (done > 0 ==> IbAgrees(m))
  }

  ghost predicate Publishing(m: Mem, req: nat, r: Region) {
    m.live == Some(r) && r.perThread == req && r.va != 0 && m.perThread == 0
  }

  /** The per-thread size already promised: what the words say, or what the handler is working on. */
  function Promised(m: Mem, h: Handler): nat {
    if h.Holding() && h.req > m.perThread then h.req else m.perThread
  }

  /** What the host thread has concluded so far. */
  ghost predicate HostView(host: Host, m: Mem, h: Handler, pushed: seq<nat>, done: nat) {
    match host
    case Idle => true
    case Begun(_) => true
    case NeedsResize(need) => need > 0
    case Decided(need, resize) => HostNeed(m, h, pushed, need, resize)
    case Checked(need, resize, stall) =>
      HostNeed(m, h, pushed, need, resize) && HostStall(|pushed|, done, need, resize, stall)
    case HaveVa(need, resize, stall, va) =>
      HostNeed(m, h, pushed, need, resize) && HostStall(|pushed|, done, need, resize, stall) &&
      (need > 0 && !stall ==> va == m.va)
    case HaveTmpring(need, resize, stall, va, tmpring) =>
      HostNeed(m, h, pushed, need, resize) && HostStall(|pushed|, done, need, resize, stall) &&
      (need > 0 && !stall ==> va == m.va && tmpring == m.tmpring)
  }

  ghost predicate HostNeed(m: Mem, h: Handler, pushed: seq<nat>, need: nat, resize: bool) {
    if resize then need > 0 && pushed != [] && pushed[|pushed| - 1] == need
    else !m.error ==> need <= Promised(m, h)
  }

  ghost predicate HostStall(seqNo: nat, done: nat, need: nat, resize: bool, stall: bool) {
    && (stall ==> need > 0 && seqNo > 0)
    && (resize ==> stall)
    && (need > 0 && !stall ==> done == seqNo)
  }

  /** A queued request is newer than everything in the ring. */
  ghost predicate HostOrder(host: Host, g: Gpu, b: Book) {
    HostResizing(host) ==>
      b.ready < b.seqNo && forall i :: 0 <= i < |g.ring| ==> g.ring[i].seqNo < b.seqNo
  }

  /** Every answered request, and every queued job, is covered by what is promised. */
  ghost predicate Coverage(ring: seq<Job>, m: Mem, h: Handler, served: seq<nat>) {
    && (!m.error ==> forall i :: 0 <= i < |served| ==> served[i] <= Promised(m, h))
    && (!m.error ==> forall i :: 0 <= i < |ring| && !ring[i].resize ==> ring[i].need <= Promised(m, h))
    && (forall i :: 0 <= i < |ring| && ring[i].need > 0 && !ring[i].stall ==>
          ring[i].va == m.va && ring[i].tmpring == m.tmpring)
  }

  /** The registers just before a launch. */
  ghost predicate Registers(g: Gpu, m: Mem) {
    g.ring != [] ==>
      && (g.ip >= 1 && !g.ring[0].stall ==> g.regVa == g.ring[0].va && g.regTmpring == g.ring[0].tmpring)
      && (g.ring[0].stall && g.ip == |Packets(g.ring[0])| - 1 && m.perThread > 0 ==>
            g.regVa == m.va && g.regTmpring == m.tmpring)
  }

  /** A kernel in flight: the region live at launch is still the live one, and it is the right one exactly
      when it is big enough. */
  ghost predicate KernelFits(m: Mem, k: Kernel) {
    && k.region == m.live
    && (k.need > 0 && m.live.Some? && m.live.value.perThread >= k.need ==>
          k.va == m.live.value.va && k.tmpring == m.live.value.tmpring)
    && (k.need > 0 && !m.error ==> m.live.Some? && m.live.value.perThread >= k.need)
  }

  ghost predicate Kernels(inflight: set<Kernel>, m: Mem) {
    forall k :: k in inflight ==> KernelFits(m, k)
  }

  ghost predicate Inv(s: State) {
    && Accounting(s.book, s.handler)
    && RingOrder(s.gpu, s.book)
    && Pipeline(s.gpu, s.book)
    && Words(s.mem, s.handler, s.book.done)
    && HostView(s.host, s.mem, s.handler, s.book.pushed, s.book.done)
    && HostOrder(s.host, s.gpu, s.book)
    && Coverage(s.gpu.ring, s.mem, s.handler, s.book.served)
    && Registers(s.gpu, s.mem)
    && Kernels(s.gpu.inflight, s.mem)
  }

  // ----- consequences of the invariant used by the step lemmas -----

  /** While a request is open the CP is at that job's wait, nothing runs, and every job in the ring is at
      least that new, so none of them relies on the words of today. */
  lemma OpenRequest(g: Gpu, b: Book)
    requires RingOrder(g, b) && Pipeline(g, b) && b.done < b.ready
    ensures AtWait(g) && g.inflight == {} && !HasReady(g.eops)
    ensures forall i :: 0 <= i < |g.ring| ==> g.ring[i].stall || g.ring[i].need == 0
  {
    forall i | 0 <= i < |g.ring| ensures g.ring[i].stall || g.ring[i].need == 0 {
      assert g.ring[0].seqNo <= g.ring[i].seqNo;
      assert JobFits(b, g.ring[i]);
    }
  }

  /** Away from the wait no request is open and no write of `scratch_ready` is in flight. */
  lemma NoOpenRequest(g: Gpu, b: Book)
    requires Pipeline(g, b) && b.done <= b.ready && !AtWait(g)
    ensures b.done == b.ready && !HasReady(g.eops)
  {
  }

  /** What is promised never shrinks, unless an error is reported. */
  lemma PromiseCarries(host: Host, ring: seq<Job>, m: Mem, h: Handler, m': Mem, h': Handler, b: Book)
    requires HostView(host, m, h, b.pushed, b.done) && Coverage(ring, m, h, b.served)
    requires !m'.error ==> !m.error && Promised(m, h) <= Promised(m', h')
    requires (m'.va == m.va && m'.tmpring == m.tmpring) ||
             (b.done < |b.pushed| && forall i :: 0 <= i < |ring| ==> ring[i].stall || ring[i].need == 0)
    ensures HostView(host, m', h', b.pushed, b.done) && Coverage(ring, m', h', b.served)
  {
  }

  // ----- the dispatching host thread -----

  lemma HostStepKeepsView(s: State, a: Action)
    requires Accounting(s.book, s.handler) && HostView(s.host, s.mem, s.handler, s.book.pushed, s.book.done)
    requires HostOrder(s.host, s.gpu, s.book) && Enabled(s, a)
    requires a.Begin? || a.Compare? || a.Reject? || a.ReadDone? || a.ReadVa? || a.ReadTmpring? || a.SubmitFails?
    ensures var t := Apply(s, a);
            HostView(t.host, s.mem, s.handler, s.book.pushed, s.book.done) && HostOrder(t.host, s.gpu, s.book)
  {
  }

  lemma HostStepKeepsInv(s: State, a: Action)
    requires Inv(s) && Enabled(s, a)
    requires a.Begin? || a.Compare? || a.Reject? || a.ReadDone? || a.ReadVa? || a.ReadTmpring? || a.SubmitFails?
    ensures Inv(Apply(s, a))
  {
    hide Accounting, RingOrder, Pipeline, Words, HostView, HostOrder, Coverage, Registers, Kernels;
    HostStepKeepsView(s, a);
  }

  lemma PushKeepsBook(g: Gpu, b: Book, b': Book, h: Handler, need: nat)
    requires Accounting(b, h) && RingOrder(g, b) && Pipeline(g, b)
    requires b' == b.(requests := b.requests + [need], seqNo := b.seqNo + 1, pushed := b.pushed + [need])
    ensures Accounting(b', h) && RingOrder(g, b') && Pipeline(g, b') && HostOrder(Decided(need, true), g, b')
  {
    assert b'.pushed[..|b.pushed|] == b.pushed;
    forall i | 0 <= i < |g.ring| ensures JobFits(b', g.ring[i]) && g.ring[i].seqNo < b'.seqNo {
      assert JobFits(b, g.ring[i]);
    }
  }

  lemma PushKeepsInv(s: State)
    requires Inv(s) && Enabled(s, Push)
    ensures Inv(Apply(s, Push))
  {
    hide Accounting, RingOrder, Pipeline, Words, HostOrder, Coverage, Registers, Kernels;
    PushKeepsBook(s.gpu, s.book, Apply(s, Push).book, s.handler, s.host.need);
  }

  /** What a fully read dispatch knows about the job it is about to submit. */
  lemma NewJobFits(s: State, j: Job)
    requires s.host.HaveTmpring? && Accounting(s.book, s.handler) && RingOrder(s.gpu, s.book)
    requires HostView(s.host, s.mem, s.handler, s.book.pushed, s.book.done) && HostOrder(s.host, s.gpu, s.book)
    requires j == Job(s.host.need, s.host.va, s.host.tmpring, s.book.seqNo, s.host.resize, s.host.stall)
    ensures JobFits(s.book, j)
    ensures forall i :: 0 <= i < |s.gpu.ring| ==> s.gpu.ring[i].seqNo <= j.seqNo
    ensures j.resize ==> s.book.ready < j.seqNo && forall i :: 0 <= i < |s.gpu.ring| ==> s.gpu.ring[i].seqNo < j.seqNo
  {
    forall i | 0 <= i < |s.gpu.ring| ensures s.gpu.ring[i].seqNo <= j.seqNo {
      assert JobFits(s.book, s.gpu.ring[i]);
    }
  }

  lemma AppendKeepsRing(g: Gpu, b: Book, m: Mem, j: Job)
    requires RingOrder(g, b) && Pipeline(g, b) && Registers(g, m) && JobFits(b, j)
    requires forall i :: 0 <= i < |g.ring| ==> g.ring[i].seqNo <= j.seqNo
    requires j.resize ==> b.ready < j.seqNo && forall i :: 0 <= i < |g.ring| ==> g.ring[i].seqNo < j.seqNo
    ensures var g' := g.(ring := g.ring + [j]); RingOrder(g', b) && Pipeline(g', b) && Registers(g', m)
  {
    var g' := g.(ring := g.ring + [j]);
    assert forall i :: 0 <= i < |g.ring| ==> g'.ring[i] == g.ring[i];
  }

  lemma SubmitKeepsInv(s: State)
    requires Inv(s) && Enabled(s, Submit)
    ensures Inv(Apply(s, Submit))
  {
    hide Accounting, RingOrder, Pipeline, Words, Registers, Kernels, JobFits;
    var h := s.host;
    var j := Job(h.need, h.va, h.tmpring, s.book.seqNo, h.resize, h.stall);
    NewJobFits(s, j);
    AppendKeepsRing(s.gpu, s.book, s.mem, j);
  }

  // ----- end-of-pipe writes and retirement -----

  lemma RetireKeepsInv(s: State, k: Kernel)
    requires Inv(s) && Enabled(s, Retire(k))
    ensures Inv(Apply(s, Retire(k)))
  {
    hide Accounting, RingOrder, Words, HostView, HostOrder, Coverage, Registers;
    var g, g' := s.gpu, Apply(s, Retire(k)).gpu;
    assert RingOrder(g', s.book) by { RingOrderFrame(g, g', s.book); }
    assert HostOrder(s.host, g', s.book) by { HostOrderFrame(s.host, g, g', s.book); }
    assert Registers(g', s.mem) by { RegistersFrame(g, g', s.mem); }
  }

  lemma RingOrderFrame(g: Gpu, g': Gpu, b: Book)
    requires RingOrder(g, b) && g'.ring == g.ring && g'.ip == g.ip
    ensures RingOrder(g', b)
  {
  }

  lemma HostOrderFrame(host: Host, g: Gpu, g': Gpu, b: Book)
    requires HostOrder(host, g, b) && g'.ring == g.ring
    ensures HostOrder(host, g', b)
  {
  }

  lemma RegistersFrame(g: Gpu, g': Gpu, m: Mem)
    requires Registers(g, m) && g'.ring == g.ring && g'.ip == g.ip
    requires g'.regVa == g.regVa && g'.regTmpring == g.regTmpring
    ensures Registers(g', m)
  {
  }

  /** `scratch_ready` rises only when nothing runs and the previous request has been answered. */
  lemma LandReady(g: Gpu, b: Book)
    requires RingOrder(g, b) && Pipeline(g, b) && b.done <= b.ready
    requires g.eops != [] && g.eops[0].Ready? && forall k :: k in g.inflight ==> g.eops[0].before <= k.id
    ensures b.ready == b.done && AtWait(g) && g.eops[0].value == g.ring[0].seqNo <= b.seqNo
    ensures b.ready < g.eops[0].value
    ensures RingOrder(g.(eops := g.eops[1..]), b.(ready := g.eops[0].value))
    ensures Pipeline(g.(eops := g.eops[1..]), b.(ready := g.eops[0].value))
  {
    assert HasReady(g.eops);
    assert JobFits(b, g.ring[0]);
    assert forall k :: k !in g.inflight;
    var g', b' := g.(eops := g.eops[1..]), b.(ready := g.eops[0].value);
    forall i | 0 <= i < |g.ring| ensures JobFits(b', g.ring[i]) {
      assert JobFits(b, g.ring[i]);
    }
  }

  lemma LandReadyKeepsHost(host: Host, g: Gpu, b: Book, h: Handler, value: nat)
    requires Accounting(b, h) && HostOrder(host, g, b) && g.ring != [] && g.ring[0].seqNo == value
    requires b.ready < value <= b.seqNo
    ensures Accounting(b.(ready := value), h) && HostOrder(host, g, b.(ready := value))
  {
  }

  lemma LandEvent(g: Gpu, b: Book)
    requires Pipeline(g, b) && g.eops != [] && g.eops[0].Event?
    ensures Pipeline(g.(eops := g.eops[1..]), b)
  {
    var g' := g.(eops := g.eops[1..]);
    if HasReady(g.eops) {
      var i :| 0 <= i < |g.eops| && g.eops[i].Ready?;
      assert g'.eops[i - 1].Ready?;
    }
  }

  lemma LandKeepsInv(s: State)
    requires Inv(s) && Enabled(s, Land)
    ensures Inv(Apply(s, Land))
  {
    hide RingOrder, Pipeline, Words, HostView, HostOrder, Coverage, Registers, Kernels;
    var g, t := s.gpu, Apply(s, Land);
    if g.eops[0].Ready? {
      LandReady(g, s.book);
      LandReadyKeepsHost(s.host, g, s.book, s.handler, g.eops[0].value);
      HostOrderFrame(s.host, g, t.gpu, t.book);
    } else {
      LandEvent(g, s.book);
      RingOrderFrame(g, t.gpu, s.book);
      HostOrderFrame(s.host, g, t.gpu, s.book);
    }
    RegistersFrame(g, t.gpu, s.mem);
  }

  // ----- the watcher thread -----

  lemma WakeKeepsInv(s: State, a: Action)
    requires Inv(s) && Enabled(s, a) && (a.Wake? || a.SpuriousWake?)
    ensures Inv(Apply(s, a))
  {
    hide RingOrder, Pipeline, HostView, HostOrder, Coverage, Registers, Kernels;
    PromiseCarries(s.host, s.gpu.ring, s.mem, s.handler, s.mem, Woken, s.book);
  }

  /** The words may change while a request is open: nothing in flight or in the ring depends on them. */
  lemma OpenRequestFrees(s: State, m': Mem, h': Handler)
    requires Inv(s) && s.handler.Holding() && h'.Holding() && h'.req == s.handler.req
    requires Words(m', h', s.book.done)
    requires !m'.error ==> !s.mem.error && Promised(s.mem, s.handler) <= Promised(m', h')
    ensures Inv(s.(mem := m', handler := h'))
  {
    hide RingOrder, Pipeline, Words, HostView, HostOrder, Coverage;
    OpenRequest(s.gpu, s.book);
    PromiseCarries(s.host, s.gpu.ring, s.mem, s.handler, m', h', s.book);
  }

  lemma AllocKeepsInv(s: State, a: Action)
    requires Inv(s) && Enabled(s, a) && (a.AllocOk? || a.AllocFails?)
    ensures Inv(Apply(s, a))
  {
    hide Accounting, RingOrder, Pipeline, HostView, HostOrder, Coverage, Registers, Kernels;
    var t := Apply(s, a);
    OpenRequestFrees(s, t.mem, t.handler);
  }

  lemma RebuildKeepsWords(m: Mem, h: Handler, done: nat)
    requires Words(m, h, done) && h.Holding() && !h.Finishing? && !h.Allocating?
    ensures var (m', h') := Rebuild(m, h);
            && Words(m', h', done) && h'.Holding() && h'.req == h.req
            && (!m'.error ==> !m.error && Promised(m, h) <= Promised(m', h'))
  {
  }

  lemma RebuildKeepsInv(s: State)
    requires Inv(s) && s.handler.Holding() && !s.handler.Finishing? && !s.handler.Allocating?
    ensures Inv(Apply(s, Handle))
  {
    hide Accounting, RingOrder, Pipeline, Words, HostView, HostOrder, Coverage, Registers, Kernels;
    RebuildKeepsWords(s.mem, s.handler, s.book.done);
    var (m', h') := Rebuild(s.mem, s.handler);
    OpenRequestFrees(s, m', h');
  }

  lemma AnswerKeepsAccounting(b: Book, h: Handler)
    requires Accounting(b, h) && !h.Asleep? && (!h.Holding() || h.Finishing?)
    ensures var (b', h') := Answer(b, h); Accounting(b', h')
  {
    var (b', h') := Answer(b, h);
    match h
    case GotBoth(r, d) =>
      if h'.Popped? {
        assert b.requests == [b.requests[0]] + b.requests[1..];
        assert b.served + [] + b.requests == b.served + [b.requests[0]] + b.requests[1..];
      }
    case Finishing(req) => assert b.served + [req] + b.requests == (b.served + [req]) + [] + b.requests;
    case _ =>
  }

  /** The ring's part of the invariant reads the counters and the push history only, and survives `done`
      rising to meet `ready`. */
  lemma AnswerKeepsRing(host: Host, g: Gpu, b: Book, b': Book)
    requires RingOrder(g, b) && Pipeline(g, b) && HostOrder(host, g, b)
    requires b'.seqNo == b.seqNo && b'.pushed == b.pushed && b'.ready == b.ready
    requires b'.done == b.done || (b.done < b.ready && b'.done == b.done + 1)
    ensures RingOrder(g, b') && Pipeline(g, b') && HostOrder(host, g, b')
  {
    forall i | 0 <= i < |g.ring| ensures JobFits(b', g.ring[i]) {
      assert JobFits(b, g.ring[i]);
    }
  }

  lemma EntryKeepsInv(s: State)
    requires Inv(s) && !s.handler.Asleep? && !s.handler.Holding()
    ensures Inv(Apply(s, Handle))
  {
    hide RingOrder, Pipeline, HostView, HostOrder, Coverage, Registers, Kernels;
    var (b', h') := Answer(s.book, s.handler);
    AnswerKeepsAccounting(s.book, s.handler);
    AnswerKeepsRing(s.host, s.gpu, s.book, b');
    PromiseCarries(s.host, s.gpu.ring, s.mem, s.handler, s.mem, h', s.book);
  }

  lemma FinishKeepsInv(s: State)
    requires Inv(s) && s.handler.Finishing?
    ensures Inv(Apply(s, Handle))
  {
    hide RingOrder, Pipeline, HostOrder, Registers, Kernels;
    var (b', h') := Answer(s.book, s.handler);
    AnswerKeepsAccounting(s.book, s.handler);
    AnswerKeepsRing(s.host, s.gpu, s.book, b');
    OpenRequest(s.gpu, s.book);
    PromiseCarries(s.host, s.gpu.ring, s.mem, s.handler, s.mem, h', s.book);
  }

  // ----- the command processor -----

  lemma ReleaseKeepsRing(g: Gpu, b: Book, m: Mem)
    requires RingOrder(g, b) && Pipeline(g, b) && b.done <= b.ready && g.ring != []
    requires Packets(g.ring[0])[g.ip].ReleaseReady? || Packets(g.ring[0])[g.ip].ReleaseEvent?
    ensures var g' := FetchPacket(g, m, Packets(g.ring[0])[g.ip]); RingOrder(g', b) && Pipeline(g', b)
  {
    hide JobFits;
    var p := Packets(g.ring[0])[g.ip];
    var g' := FetchPacket(g, m, p);
    assert g'.eops[..|g.eops|] == g.eops;
    if p.ReleaseReady? {
      NoOpenRequest(g, b);
      assert g'.eops[|g.eops|].Ready?;
    } else if HasReady(g.eops) {
      var i :| 0 <= i < |g.eops| && g.eops[i].Ready?;
      assert g'.eops[i].Ready?;
    }
  }

  lemma PassKeepsRing(g: Gpu, b: Book, m: Mem)
    requires RingOrder(g, b) && Pipeline(g, b) && b.done <= b.ready && g.ring != [] && !Stalled(g, b.done)
    requires var p := Packets(g.ring[0])[g.ip]; p.SetScratch? || p.WaitDone? || p.IndirectBuffer?
    ensures var g' := FetchPacket(g, m, Packets(g.ring[0])[g.ip]); RingOrder(g', b) && Pipeline(g', b)
  {
    var g' := FetchPacket(g, m, Packets(g.ring[0])[g.ip]);
    assert JobFits(b, g.ring[0]);
  }

  /** Past the wait the handler is idle and every request up to the job's own has been answered. */
  lemma AfterWait(g: Gpu, b: Book, m: Mem, h: Handler)
    requires Accounting(b, h) && RingOrder(g, b) && Pipeline(g, b) && Words(m, h, b.done)
    requires g.ring != [] && (Packets(g.ring[0])[g.ip].IndirectBuffer? || Packets(g.ring[0])[g.ip].DispatchDirect?)
    ensures !h.Holding() && WordsAgree(m) && b.done == b.ready
    ensures g.ring[0].stall ==> 0 < g.ring[0].seqNo <= b.done && IbAgrees(m)
  {
    assert JobFits(b, g.ring[0]);
    NoOpenRequest(g, b);
  }

  lemma FetchKeepsRegisters(g: Gpu, b: Book, m: Mem, h: Handler)
    requires Accounting(b, h) && RingOrder(g, b) && Pipeline(g, b) && Words(m, h, b.done) && Registers(g, m)
    requires g.ring != [] && !Packets(g.ring[0])[g.ip].DispatchDirect?
    ensures Registers(FetchPacket(g, m, Packets(g.ring[0])[g.ip]), m)
  {
    if Packets(g.ring[0])[g.ip].IndirectBuffer? {
      AfterWait(g, b, m, h);
    }
  }

  /** The heart of the matter: what a kernel is launched with. */
  lemma LaunchFits(s: State)
    requires Inv(s) && s.gpu.ring != [] && Packets(s.gpu.ring[0])[s.gpu.ip].DispatchDirect?
    ensures WordsAgree(s.mem) && !s.handler.Holding()
    ensures KernelFits(s.mem, Kernel(s.gpu.launched, s.gpu.ring[0].need, s.gpu.regVa, s.gpu.regTmpring, s.mem.live))
  {
    hide Pipeline, Words, HostView, HostOrder, Kernels;
    var j, b := s.gpu.ring[0], s.book;
    AfterWait(s.gpu, b, s.mem, s.handler);
    assert JobFits(b, j);
    if j.resize {
      assert b.served[j.seqNo - 1] == b.pushed[j.seqNo - 1];
    }
  }

  lemma LaunchKeepsRing(g: Gpu, b: Book, m: Mem, host: Host)
    requires RingOrder(g, b) && Pipeline(g, b) && HostOrder(host, g, b) && b.done <= b.ready
    requires g.ring != [] && Packets(g.ring[0])[g.ip].DispatchDirect?
    ensures var g' := FetchPacket(g, m, Packets(g.ring[0])[g.ip]);
            RingOrder(g', b) && Pipeline(g', b) && HostOrder(host, g', b) && Registers(g', m)
  {
    var g' := FetchPacket(g, m, Packets(g.ring[0])[g.ip]);
    NoOpenRequest(g, b);
    assert forall i :: 0 <= i < |g'.ring| ==> g'.ring[i] == g.ring[i + 1];
    forall i | 0 <= i < |g'.ring| ensures JobFits(b, g'.ring[i]) {
      assert JobFits(b, g.ring[i + 1]);
    }
  }

  lemma FetchKeepsInv(s: State)
    requires Inv(s) && Enabled(s, Fetch)
    ensures Inv(Apply(s, Fetch))
  {
    hide RingOrder, Pipeline, Words, HostView, HostOrder, Registers, JobFits, WordsAgree;
    var g := s.gpu;
    var g' := FetchPacket(g, s.mem, Packets(g.ring[0])[g.ip]);
    if Packets(g.ring[0])[g.ip].DispatchDirect? {
      assert Packets(g.ring[0])[g.ip].need == g.ring[0].need;
      LaunchFits(s);
      LaunchKeepsRing(g, s.book, s.mem, s.host);
      assert forall i :: 0 <= i < |g'.ring| ==> g'.ring[i] == g.ring[i + 1];
    } else {
      var p := Packets(g.ring[0])[g.ip];
      if p.ReleaseReady? || p.ReleaseEvent? {
        ReleaseKeepsRing(g, s.book, s.mem);
      } else {
        PassKeepsRing(g, s.book, s.mem);
      }
      FetchKeepsRegisters(g, s.book, s.mem, s.handler);
      HostOrderFrame(s.host, g, g', s.book);
    }
  }

  // ----- the whole machine -----

  lemma InitInv()
    ensures Inv(Init())
  {
  }

  lemma StepKeepsInv(s: State, a: Action)
    requires Inv(s) && Enabled(s, a)
    ensures Inv(Apply(s, a))
  {
    match a
    case Push => PushKeepsInv(s);
    case Submit => SubmitKeepsInv(s);
    case Fetch => FetchKeepsInv(s);
    case Land => LandKeepsInv(s);
    case Retire(k) => RetireKeepsInv(s, k);
    case Wake => WakeKeepsInv(s, a);
    case SpuriousWake => WakeKeepsInv(s, a);
    case AllocOk(_, _) => AllocKeepsInv(s, a);
    case AllocFails => AllocKeepsInv(s, a);
    case Handle =>
      if s.handler.Finishing? { FinishKeepsInv(s); }
      else if s.handler.Holding() { RebuildKeepsInv(s); }
      else { EntryKeepsInv(s); }
    case _ => HostStepKeepsInv(s, a);
  }

  lemma {:induction false} RunKeepsInv(s: State, actions: seq<Action>, t: State)
    requires Inv(s) && Runs(s, actions, t)
    ensures Inv(t)
    decreases |actions|
  {
    hide Inv;
    if actions != [] {
      StepKeepsInv(s, actions[0]);
      RunKeepsInv(Apply(s, actions[0]), actions[1..], t);
    }
  }

  lemma ReachableInv(t: State)
    requires Reachable(t)
    ensures Inv(t)
  {
    InitInv();
    hide Inv, Init;
    var actions :| Runs(Init(), actions, t);
    RunKeepsInv(Init(), actions, t);
  }
}
