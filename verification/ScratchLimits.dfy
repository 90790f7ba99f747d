/** Concrete runs that show where safety and progress need their assumptions. */
module ScratchLimits {
  import opened Util
  import opened ScratchMachine
  import opened ScratchSafety
  import opened ScratchStall
  import opened ScratchWakes

  lemma Step(s: State, a: Action) returns (t: State)
    requires Reachable(s) && Enabled(s, a)
    ensures t == Apply(s, a) && Reachable(t)
  {
    ReachMore(s, a);
    t := Apply(s, a);
  }

  lemma StartReachable()
    ensures Reachable(Init())
  {
    assert Runs(Init(), [], Init());
  }

  /** A dispatch of 8 bytes per thread up to just before its submit. */
  lemma FirstDispatch(s: State) returns (t: State)
    requires Reachable(s) && s.host.Idle? && s.mem == Init().mem && s.book.done == 0
    ensures Reachable(t)
    ensures t == s.(host := HaveTmpring(8, true, true, 0, 0),
                    book := s.book.(requests := s.book.requests + [8], seqNo := s.book.seqNo + 1,
                                    pushed := s.book.pushed + [8]))
  {
    hide Reachable;
    t := Step(s, Begin(8));
    t := Step(t, Compare);
    t := Step(t, Push);
    t := Step(t, ReadDone);
    t := Step(t, ReadVa);
    t := Step(t, ReadTmpring);
  }

  /** One fresh dispatch of 8 bytes per thread has queued request `n` and reached its wait; the watcher's
      event has fired. */
  function Waiting(n: nat): State {
    Init().(book := Book(n, n, 0, seq(n, _ => 8), seq(n, _ => 8), []),
            gpu := Gpu([Job(8, 0, 0, n, true, true)], 3, 0, 0, {}, 0, [], 0),
            eventPending := true, lost := n > 1)
  }

  lemma SubmittedReachesWait(s: State, n: nat) returns (t: State)
    requires Reachable(s) && s.gpu == Init().gpu && s.host == HaveTmpring(8, true, true, 0, 0) && s.mem == Init().mem
    requires s.handler.Asleep? && s.lost == (n > 1)
    requires s.book == Book(n, 0, 0, seq(n, _ => 8), seq(n, _ => 8), [])
    ensures t == Waiting(n) && Reachable(t)
  {
    hide Reachable;
    t := Step(s, Submit);
    assert t.gpu.ring == [Job(8, 0, 0, n, true, true)];
    t := Step(t, Fetch);
    t := Step(t, Fetch);
    assert t.gpu.eops == [Ready(n, 0)];
    t := Step(t, Fetch);
    assert t.gpu.eops == [Ready(n, 0), Event(0)];
    t := Step(t, Land);
    assert t.gpu.eops == [Event(0)];
    t := Step(t, Land);
  }

  /** The watcher wakes and takes the first request. */
  lemma WatcherTakesRequest(s: State) returns (t: State)
    requires Reachable(s) && s.handler.Asleep? && s.eventPending && s.book.done < s.book.ready && s.book.requests != []
    ensures Reachable(t)
    ensures t == s.(handler := Popped(s.book.requests[0]), eventPending := false,
                    book := s.book.(requests := s.book.requests[1..]))
  {
    hide Reachable;
    t := Step(s, Wake);
    t := Step(t, Handle);
    t := Step(t, Handle);
    t := Step(t, Handle);
  }

  /** The allocation for a first request fails. */
  lemma FirstAllocationFails(s: State) returns (t: State)
    requires Reachable(s) && s.handler.Popped? && s.handler.req > 0 && s.mem == Init().mem
    ensures Reachable(t)
    ensures t == s.(handler := Asleep, mem := s.mem.(error := true, ib := s.mem.ib.(nop := true)),
                    book := s.book.(done := s.book.done + 1, served := s.book.served + [s.handler.req]))
  {
    hide Reachable;
    t := Step(s, Handle);
    t := Step(t, AllocFails);
    t := Step(t, Handle);
    t := Step(t, Handle);
  }

  /** The words once a first request for `req` bytes has got the region at address 4096. */
  function Served(req: nat): Mem { Mem(4096, 1, req, false, Ib(false, 4096, 1), Some(Region(0, 4096, 1, req)), 1) }

  /** The region is allocated and published. */
  lemma FirstRegionPublished(s: State) returns (t: State)
    requires Reachable(s) && s.handler.Popped? && s.handler.req > 0 && s.mem == Init().mem
    ensures Reachable(t)
    ensures t == s.(handler := FillBase(s.handler.req), mem := Served(s.handler.req).(ib := Init().mem.ib))
  {
    hide Reachable;
    t := Step(s, Handle);
    t := Step(t, AllocOk(4096, 1));
    t := Step(t, Handle);
    t := Step(t, Handle);
    t := Step(t, Handle);
  }

  /** The allocation for a first request succeeds. */
  lemma FirstAllocationWorks(s: State) returns (t: State)
    requires Reachable(s) && s.handler.Popped? && s.handler.req > 0 && s.mem == Init().mem
    ensures Reachable(t)
    ensures t == s.(handler := Asleep, mem := Served(s.handler.req),
                    book := s.book.(done := s.book.done + 1, served := s.book.served + [s.handler.req]))
  {
    hide Reachable;
    t := FirstRegionPublished(s);
    t := Step(t, Handle);
    t := Step(t, Handle);
    t := Step(t, Handle);
  }

  /** The CP goes from a satisfied wait through a NOP indirect buffer to the launch. */
  lemma WaitToLaunch(s: State) returns (t: State)
    requires Reachable(s) && s.gpu == Waiting(1).gpu && s.book.done == 1 && s.mem.ib.nop && s.mem.live == None
    ensures Reachable(t) && Kernel(0, 8, 0, 0, None) in t.gpu.inflight && t.mem == s.mem
  {
    hide Reachable;
    t := Step(s, Fetch);
    t := Step(t, Fetch);
    t := Step(t, Fetch);
  }

  /** Safety fails once an allocation fails: a run in which the very first allocation fails ends with a kernel
      running that needs scratch while no region exists at all. */
  lemma FailedAllocationRunsUnbacked() returns (t: State, k: Kernel)
    ensures Reachable(t) && k in t.gpu.inflight && k.need > 0 && t.mem.live == None && !Backed(t.mem, k)
  {
    hide Reachable;
    StartReachable();
    t := FirstDispatch(Init());
    t := SubmittedReachesWait(t, 1);
    t := WatcherTakesRequest(t);
    t := FirstAllocationFails(t);
    t := WaitToLaunch(t);
    k := Kernel(0, 8, 0, 0, None);
  }

  /** The CP goes from the satisfied wait of the first job to its launch. */
  lemma FirstJobLaunches(s: State) returns (t: State)
    requires Reachable(s) && s.gpu == Waiting(1).gpu && s.book.done == 1
    ensures Reachable(t) && t == s.(gpu := t.gpu) && t.gpu.ring == [] && t.gpu.ip == 0
  {
    hide Reachable;
    t := Step(s, Fetch);
    t := Step(t, Fetch);
    t := Step(t, Fetch);
  }

  /** A dispatch of 16 bytes per thread queues its request, and its submit fails. */
  lemma SecondRequestLost(s: State) returns (t: State)
    requires Reachable(s) && s.host.Idle? && s.mem == Served(8) && s.book == Book(1, 1, 1, [], [8], [8])
    ensures Reachable(t)
    ensures t == s.(book := Book(2, 1, 1, [16], [8, 16], [8]), lost := true)
  {
    hide Reachable;
    t := Step(s, Begin(16));
    t := Step(t, Compare);
    t := Step(t, Push);
    t := Step(t, ReadDone);
    t := Step(t, ReadVa);
    t := Step(t, ReadTmpring);
    t := Step(t, SubmitFails);
  }

  /** A dispatch the region is large enough for waits for the lost request all the same. */
  lemma ThirdDispatchStalls(s: State) returns (t: State)
    requires Reachable(s) && s.host.Idle? && s.mem == Served(8) && s.book == Book(2, 1, 1, [16], [8, 16], [8])
    requires s.gpu.ring == [] && s.gpu.ip == 0
    ensures Reachable(t) && t.book == s.book && t.lost == s.lost
    ensures t.gpu.ring == [Job(8, 4096, 1, 2, false, true)] && t.gpu.ip == 1
  {
    hide Reachable;
    t := Step(s, Begin(8));
    t := Step(t, Compare);
    t := Step(t, ReadDone);
    t := Step(t, ReadVa);
    t := Step(t, ReadTmpring);
    t := Step(t, Submit);
    assert t.gpu.ring == [Job(8, 4096, 1, 2, false, true)];
    t := Step(t, Fetch);
  }

  /** Progress fails once a queued request's packets never reach the ring: with a region for 8 bytes in place and a
      request for 16 lost, the next dispatch of 8 waits for that request in every continuation. */
  lemma LostRequestBlocks() returns (t: State)
    ensures Reachable(t) && t.lost && t.book.ready == t.book.done == 1
    ensures Stalled(t.gpu, t.book.done) && t.gpu.ring[0].seqNo == 2 && !t.gpu.ring[0].resize
    ensures forall actions, u :: Runs(t, actions, u) ==> Stalled(u.gpu, u.book.done)
  {
    hide Reachable, Runs;
    StartReachable();
    t := FirstDispatch(Init());
    t := SubmittedReachesWait(t, 1);
    t := WatcherTakesRequest(t);
    t := FirstAllocationWorks(t);
    t := FirstJobLaunches(t);
    t := SecondRequestLost(t);
    t := ThirdDispatchStalls(t);
    StallEndsIff(t);
  }

  /** Nor is a dispatch's own request always enough: with one request lost before it two answers are owed, and its
      event wakes the watcher once. */
  lemma LostRequestStarves() returns (t: State)
    ensures Reachable(t) && t.lost && Waits(t) && t.book.ready == 2 && t.book.done == 0
    ensures Owed(t) == 2 && Calls(t) == 1
    ensures forall actions, u :: Runs(t, actions, u) && AllBackground(actions) ==> Stalled(u.gpu, u.book.done)
  {
    hide Reachable, Runs, AllBackground;
    StartReachable();
    t := FirstDispatch(Init());
    t := Step(t, SubmitFails);
    t := FirstDispatch(t);
    t := SubmittedReachesWait(t, 2);
    MayPassIff(t);
  }
}
