/** Safety and accounting of the scratch-growth machine over every run. */
module ScratchSafety {
  import opened Util
  import opened ScratchMachine
  import opened ScratchInvariant

  /** The kernel's registers name the live region, that region was made for at least its size, and it is the
      one that was live when the kernel was launched, so it has not been released since. */
  ghost predicate Backed(m: Mem, k: Kernel) {
    match m.live
    case None => false
    case Some(r) => k.va == r.va && k.tmpring == r.tmpring && k.need <= r.perThread && k.region == m.live
  }

  /** Scratch safety over whole runs: until the handler reports an error, every kernel in flight that uses
      scratch is backed, in every interleaving. */
  lemma ScratchSafety(t: State)
    requires Reachable(t) && !t.mem.error
    ensures forall k :: k in t.gpu.inflight && k.need > 0 ==> Backed(t.mem, k)
  {
    ReachableInv(t);
  }

  /** With failing allocations allowed, a launch is safe exactly when the per-thread word covers it. */
  lemma LaunchSafeIff(t: State)
    requires Reachable(t) && Enabled(t, Fetch)
    requires Packets(t.gpu.ring[0])[t.gpu.ip].DispatchDirect? && t.gpu.ring[0].need > 0
    ensures var k := Kernel(t.gpu.launched, t.gpu.ring[0].need, t.gpu.regVa, t.gpu.regTmpring, t.mem.live);
            && k in Apply(t, Fetch).gpu.inflight
            && (Backed(t.mem, k) <==> t.mem.perThread >= k.need)
  {
    ReachableInv(t);
    hide Inv;
    LaunchFits(t);
  }

  /** What is backed at launch stays backed for as long as the kernel runs, whatever fails meanwhile. */
  lemma BackedUntilRetired(s: State, a: Action, k: Kernel)
    requires Reachable(s) && Enabled(s, a) && k in s.gpu.inflight && k in Apply(s, a).gpu.inflight
    requires Backed(s.mem, k)
    ensures Backed(Apply(s, a).mem, k)
  {
    ReachableInv(s);
    ReachMore(s, a);
    ReachableInv(Apply(s, a));
  }

  // ----- accounting -----

  /** Requests are answered once each and in order, whatever spurious calls the watcher makes. */
  lemma RequestsServedInOrder(t: State)
    requires Reachable(t)
    ensures t.book.pushed == t.book.served + (if t.handler.Holding() then [t.handler.req] else []) + t.book.requests
    ensures |t.book.served| == t.book.done <= t.book.ready <= t.book.seqNo == |t.book.pushed|
  {
    ReachableInv(t);
  }
}
