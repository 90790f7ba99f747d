/** Exactly when a stalled command processor can get past its wait, in every run, requests lost or not. */
module ScratchStall {
  import opened ScratchMachine
  import opened ScratchInvariant
  import opened ScratchProgress

  /** Stalled at the wait of a dispatch that queued no request of its own (lib/queue.cpp:746-759). */
  predicate Stuck(s: State) { Stalled(s.gpu, s.book.done) && !s.gpu.ring[0].resize }

  /** At such a wait no request is open, so the handler has nothing to answer. */
  lemma StuckIsQuiet(s: State)
    requires Inv(s) && Stuck(s)
    ensures s.book.done == s.book.ready && !HasReady(s.gpu.eops) && !s.handler.Holding()
    ensures s.handler.GotBoth? ==> s.handler.ready <= s.handler.done
  {
    hide RingOrder, Words, HostView, HostOrder, Coverage, Registers, Kernels;
    NoOpenRequest(s.gpu, s.book);
  }

  /** No step of anybody frees it. */
  lemma StuckStays(s: State, a: Action)
    requires Inv(s) && Stuck(s) && Enabled(s, a)
    ensures Stuck(Apply(s, a))
  {
    hide Inv;
    StuckIsQuiet(s);
    assert a.Land? ==> s.gpu.eops[0].Event?;
  }

  lemma {:induction false} StuckForever(s: State, actions: seq<Action>, t: State)
    requires Inv(s) && Stuck(s) && Runs(s, actions, t)
    ensures Stuck(t)
    decreases |actions|
  {
    hide Inv, Stuck, Apply, Enabled;
    if actions != [] {
      StuckStays(s, actions[0]);
      StepKeepsInv(s, actions[0]);
      StuckForever(Apply(s, actions[0]), actions[1..], t);
    }
  }

  // ----- a resizing dispatch can always be let through -----

  /** How far the handler is from finishing a request, entries that saw old counters first going back to sleep. */
  function Distance(h: Handler, done: nat): nat {
    match h
    case Asleep => 16
    case GotReady(r) => if r > done then 14 else 18
    case GotBoth(r, d) => if r > d then 13 else 17
    case _ => Remaining(h)
  }

  /** With nothing in flight, the next step of the watcher, which wakes without its own event if it must. */
  function WatcherStep(h: Handler): Action {
    if h.Asleep? then SpuriousWake else if h.Allocating? then AllocFails else Handle
  }

  /** With nothing left in the pipe the request of a stalled resizing dispatch is open, and queued or held. */
  lemma RequestIsOpen(s: State)
    requires Inv(s) && Stalled(s.gpu, s.book.done) && s.gpu.ring[0].resize && s.gpu.eops == []
    ensures s.book.done < s.book.ready
    ensures !s.handler.Holding() ==> s.book.requests != []
    ensures s.handler.GotBoth? ==> s.handler.done == s.book.done
  {
    hide RingOrder, Words, HostView, HostOrder, Coverage, Registers, Kernels;
    assert AtWait(s.gpu);
  }

  /** The watcher's next step finishes a request or comes closer to it. */
  lemma WatcherAdvances(s: State)
    requires s.book.done < s.book.ready && (!s.handler.Holding() ==> s.book.requests != [])
    requires s.handler.GotBoth? ==> s.handler.done == s.book.done
    ensures Enabled(s, WatcherStep(s.handler))
    ensures var t := Apply(s, WatcherStep(s.handler));
      && t.gpu == s.gpu && s.book.done <= t.book.done
      && (t.book.done == s.book.done ==> Distance(t.handler, t.book.done) < Distance(s.handler, s.book.done))
  {
  }

  /** What is left to happen before the wait is passed, in the order it is counted down. */
  predicate Closer(t: State, s: State) {
    && t.gpu.ring == s.gpu.ring && t.gpu.ip == s.gpu.ip && s.book.done <= t.book.done
    && (|| |t.gpu.inflight| + |t.gpu.eops| < |s.gpu.inflight| + |s.gpu.eops|
        || (&& |t.gpu.inflight| + |t.gpu.eops| == |s.gpu.inflight| + |s.gpu.eops|
            && (|| s.book.done < t.book.done
                || Distance(t.handler, t.book.done) < Distance(s.handler, s.book.done))))
  }

  lemma HelpfulStep(s: State) returns (a: Action)
    requires Inv(s) && Stalled(s.gpu, s.book.done) && s.gpu.ring[0].resize
    ensures Enabled(s, a) && Closer(Apply(s, a), s)
  {
    hide Inv, Stalled, Distance;
    if s.gpu.inflight != {} {
      var k :| k in s.gpu.inflight;
      a := Retire(k);
    } else if s.gpu.eops != [] {
      a := Land;
    } else {
      a := WatcherStep(s.handler);
      RequestIsOpen(s);
      WatcherAdvances(s);
    }
  }

  /** Some run lets a stalled resizing dispatch through, even after requests were lost before it. */
  lemma {:induction false} ResizeIsLetThrough(s: State) returns (actions: seq<Action>, u: State)
    requires Inv(s) && Stalled(s.gpu, s.book.done) && s.gpu.ring[0].resize
    ensures Runs(s, actions, u) && u.gpu.ring == s.gpu.ring && u.gpu.ip == s.gpu.ip && !Stalled(u.gpu, u.book.done)
    decreases |s.gpu.inflight| + |s.gpu.eops|, s.gpu.ring[0].seqNo - s.book.done, Distance(s.handler, s.book.done)
  {
    hide Inv, Enabled, Apply, Distance;
    var a := HelpfulStep(s);
    StepKeepsInv(s, a);
    var t := Apply(s, a);
    if Stalled(t.gpu, t.book.done) {
      var rest;
      rest, u := ResizeIsLetThrough(t);
      actions := [a] + rest;
      assert actions[1..] == rest;
    } else {
      actions, u := [a], t;
      assert Runs(t, actions[1..], u);
    }
  }

  /** A stalled command processor can get past its wait if and only if the dispatch it stalls at queued a request of
      its own: whatever was lost before, and whatever anybody does. After a loss the run may need spurious wakeups. */
  lemma StallEndsIff(t: State)
    requires Reachable(t) && Stalled(t.gpu, t.book.done)
    ensures t.gpu.ring[0].resize <==> exists actions, u :: Runs(t, actions, u) && !Stalled(u.gpu, u.book.done)
  {
    hide Inv, Reachable, Runs;
    ReachableInv(t);
    if t.gpu.ring[0].resize {
      var actions, u := ResizeIsLetThrough(t);
    } else {
      forall actions, u | Runs(t, actions, u) ensures Stalled(u.gpu, u.book.done) {
        StuckForever(t, actions, u);
      }
    }
  }
}
