/** As long as no request was lost, a stalled command processor is let through by every schedule of background steps
    that goes on while it can: no wakeup is lost and the background is bounded. */
module ScratchProgress {
  import opened ScratchMachine
  import opened ScratchInvariant

  predicate HasEvent(eops: seq<Eop>) {
    exists i :: 0 <= i < |eops| && eops[i].Event?
  }

  /** The sequence number just before position `i` of the ring. */
  function SeqBefore(ring: seq<Job>, finished: nat, i: nat): nat
    requires i <= |ring|
  {
    if i == 0 then finished else ring[i - 1].seqNo
  }

  /** The ring's sequence numbers count its resizing jobs, from the last finished job on. */
  ghost predicate Chain(ring: seq<Job>, finished: nat) {
    forall i :: 0 <= i < |ring| ==> ring[i].seqNo == SeqBefore(ring, finished, i) + (if ring[i].resize then 1 else 0)
  }

  /** Somebody is on the way to answer the open request. */
  predicate WakeOwed(s: State) {
    || s.gpu.ip == 2 || HasEvent(s.gpu.eops) || s.eventPending || s.handler.Woken? || s.handler.Holding()
    || ((s.handler.GotReady? || s.handler.GotBoth?) && s.handler.ready == s.book.ready)
  }

  ghost predicate Lively(s: State) {
    && Chain(s.gpu.ring, s.gpu.finished)
    && s.gpu.finished <= s.book.done
    && s.book.seqNo == SeqBefore(s.gpu.ring, s.gpu.finished, |s.gpu.ring|) + (if HostResizing(s.host) then 1 else 0)
    && (HasReady(s.gpu.eops) && s.gpu.ip == 3 ==> s.gpu.eops[|s.gpu.eops| - 1].Event?)
    && (s.book.done < s.book.ready ==> WakeOwed(s))
  }

  /** Without a lost request the counters are never more than one apart. */
  lemma OneOpenRequest(s: State)
    requires Inv(s) && Lively(s) && s.book.done < s.book.ready
    ensures s.book.ready == s.book.done + 1 == s.gpu.ring[0].seqNo
  {
  }

  lemma HostKeepsLively(s: State, a: Action)
    requires Lively(s) && Enabled(s, a) && !Apply(s, a).lost
    requires a.Begin? || a.Compare? || a.Reject? || a.Push? || a.ReadDone? || a.ReadVa? || a.ReadTmpring? ||
             a.SubmitFails?
    ensures Lively(Apply(s, a))
  {
    hide Chain;
    var t := Apply(s, a);
    assert t.book.seqNo ==
           SeqBefore(t.gpu.ring, t.gpu.finished, |t.gpu.ring|) + (if HostResizing(t.host) then 1 else 0);
    assert t.book.done < t.book.ready ==> WakeOwed(t);
  }

  lemma ChainAppends(ring: seq<Job>, finished: nat, j: Job)
    requires Chain(ring, finished) && j.seqNo == SeqBefore(ring, finished, |ring|) + (if j.resize then 1 else 0)
    ensures Chain(ring + [j], finished) && SeqBefore(ring + [j], finished, |ring| + 1) == j.seqNo
  {
    var ring' := ring + [j];
    forall i | 0 <= i < |ring'|
      ensures ring'[i].seqNo == SeqBefore(ring', finished, i) + (if ring'[i].resize then 1 else 0)
    {
      assert SeqBefore(ring', finished, i) == SeqBefore(ring, finished, i);
      assert i < |ring| ==> ring'[i] == ring[i];
    }
  }

  lemma ChainPops(ring: seq<Job>, finished: nat)
    requires Chain(ring, finished) && ring != []
    ensures ring[0].seqNo == finished + (if ring[0].resize then 1 else 0)
    ensures Chain(ring[1..], ring[0].seqNo)
    ensures SeqBefore(ring[1..], ring[0].seqNo, |ring| - 1) == SeqBefore(ring, finished, |ring|)
  {
  }

  lemma SubmitKeepsLively(s: State)
    requires Lively(s) && Enabled(s, Submit)
    ensures Lively(Apply(s, Submit))
  {
    hide Chain;
    var t, h := Apply(s, Submit), s.host;
    ChainAppends(s.gpu.ring, s.gpu.finished, t.gpu.ring[|s.gpu.ring|]);
    assert t.book.done < t.book.ready ==> WakeOwed(t);
  }

  lemma LandKeepsLively(s: State)
    requires Inv(s) && Lively(s) && Enabled(s, Land)
    ensures Lively(Apply(s, Land))
  {
    hide Accounting, Words, HostView, HostOrder, Coverage, Registers, Kernels, JobFits;
    var g, g' := s.gpu, Apply(s, Land).gpu;
    if g.eops[0].Ready? && g.ip == 3 {
      assert g'.eops[|g'.eops| - 1].Event?;
    }
    if HasReady(g'.eops) {
      var i :| 0 <= i < |g'.eops| && g'.eops[i].Ready?;
      assert g.eops[i + 1].Ready?;
    }
  }

  lemma RetireKeepsLively(s: State, k: Kernel)
    requires Inv(s) && Lively(s) && Enabled(s, Retire(k))
    ensures Lively(Apply(s, Retire(k)))
  {
    hide Inv;
    var g, g' := s.gpu, Apply(s, Retire(k)).gpu;
  }

  lemma LaunchKeepsLively(s: State)
    requires Inv(s) && Lively(s) && Enabled(s, Fetch) && Packets(s.gpu.ring[0])[s.gpu.ip].DispatchDirect?
    ensures Lively(Apply(s, Fetch))
  {
    hide Words, HostView, HostOrder, Coverage, Registers, Kernels, Chain;
    var g := s.gpu;
    NoOpenRequest(g, s.book);
    ChainPops(g.ring, g.finished);
    assert JobFits(s.book, g.ring[0]);
  }

  lemma FetchKeepsLively(s: State)
    requires Inv(s) && Lively(s) && Enabled(s, Fetch) && !Packets(s.gpu.ring[0])[s.gpu.ip].DispatchDirect?
    ensures Lively(Apply(s, Fetch))
  {
    hide Words, HostView, HostOrder, Coverage, Registers, Kernels, JobFits, Chain;
    var g, g' := s.gpu, Apply(s, Fetch).gpu;
    var p := Packets(g.ring[0])[g.ip];
    if p.ReleaseEvent? {
      assert g'.eops[|g.eops|].Event?;
    } else if p.ReleaseReady? {
      NoOpenRequest(g, s.book);
    }
  }

  lemma WatcherKeepsLively(s: State, a: Action)
    requires Inv(s) && Lively(s) && Enabled(s, a)
    requires a.Wake? || a.SpuriousWake? || a.Handle? || a.AllocOk? || a.AllocFails?
    ensures Lively(Apply(s, a))
  {
    hide Words, HostView, HostOrder, Coverage, Registers, Kernels, JobFits, Chain;
    if s.book.done < s.book.ready {
      OneOpenRequest(s);
    }
  }

  lemma StepKeepsLively(s: State, a: Action)
    requires Inv(s) && Enabled(s, a) && (!s.lost ==> Lively(s)) && !Apply(s, a).lost
    ensures Lively(Apply(s, a))
  {
    hide Inv, Lively;
    assert !s.lost;
    match a
    case Submit => SubmitKeepsLively(s);
    case Fetch =>
      if Packets(s.gpu.ring[0])[s.gpu.ip].DispatchDirect? { LaunchKeepsLively(s); } else { FetchKeepsLively(s); }
    case Land => LandKeepsLively(s);
    case Retire(k) => RetireKeepsLively(s, k);
    case Wake => WatcherKeepsLively(s, a);
    case SpuriousWake => WatcherKeepsLively(s, a);
    case Handle => WatcherKeepsLively(s, a);
    case AllocOk(_, _) => WatcherKeepsLively(s, a);
    case AllocFails => WatcherKeepsLively(s, a);
    case _ => HostKeepsLively(s, a);
  }

  lemma {:induction false} RunKeepsLively(s: State, actions: seq<Action>, t: State)
    requires Inv(s) && (!s.lost ==> Lively(s)) && Runs(s, actions, t)
    ensures !t.lost ==> Lively(t)
    decreases |actions|
  {
    hide Inv, Lively, Apply, Enabled;
    if actions != [] {
      StepKeepsInv(s, actions[0]);
      if !Apply(s, actions[0]).lost {
        StepKeepsLively(s, actions[0]);
      }
      RunKeepsLively(Apply(s, actions[0]), actions[1..], t);
    }
  }

  lemma ReachableLively(t: State)
    requires Reachable(t) && !t.lost
    ensures Inv(t) && Lively(t)
  {
    InitInv();
    ReachableInv(t);
    var actions :| Runs(Init(), actions, t);
    assert Lively(Init());
    hide Inv, Lively, Init;
    RunKeepsLively(Init(), actions, t);
  }

  /** The counters over every run in which each queued request reached the ring. */
  lemma CountersMoveInStep(t: State)
    requires Reachable(t) && !t.lost
    ensures t.book.done <= t.book.ready <= t.book.done + 1 && t.book.ready <= t.book.seqNo
    ensures |t.book.requests| + (if t.handler.Holding() then 1 else 0) == t.book.seqNo - t.book.done
  {
    ReachableLively(t);
    if t.book.done < t.book.ready {
      OneOpenRequest(t);
    }
  }

  /** Steps that need neither a host thread nor the submit mutex nor the CP: waves retiring, end-of-pipe
      writes landing, and the watcher running because its event fired. */
  predicate Background(a: Action) {
    a.Retire? || a.Land? || a.Wake? || a.Handle? || a.AllocOk? || a.AllocFails?
  }

  function Remaining(h: Handler): nat {
    match h
    case Asleep => 0
    case Finishing(_) => 1
    case FillRest(_) => 2
    case MarkError(_) => 2
    case FillBase(_) => 3
    case PublishPerThread(_, _) => 4
    case PublishTmpring(_, _) => 5
    case PublishVa(_, _) => 6
    case Allocating(_) => 7
    case ClearPerThread(_) => 8
    case ClearTmpring(_) => 9
    case ClearVa(_) => 10
    case Releasing(_) => 11
    case Popped(_) => 12
    case GotBoth(_, _) => 13
    case GotReady(_) => 14
    case Woken => 15
  }

  /** How many background steps are left at most. */
  function Rank(s: State): nat {
    |s.gpu.inflight| + 17 * |s.gpu.eops| + (if s.eventPending then 16 else 0) + Remaining(s.handler)
  }

  lemma HandlerRanks(s: State)
    requires Enabled(s, Handle)
    ensures Remaining(Apply(s, Handle).handler) < Remaining(s.handler)
    ensures Apply(s, Handle).gpu == s.gpu && Apply(s, Handle).eventPending == s.eventPending
  {
  }

  lemma BackgroundRanks(s: State, a: Action)
    requires Enabled(s, a) && Background(a)
    ensures Rank(Apply(s, a)) < Rank(s)
    ensures Apply(s, a).lost == s.lost && Apply(s, a).gpu.ring == s.gpu.ring && Apply(s, a).gpu.ip == s.gpu.ip
  {
    if a.Handle? {
      hide Remaining;
      HandlerRanks(s);
    }
  }

  /** A stalled CP stands at the wait of a resizing job whose request is open or about to be. */
  lemma StalledAtResize(t: State)
    requires Pipeline(t.gpu, t.book) && Lively(t) && Stalled(t.gpu, t.book.done)
    ensures AtWait(t.gpu) && t.gpu.ip == 3
    ensures t.book.ready == t.gpu.ring[0].seqNo > t.book.done || HasReady(t.gpu.eops)
  {
    var j := t.gpu.ring[0];
    assert Packets(j)[t.gpu.ip] == WaitDone(j.seqNo);
    ChainPops(t.gpu.ring, t.gpu.finished);
  }

  /** With nothing in flight and the handler asleep, the watcher's event is pending. */
  lemma EventIsPending(t: State)
    requires Pipeline(t.gpu, t.book) && Lively(t) && Stalled(t.gpu, t.book.done)
    requires t.gpu.eops == [] && t.handler.Asleep?
    ensures t.eventPending
  {
    hide Pipeline, Chain;
    StalledAtResize(t);
  }

  function NextBackground(t: State): Action {
    if t.gpu.eops != [] then Land else if t.handler.Asleep? then Wake
    else if t.handler.Allocating? then AllocFails else Handle
  }

  lemma NextIsEnabled(t: State)
    requires t.gpu.inflight == {} && (t.gpu.eops == [] && t.handler.Asleep? ==> t.eventPending)
    ensures Enabled(t, NextBackground(t)) && Background(NextBackground(t))
  {
  }

  /** Progress: a CP stalled on an unanswered request always has a background step enabled. */
  lemma StalledCanStep(t: State) returns (a: Action)
    requires Reachable(t) && !t.lost && Stalled(t.gpu, t.book.done)
    ensures Background(a) && Enabled(t, a)
  {
    ReachableLively(t);
    assert Pipeline(t.gpu, t.book);
    hide *;
    if t.gpu.inflight != {} {
      var k :| k in t.gpu.inflight;
      a := Retire(k);
      RetireIsEnabled(t, k);
    } else {
      if t.gpu.eops == [] && t.handler.Asleep? {
        EventIsPending(t);
      }
      a := NextBackground(t);
      NextIsEnabled(t);
    }
  }

  lemma RetireIsEnabled(t: State, k: Kernel)
    requires k in t.gpu.inflight
    ensures Enabled(t, Retire(k)) && Background(Retire(k))
  {
  }

  /** However the background is scheduled, it cannot run past Rank(s), and the CP stays where it is. */
  lemma {:induction false} BackgroundIsBounded(s: State, actions: seq<Action>, t: State)
    requires Runs(s, actions, t) && forall i :: 0 <= i < |actions| ==> Background(actions[i])
    ensures |actions| + Rank(t) <= Rank(s)
    ensures t.lost == s.lost && t.gpu.ring == s.gpu.ring && t.gpu.ip == s.gpu.ip
    decreases |actions|
  {
    if actions != [] {
      BackgroundRanks(s, actions[0]);
      hide Apply, Rank, Enabled;
      BackgroundIsBounded(Apply(s, actions[0]), actions[1..], t);
    }
  }

  /** The stall ends however the background is scheduled: at most Rank(t) steps are possible, and a schedule that no
      background step can extend is past the wait. */
  lemma StallEnds(t: State, actions: seq<Action>, u: State)
    requires Reachable(t) && !t.lost && Stalled(t.gpu, t.book.done)
    requires Runs(t, actions, u) && forall i :: 0 <= i < |actions| ==> Background(actions[i])
    ensures |actions| <= Rank(t)
    ensures (forall a :: Background(a) ==> !Enabled(u, a)) ==> !Stalled(u.gpu, u.book.done)
  {
    hide *;
    BackgroundIsBounded(t, actions, u);
    ReachRun(t, actions, u);
    if Stalled(u.gpu, u.book.done) {
      var a := StalledCanStep(u);
    }
  }

  /** And one such schedule there is: from a stalled state background steps alone reach a state past the wait. */
  lemma {:induction false} StallCanEnd(t: State) returns (actions: seq<Action>, u: State)
    requires Reachable(t) && !t.lost && Stalled(t.gpu, t.book.done)
    ensures Runs(t, actions, u) && |actions| <= Rank(t)
    ensures forall i :: 0 <= i < |actions| ==> Background(actions[i])
    ensures u.gpu.ring == t.gpu.ring && u.gpu.ip == t.gpu.ip && !Stalled(u.gpu, u.book.done)
    decreases Rank(t)
  {
    var a := StalledCanStep(t);
    BackgroundRanks(t, a);
    ReachMore(t, a);
    hide Reachable, Apply, Rank;
    var s := Apply(t, a);
    if Stalled(s.gpu, s.book.done) {
      var rest;
      rest, u := StallCanEnd(s);
      actions := [a] + rest;
      assert actions[1..] == rest;
    } else {
      actions, u := [a], s;
      assert Runs(s, actions[1..], u);
    }
  }
}
