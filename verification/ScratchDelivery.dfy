/** What becomes of dispatches: each one accepted is launched once and in order, and whoever does not grow the scratch
    never waits. Told from the calls of a run and from the kernels seen in flight. */
module ScratchDelivery {
  import opened Util
  import opened ScratchMachine
  import opened ScratchInvariant
  import opened ScratchProgress

  /** The need the latest dispatch was called with. */
  function LastBegun(actions: seq<Action>): nat {
    if actions == [] then 0
    else
      var a := actions[|actions| - 1];
      if a.Begin? then a.need else LastBegun(actions[..|actions| - 1])
  }

  /** The needs of the dispatches whose submit succeeded, in order. */
  function Accepted(actions: seq<Action>): seq<nat> {
    if actions == [] then []
    else
      var init := actions[..|actions| - 1];
      Accepted(init) + if actions[|actions| - 1].Submit? then [LastBegun(init)] else []
  }

  /** The kernel that came into flight between two states. */
  ghost function Started(s: State, t: State): seq<Kernel> {
    if k :| k in t.gpu.inflight && k !in s.gpu.inflight then [k] else []
  }

  /** The kernels that came into flight during a run. */
  ghost function Launches(s: State, actions: seq<Action>): seq<Kernel>
    decreases |actions|
  {
    if actions == [] || !Enabled(s, actions[0]) then []
    else
      var t := Apply(s, actions[0]);
      Started(s, t) + Launches(t, actions[1..])
  }

  function NeedsOf(ks: seq<Kernel>): seq<nat> { seq(|ks|, i requires 0 <= i < |ks| => ks[i].need) }

  function Waiting(ring: seq<Job>): seq<nat> { seq(|ring|, i requires 0 <= i < |ring| => ring[i].need) }

  // ----- once each and in order -----

  /** `ks` have been launched and `actions` done: what was accepted is launched or in the ring, and what was launched is
      in flight until it retires. */
  ghost predicate Delivered(actions: seq<Action>, ks: seq<Kernel>, t: State) {
    && NeedsOf(ks) + Waiting(t.gpu.ring) == Accepted(actions)
    && (!t.host.Idle? ==> t.host.need == LastBegun(actions))
    && |ks| == t.gpu.launched && (forall i :: 0 <= i < |ks| ==> ks[i].id == i)
    && (forall k :: k in t.gpu.inflight <==> k in ks && Retire(k) !in actions)
    && (forall k :: Retire(k) in actions ==> k in ks)
  }

  lemma AcceptMore(actions: seq<Action>, a: Action)
    ensures Accepted(actions + [a]) == Accepted(actions) + if a.Submit? then [LastBegun(actions)] else []
    ensures LastBegun(actions + [a]) == if a.Begin? then a.need else LastBegun(actions)
  {
    assert (actions + [a])[..|actions + [a]| - 1] == actions;
  }

  /** The next packet launches a kernel. */
  predicate Launching(s: State, a: Action)
    requires Enabled(s, a)
  {
    a.Fetch? && Packets(s.gpu.ring[0])[s.gpu.ip].DispatchDirect?
  }

  lemma OthersStartNothing(s: State, a: Action)
    requires Enabled(s, a) && !Launching(s, a)
    ensures Started(s, Apply(s, a)) == [] && Apply(s, a).gpu.launched == s.gpu.launched
    ensures Apply(s, a).gpu.inflight == s.gpu.inflight - if a.Retire? then {a.kernel} else {}
  {
    var t := Apply(s, a);
    assert t.gpu.inflight <= s.gpu.inflight;
  }

  lemma OthersKeepNeeds(s: State, a: Action)
    requires Enabled(s, a) && !Launching(s, a)
    ensures Waiting(Apply(s, a).gpu.ring) == Waiting(s.gpu.ring) + if a.Submit? then [s.host.need] else []
    ensures a.Begin? ==> Apply(s, a).host.need == a.need
    ensures !a.Begin? && !Apply(s, a).host.Idle? ==> !s.host.Idle? && Apply(s, a).host.need == s.host.need
  {
  }

  lemma LaunchStartsOne(s: State)
    requires Enabled(s, Fetch) && Launching(s, Fetch) && forall k :: k in s.gpu.inflight ==> k.id < s.gpu.launched
    ensures var t := Apply(s, Fetch);
      && (exists k: Kernel :: k.id == s.gpu.launched && k.need == s.gpu.ring[0].need && Started(s, t) == [k] &&
            t.gpu.inflight == s.gpu.inflight + {k})
      && t.gpu.launched == s.gpu.launched + 1 && t.host == s.host
      && Waiting(s.gpu.ring) == [s.gpu.ring[0].need] + Waiting(t.gpu.ring)
  {
    var g := s.gpu;
    var k := Kernel(g.launched, g.ring[0].need, g.regVa, g.regTmpring, s.mem.live);
    assert Packets(g.ring[0])[g.ip] == DispatchDirect(g.ring[0].need);
    assert Apply(s, Fetch).gpu.inflight == g.inflight + {k};
  }

  lemma StepDelivers(actions: seq<Action>, ks: seq<Kernel>, s: State, a: Action)
    requires Delivered(actions, ks, s) && Enabled(s, a)
    ensures Delivered(actions + [a], ks + Started(s, Apply(s, a)), Apply(s, a))
  {
    hide Started, Apply, Accepted, LastBegun, Packets;
    AcceptMore(actions, a);
    if Launching(s, a) {
      LaunchStartsOne(s);
    } else {
      OthersStartNothing(s, a);
      OthersKeepNeeds(s, a);
      assert ks + [] == ks;
    }
  }

  lemma {:induction false} RunDelivers(before: seq<Action>, ks: seq<Kernel>, s: State, actions: seq<Action>, t: State)
    requires Delivered(before, ks, s) && Runs(s, actions, t)
    ensures Delivered(before + actions, ks + Launches(s, actions), t)
    decreases |actions|
  {
    hide Delivered, Started, Apply, Enabled;
    if actions == [] {
      assert before + actions == before && ks + Launches(s, actions) == ks;
    } else {
      var a, m := actions[0], Apply(s, actions[0]);
      StepDelivers(before, ks, s, a);
      RunDelivers(before + [a], ks + Started(s, m), m, actions[1..], t);
      assert before + actions == before + [a] + actions[1..];
      Assoc(ks, Started(s, m), Launches(m, actions[1..]));
    }
  }

  /** In every run the dispatches accepted, in order, are the kernels launched, once each, and then the jobs in the
      ring. A kernel is in flight from its launch until it retires, and at most one comes into flight at a step. */
  lemma LaunchedInOrder(actions: seq<Action>, t: State)
    requires Runs(Init(), actions, t)
    ensures var ks := Launches(Init(), actions);
      && NeedsOf(ks) + Waiting(t.gpu.ring) == Accepted(actions)
      && (forall i, j :: 0 <= i < j < |ks| ==> ks[i] != ks[j])
      && (forall k :: k in t.gpu.inflight <==> k in ks && Retire(k) !in actions)
  {
    assert Delivered([], [], Init());
    hide Init;
    RunDelivers([], [], Init(), actions, t);
    assert [] + actions == actions && [] + Launches(Init(), actions) == Launches(Init(), actions);
  }

  // ----- every dispatch is launched -----

  /** Steps of the GPU and the watcher. */
  predicate Working(a: Action) { Background(a) || a.Fetch? }

  function PacketsLeft(ring: seq<Job>): nat {
    if ring == [] then 0 else |Packets(ring[0])| + PacketsLeft(ring[1..])
  }

  /** How many such steps are left at most, when the CP's position is one. */
  function WorkLeft(s: State): int { 18 * (PacketsLeft(s.gpu.ring) - s.gpu.ip) + Rank(s) }

  lemma WorkRanks(s: State, a: Action)
    requires Enabled(s, a) && Working(a) && RingOrder(s.gpu, s.book)
    ensures WorkLeft(Apply(s, a)) < WorkLeft(s) && Apply(s, a).lost == s.lost
  {
    if a.Fetch? {
      assert s.gpu.ip < |Packets(s.gpu.ring[0])|;
    } else {
      hide Packets, Rank, PacketsLeft;
      BackgroundRanks(s, a);
    }
  }

  lemma {:induction false} WorkIsBounded(s: State, actions: seq<Action>, t: State)
    requires Inv(s) && Runs(s, actions, t) && forall i :: 0 <= i < |actions| ==> Working(actions[i])
    ensures |actions| + WorkLeft(t) <= WorkLeft(s) && t.lost == s.lost && WorkLeft(t) >= 0
    decreases |actions|
  {
    hide Apply, Enabled, WorkLeft, Words, HostView, HostOrder, Coverage, Registers, Kernels, Pipeline, Accounting;
    if actions != [] {
      WorkRanks(s, actions[0]);
      StepKeepsInv(s, actions[0]);
      WorkIsBounded(Apply(s, actions[0]), actions[1..], t);
    } else {
      WorkIsNat(s);
    }
  }

  lemma WorkIsNat(s: State)
    requires RingOrder(s.gpu, s.book)
    ensures WorkLeft(s) >= 0
  {
  }

  /** Nothing that the GPU or the watcher could do is left. */
  ghost predicate Rested(s: State) { forall a :: Working(a) ==> !Enabled(s, a) }

  lemma RestedIsDone(t: State)
    requires Reachable(t) && !t.lost && Rested(t)
    ensures t.gpu.ring == [] && t.gpu.inflight == {}
  {
    hide Reachable, Inv;
    ReachableInv(t);
    NextPacketCanGo(t);
    if Stalled(t.gpu, t.book.done) {
      var a := StalledCanStep(t);
    }
    if t.gpu.inflight != {} {
      var k :| k in t.gpu.inflight;
      RetireIsEnabled(t, k);
    }
  }

  lemma NextPacketCanGo(t: State)
    requires Inv(t)
    ensures t.gpu.ring != [] && !Stalled(t.gpu, t.book.done) ==> Enabled(t, Fetch)
  {
  }

  lemma {:induction false} WorkAcceptsNothing(before: seq<Action>, actions: seq<Action>)
    requires forall i :: 0 <= i < |actions| ==> Working(actions[i])
    ensures Accepted(before + actions) == Accepted(before)
    decreases |actions|
  {
    if actions == [] {
      assert before + actions == before;
    } else {
      var n := |actions| - 1;
      WorkAcceptsNothing(before, actions[..n]);
      AcceptMore(before + actions[..n], actions[n]);
      assert before + actions == before + actions[..n] + [actions[n]];
    }
  }

  lemma {:induction false} RunAppend(s: State, a: seq<Action>, m: State, b: seq<Action>, t: State)
    requires Runs(s, a, m) && Runs(m, b, t)
    ensures Runs(s, a + b, t)
    decreases |a|
  {
    hide Apply, Enabled;
    if a == [] {
      assert a + b == b;
    } else {
      RunAppend(Apply(s, a[0]), a[1..], m, b, t);
      assert (a + b)[1..] == a[1..] + b;
    }
  }

  /** As long as no request is lost, every schedule of the GPU and the watcher is bounded, and one that goes on while it
      can ends with every dispatch accepted launched, in order, and all kernels retired. */
  lemma EveryDispatchLaunches(actions: seq<Action>, t: State, work: seq<Action>, u: State)
    requires Runs(Init(), actions, t) && !t.lost && Runs(t, work, u)
    requires forall i :: 0 <= i < |work| ==> Working(work[i])
    ensures |work| <= WorkLeft(t)
    ensures Rested(u) ==> NeedsOf(Launches(Init(), actions + work)) == Accepted(actions) && u.gpu.inflight == {}
  {
    hide Init, Runs, WorkLeft, Inv, Rested;
    assert Reachable(t);
    ReachableInv(t);
    WorkIsBounded(t, work, u);
    RunAppend(Init(), actions, t, work, u);
    LaunchedInOrder(actions + work, u);
    WorkAcceptsNothing(actions, work);
    if Rested(u) {
      assert Reachable(u);
      RestedIsDone(u);
      assert NeedsOf(Launches(Init(), actions + work)) + [] == NeedsOf(Launches(Init(), actions + work));
    }
  }

  // ----- without growth nothing waits -----

  /** With all requests answered and no need above the region's, nothing changes but the kernels that come and go. */
  ghost predicate Steady(s: State, t: State) {
    && t.mem == s.mem && t.book.pushed == s.book.pushed && t.book.seqNo == t.book.done
    && (!t.host.Idle? ==> t.host.need <= s.mem.perThread && !t.host.NeedsResize?)
    && !HostResizing(t.host) && ((t.host.Checked? || t.host.HaveVa? || t.host.HaveTmpring?) ==> !t.host.stall)
    && forall j :: j in t.gpu.ring && j !in s.gpu.ring ==> !j.stall
  }

  lemma StepKeepsSteady(s: State, t: State, a: Action)
    requires Inv(t) && Steady(s, t) && Enabled(t, a) && (a.Begin? ==> a.need <= s.mem.perThread)
    ensures Steady(s, Apply(t, a))
  {
    hide RingOrder, Pipeline, Words, HostView, HostOrder, Coverage, Registers, Kernels, Packets;
    var u := Apply(t, a);
    forall j | j in u.gpu.ring && j !in s.gpu.ring ensures !j.stall {
      assert j in t.gpu.ring || a.Submit?;
    }
  }

  lemma {:induction false} RunKeepsSteady(s: State, t: State, actions: seq<Action>, u: State)
    requires Inv(t) && Steady(s, t) && Runs(t, actions, u)
    requires forall i :: 0 <= i < |actions| && actions[i].Begin? ==> actions[i].need <= s.mem.perThread
    ensures Inv(u) && Steady(s, u)
    decreases |actions|
  {
    hide Inv, Steady, Apply, Enabled;
    if actions != [] {
      StepKeepsSteady(s, t, actions[0]);
      StepKeepsInv(t, actions[0]);
      RunKeepsSteady(s, Apply(t, actions[0]), actions[1..], u);
    }
  }

  /** Once all requests are answered, dispatches that need no more than the region has leave it alone: no request is
      queued, no dispatch waits, and the command processor never stalls. */
  lemma FittingDispatchesNeverWait(s: State, actions: seq<Action>, t: State)
    requires Reachable(s) && s.host.Idle? && s.book.seqNo == s.book.done && Runs(s, actions, t)
    requires forall i :: 0 <= i < |actions| && actions[i].Begin? ==> actions[i].need <= s.mem.perThread
    ensures t.mem == s.mem && t.book.pushed == s.book.pushed && !Stalled(t.gpu, t.book.done)
    ensures forall j :: j in t.gpu.ring && j !in s.gpu.ring ==> !j.stall
  {
    hide Reachable, Runs;
    ReachableInv(s);
    RunKeepsSteady(s, s, actions, t);
    NothingOpen(t);
  }

  lemma NothingOpen(t: State)
    requires RingOrder(t.gpu, t.book) && t.book.seqNo == t.book.done
    ensures !Stalled(t.gpu, t.book.done)
  {
    assert t.gpu.ring != [] ==> JobFits(t.book, t.gpu.ring[0]);
  }

  // ----- a failed allocation is reported -----

  /** Once an error is set it stays, and no dispatch gets past it. */
  lemma {:induction false} ErrorStays(s: State, actions: seq<Action>, t: State)
    requires s.mem.error && s.host.Idle? && Runs(s, actions, t)
    ensures t.mem.error && t.host.Idle? && forall i :: 0 <= i < |actions| ==> !actions[i].Begin?
    decreases |actions|
  {
    if actions != [] {
      var m := Apply(s, actions[0]);
      assert m.mem.error && m.host.Idle? && !actions[0].Begin?;
      hide Apply, Enabled;
      ErrorStays(m, actions[1..], t);
      assert forall i :: 0 < i < |actions| ==> actions[i] == actions[1..][i - 1];
    }
  }
}
