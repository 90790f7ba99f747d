/** Exactly when the GPU and the watcher alone get a resizing dispatch past its wait, requests lost or not: after a loss
    the handler has more than one request to answer, and answers one a wakeup. */
module ScratchWakes {
  import opened Util
  import opened ScratchMachine
  import opened ScratchInvariant
  import opened ScratchProgress
  import opened ScratchStall

  /** Stalled at the wait for its own request. */
  predicate Waits(s: State) { Stalled(s.gpu, s.book.done) && s.gpu.ring[0].resize }

  /** The requests the handler has to answer before the wait is met. */
  function Owed(s: State): nat
    requires Waits(s)
  {
    s.gpu.ring[0].seqNo - s.book.done
  }

  ghost predicate AllBackground(actions: seq<Action>) {
    forall i :: 0 <= i < |actions| ==> Background(actions[i])
  }

  /** The call of the handler under way will answer a request. */
  predicate Serves(h: Handler, done: nat) {
    h.Woken? || ((h.GotReady? || h.GotBoth?) && h.ready > done) || h.Holding()
  }

  /** How many end-of-pipe writes land before `scratch_ready` does. */
  function BeforeReady(eops: seq<Eop>): (n: nat)
    ensures n <= |eops| && (HasReady(eops) ==> n < |eops| && eops[n].Ready?)
  {
    if eops == [] || eops[0].Ready? then 0 else 1 + BeforeReady(eops[1..])
  }

  function One(b: bool): nat { if b then 1 else 0 }

  /** The most calls that can still answer. Before `scratch_ready` has landed a wakeup is of use only if it is kept for
      later, and two can be: by a handler not yet past its first load, and by the event. */
  function Calls(s: State): nat {
    var n := BeforeReady(s.gpu.eops);
    if HasReady(s.gpu.eops) then
      Min(2, One(s.handler.Woken?) + One(s.eventPending) + n) + (|s.gpu.eops| - 1 - n)
    else
      One(Serves(s.handler, s.book.done)) + One(s.eventPending) + |s.gpu.eops|
  }

  /** The fewest: events that land before the watcher gets to run wake it once. */
  function SureCalls(s: State): nat {
    if HasReady(s.gpu.eops) then
      One(BeforeReady(s.gpu.eops) + 1 < |s.gpu.eops|)
    else
      One(Serves(s.handler, s.book.done)) + One(s.eventPending || s.gpu.eops != [])
  }

  /** What the invariant says at such a wait. */
  lemma AtItsWait(s: State)
    requires Inv(s) && Waits(s)
    ensures !HasReady(s.gpu.eops) && !s.handler.Holding() ==> s.book.requests != []
    ensures s.handler.GotBoth? ==> s.handler.done == s.book.done
    ensures HasReady(s.gpu.eops) ==> s.book.done == s.book.ready
    ensures HasReady(s.gpu.eops) && Serves(s.handler, s.book.done) ==> s.handler.Woken?
    ensures !HasReady(s.gpu.eops) ==> s.book.done < s.book.ready && s.gpu.inflight == {}
    ensures forall i, j :: 0 <= i < j < |s.gpu.eops| && s.gpu.eops[i].Ready? ==> !s.gpu.eops[j].Ready?
  {
    hide RingOrder, Words, HostView, HostOrder, Coverage, Registers, Kernels;
    assert AtWait(s.gpu);
  }

  /** The writes still in flight once the first has landed. */
  lemma NextLands(eops: seq<Eop>)
    requires eops != []
    requires forall i, j :: 0 <= i < j < |eops| && eops[i].Ready? ==> !eops[j].Ready?
    ensures eops[0].Ready? ==> HasReady(eops) && BeforeReady(eops) == 0 && !HasReady(eops[1..])
    ensures eops[0].Event? ==> HasReady(eops[1..]) == HasReady(eops) && BeforeReady(eops) == 1 + BeforeReady(eops[1..])
  {
    assert forall i :: 0 < i < |eops| ==> eops[i] == eops[1..][i - 1];
  }

  // ----- no step adds calls, and none takes a sure one away -----

  /** Requests answered and calls left to answer more. */
  function Most(s: State): nat { s.book.done + Calls(s) }

  function Sure(s: State): nat { s.book.done + SureCalls(s) }

  lemma LandBounds(s: State)
    requires Inv(s) && Waits(s) && Enabled(s, Land)
    ensures Most(Apply(s, Land)) <= Most(s) && Sure(s) <= Sure(Apply(s, Land))
    ensures s.gpu.eops[0].Event? || (s.handler.Asleep? && !s.eventPending) ==> Sure(s) == Sure(Apply(s, Land))
    ensures s.gpu.eops[0].Ready? || !s.eventPending || (HasReady(s.gpu.eops) && s.handler.Woken?) ==>
              Most(Apply(s, Land)) == Most(s)
  {
    hide Inv;
    AtItsWait(s);
    NextLands(s.gpu.eops);
  }

  lemma WakeBounds(s: State)
    requires Inv(s) && Waits(s) && Enabled(s, Wake)
    ensures Most(Apply(s, Wake)) == Most(s) && Sure(s) <= Sure(Apply(s, Wake))
    ensures HasReady(s.gpu.eops) || s.gpu.eops == [] ==> Sure(Apply(s, Wake)) == Sure(s)
  {
  }

  lemma HandleBounds(s: State)
    requires Inv(s) && Waits(s) && Enabled(s, Handle)
    ensures Most(Apply(s, Handle)) <= Most(s) && Sure(s) == Sure(Apply(s, Handle))
    ensures !(HasReady(s.gpu.eops) && s.handler.Woken?) ==> Most(Apply(s, Handle)) == Most(s)
  {
    hide Inv, Rebuild;
    AtItsWait(s);
    if s.handler.Holding() && !s.handler.Finishing? {
      StillHolding(s.mem, s.handler);
    }
  }

  lemma StillHolding(m: Mem, h: Handler)
    requires h.Holding() && !h.Finishing? && !h.Allocating?
    ensures Rebuild(m, h).1.Holding()
  {
  }

  lemma AllocBounds(s: State, a: Action)
    requires Enabled(s, a) && (a.AllocOk? || a.AllocFails? || a.Retire?)
    ensures Most(Apply(s, a)) == Most(s) && Sure(s) == Sure(Apply(s, a))
  {
  }

  lemma BackgroundBounds(s: State, a: Action)
    requires Inv(s) && Waits(s) && Enabled(s, a) && Background(a)
    ensures Most(Apply(s, a)) <= Most(s) && Sure(s) <= Sure(Apply(s, a))
    ensures Apply(s, a).gpu.ring == s.gpu.ring && Apply(s, a).gpu.ip == s.gpu.ip
  {
    hide Inv, Most, Sure, Waits, Rank;
    BackgroundRanks(s, a);
    match a
    case Land => LandBounds(s);
    case Wake => WakeBounds(s);
    case Handle => HandleBounds(s);
    case _ => AllocBounds(s, a);
  }

  lemma {:induction false} DoneGrows(s: State, actions: seq<Action>, u: State)
    requires Runs(s, actions, u) && AllBackground(actions)
    ensures s.book.done <= u.book.done && u.gpu.ring == s.gpu.ring && u.gpu.ip == s.gpu.ip
    decreases |actions|
  {
    hide Rank, Enabled;
    if actions != [] {
      BackgroundRanks(s, actions[0]);
      DoneGrows(Apply(s, actions[0]), actions[1..], u);
    }
  }

  /** A run past the wait needs that many calls. */
  lemma {:induction false} PassingNeedsCalls(s: State, actions: seq<Action>, u: State)
    requires Inv(s) && Waits(s) && Runs(s, actions, u) && AllBackground(actions)
    ensures !Stalled(u.gpu, u.book.done) ==> Owed(s) <= Calls(s)
    decreases |actions|
  {
    hide Inv, Apply, Enabled, Calls, SureCalls;
    if actions != [] {
      var t := Apply(s, actions[0]);
      BackgroundBounds(s, actions[0]);
      StepKeepsInv(s, actions[0]);
      if Waits(t) {
        PassingNeedsCalls(t, actions[1..], u);
      }
    }
  }

  /** Nothing in the background is left to run. */
  ghost predicate Quiet(s: State) { forall a :: Background(a) ==> !Enabled(s, a) }

  lemma QuietIff(s: State)
    ensures Quiet(s) <==> s.gpu.inflight == {} && s.gpu.eops == [] && s.handler.Asleep? && !s.eventPending
  {
    if s.gpu.inflight != {} {
      var k :| k in s.gpu.inflight;
      RetireIsEnabled(s, k);
    } else if !(s.gpu.eops == [] && s.handler.Asleep? && !s.eventPending) {
      NextIsEnabled(s);
    }
  }

  /** With that many sure calls every run that goes on for as long as it can gets past the wait. */
  lemma {:induction false} SureCallsPass(s: State, actions: seq<Action>, u: State)
    requires Inv(s) && Waits(s) && Runs(s, actions, u) && AllBackground(actions) && Quiet(u)
    ensures Owed(s) <= SureCalls(s) ==> !Stalled(u.gpu, u.book.done)
    decreases |actions|
  {
    hide Inv, Apply, Enabled, Quiet;
    if actions == [] {
      QuietIff(s);
    } else {
      var t := Apply(s, actions[0]);
      BackgroundBounds(s, actions[0]);
      StepKeepsInv(s, actions[0]);
      if Waits(t) {
        SureCallsPass(t, actions[1..], u);
      } else {
        DoneGrows(t, actions[1..], u);
      }
    }
  }

  // ----- a schedule that wastes no call, and one that answers none it need not -----

  /** The next write can land without a wakeup being lost, and the handler need not run first. */
  predicate LandingKeeps(s: State)
    requires s.gpu.eops != []
  {
    if HasReady(s.gpu.eops) then s.gpu.eops[0].Ready? || !s.eventPending || s.handler.Woken?
    else !s.eventPending && s.handler.Asleep?
  }

  /** A step that loses none. */
  lemma KeepCalls(s: State) returns (a: Action)
    requires Inv(s) && Waits(s) && Owed(s) <= Calls(s)
    ensures Background(a) && Enabled(s, a) && Most(Apply(s, a)) == Most(s)
  {
    hide Inv, Apply, BeforeReady;
    AtItsWait(s);
    if s.gpu.inflight != {} {
      var k :| k in s.gpu.inflight;
      a := Retire(k);
      AllocBounds(s, a);
    } else if s.gpu.eops != [] && LandingKeeps(s) {
      a := Land;
      LandBounds(s);
    } else if s.handler.Asleep? {
      a := Wake;
      WakeBounds(s);
    } else if s.handler.Allocating? {
      a := AllocFails;
      AllocBounds(s, a);
    } else {
      a := Handle;
      HandleBounds(s);
    }
  }

  /** The handler runs to its end before `scratch_ready` lands, and all writes land before it runs again. */
  lemma WasteCalls(s: State) returns (a: Action)
    requires Inv(s) && Waits(s) && !Quiet(s)
    ensures Background(a) && Enabled(s, a) && Sure(Apply(s, a)) == Sure(s)
  {
    hide Inv, Apply, BeforeReady, Quiet;
    AtItsWait(s);
    QuietIff(s);
    if s.gpu.inflight != {} {
      var k :| k in s.gpu.inflight;
      a := Retire(k);
      AllocBounds(s, a);
    } else if s.gpu.eops != [] && (s.gpu.eops[0].Event? || (s.handler.Asleep? && !s.eventPending)) {
      a := Land;
      LandBounds(s);
    } else if s.handler.Asleep? {
      a := Wake;
      WakeBounds(s);
    } else if s.handler.Allocating? {
      a := AllocFails;
      AllocBounds(s, a);
    } else {
      a := Handle;
      HandleBounds(s);
    }
  }

  lemma {:induction false} EnoughCallsPass(s: State) returns (actions: seq<Action>, u: State)
    requires Inv(s) && Waits(s) && Owed(s) <= Calls(s)
    ensures Runs(s, actions, u) && AllBackground(actions) && !Stalled(u.gpu, u.book.done)
    decreases Rank(s)
  {
    hide Inv, Apply, Enabled, Rank, Calls, Background;
    var a := KeepCalls(s);
    BackgroundRanks(s, a);
    StepKeepsInv(s, a);
    var t := Apply(s, a);
    if Waits(t) {
      var rest;
      rest, u := EnoughCallsPass(t);
      actions := [a] + rest;
      assert actions[1..] == rest;
    } else {
      actions, u := [a], t;
      assert Runs(t, actions[1..], u);
    }
  }

  lemma {:induction false} FewSureCallsStay(s: State) returns (actions: seq<Action>, u: State)
    requires Inv(s) && Waits(s) && SureCalls(s) < Owed(s)
    ensures Runs(s, actions, u) && AllBackground(actions) && Quiet(u) && Stalled(u.gpu, u.book.done)
    decreases Rank(s)
  {
    hide Inv, Apply, Enabled, Rank, SureCalls, Background, Quiet;
    if Quiet(s) {
      actions, u := [], s;
    } else {
      var a := WasteCalls(s);
      BackgroundRanks(s, a);
      StepKeepsInv(s, a);
      var t := Apply(s, a);
      var rest;
      rest, u := FewSureCallsStay(t);
      actions := [a] + rest;
      assert actions[1..] == rest;
    }
  }

  // ----- the two conditions -----

  /** Some schedule of background steps gets a resizing dispatch past its wait if and only if as many calls as it is
      owed can still answer. */
  lemma MayPassIff(t: State)
    requires Reachable(t) && Waits(t)
    ensures Owed(t) <= Calls(t) <==>
            exists actions, u :: Runs(t, actions, u) && AllBackground(actions) && !Stalled(u.gpu, u.book.done)
  {
    hide Inv, Reachable, Runs, AllBackground, Calls, Owed;
    ReachableInv(t);
    if Owed(t) <= Calls(t) {
      var actions, u := EnoughCallsPass(t);
    } else {
      forall actions, u | Runs(t, actions, u) && AllBackground(actions) ensures Stalled(u.gpu, u.book.done) {
        PassingNeedsCalls(t, actions, u);
      }
    }
  }

  /** Every schedule that goes on for as long as it can does if and only if as many calls are sure to. */
  lemma MustPassIff(t: State)
    requires Reachable(t) && Waits(t)
    ensures Owed(t) <= SureCalls(t) <==>
            forall actions, u :: Runs(t, actions, u) && AllBackground(actions) && Quiet(u) ==>
              !Stalled(u.gpu, u.book.done)
  {
    hide Inv, Reachable, Runs, AllBackground, Quiet, SureCalls, Owed;
    ReachableInv(t);
    if Owed(t) <= SureCalls(t) {
      forall actions, u | Runs(t, actions, u) && AllBackground(actions) && Quiet(u)
        ensures !Stalled(u.gpu, u.book.done)
      {
        SureCallsPass(t, actions, u);
      }
    } else {
      var actions, u := FewSureCallsStay(t);
    }
  }

  /** Without a lost request one answer is owed, and one call is sure. */
  lemma OneIsOwed(t: State)
    requires Reachable(t) && !t.lost && Stalled(t.gpu, t.book.done)
    ensures Waits(t) && Owed(t) == 1 <= SureCalls(t) <= Calls(t)
  {
    hide *;
    ReachableLively(t);
    LivelyIsSure(t);
  }

  lemma LivelyIsSure(t: State)
    requires Inv(t) && Lively(t) && Stalled(t.gpu, t.book.done)
    ensures Waits(t) && Owed(t) == 1 <= SureCalls(t) <= Calls(t)
  {
    hide Words, HostView, HostOrder, Coverage, Registers, Kernels, RingOrder;
    StalledAtResize(t);
    ChainPops(t.gpu.ring, t.gpu.finished);
    if HasReady(t.gpu.eops) {
      assert t.gpu.eops[BeforeReady(t.gpu.eops)].Ready?;
    }
  }
}
