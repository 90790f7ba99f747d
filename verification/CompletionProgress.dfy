/** Whether the work on a completion queue comes to an end: every run is bounded, and exactly which rings can get stuck
    at a wait for a number that the EOP word has lost again. */
module CompletionProgress {
  import opened Util
  import opened CompletionQueue
  import opened Completion

  /** Nothing is left that the queue could do. */
  ghost predicate Stopped(q: Queue) { forall a :: !Enabled(q, a) }

  /** Everything submitted has been carried out, down to the last event. */
  ghost predicate Complete(q: Queue) {
    && q.at == |q.ops| && q.running == {} && q.releasing == {} && q.firing == {}
    && forall i :: IsSignal(q.ops, i) ==> i in q.fired
  }

  // ----- what a run keeps -----

  /** What is left of each signal: its first write is to come, or has been made; a signal past its wait without its
      write was let by by another's; every signal passed has its event on the way or fired. */
  ghost predicate Pending(q: Queue) {
    && Inv(q) && q.at <= |q.ops|
    && (q.writer.Some? ==> q.writer.value !in q.releasing)
    && (forall i :: i in q.releasing && Passed(q, i, 2) ==> Skips(q.ops, i))
    && (q.stage == 1 && q.at !in q.releasing ==>
          q.writer.Some? && (q.writer.value == q.at || Skips(q.ops, q.writer.value)))
    && (forall i :: Passed(q, i, 4) ==> i in q.firing || i in q.fired)
  }

  /** A wait met before the signal's own write was met by an earlier signal's. */
  lemma MetEarly(q: Queue)
    requires Pending(q) && q.stage == 1 && Enabled(q, Fetch) && q.at in q.releasing
    ensures Skips(q.ops, q.at)
  {
    if q.writer.Some? {
      MaxEopBounds(q.ops, q.at, q.writer.value);
    }
  }

  lemma StepKeepsPending(q: Queue, a: Action)
    requires Pending(q) && Enabled(q, a)
    ensures Pending(Apply(q, a)) && Apply(q, a).ops == q.ops
  {
    hide Inv, MaxEop, Eop;
    StepKeepsInv(q, a);
    PassedBounds(q);
    if a == Fetch && q.stage == 1 && q.at in q.releasing {
      MetEarly(q);
    }
    assert forall i :: Passed(Apply(q, a), i, 2) && !(a == Fetch && q.stage == 1 && i == q.at) ==> Passed(q, i, 2);
    assert forall i :: Passed(Apply(q, a), i, 4) && !(a == Fetch && i == q.at) ==> Passed(q, i, 4);
  }

  lemma PassedBounds(q: Queue)
    requires Inv(q)
    ensures q.stage <= 3 && (q.stage > 0 ==> IsSignal(q.ops, q.at))
    ensures forall i :: i in q.releasing ==> Passed(q, i, 1)
    ensures q.writer.Some? ==> Passed(q, q.writer.value, 1)
  {
  }

  lemma {:induction false} RunKeepsPending(q: Queue, actions: seq<Action>)
    requires Pending(q) && Run(q, actions).Some?
    ensures Pending(Run(q, actions).value) && Run(q, actions).value.ops == q.ops
  {
    hide Pending, Enabled, Apply;
    if actions != [] {
      RunKeepsPending(q, actions[..|actions| - 1]);
      StepKeepsPending(Run(q, actions[..|actions| - 1]).value, actions[|actions| - 1]);
    }
  }

  // ----- every run ends -----

  /** How many steps are left at most. */
  function Left(q: Queue): int {
    12 * (|q.ops| - q.at) - 2 * q.stage + |q.running| + |q.releasing| + |q.firing|
  }

  lemma StepLeft(q: Queue, a: Action)
    requires Pending(q) && Enabled(q, a)
    ensures Left(Apply(q, a)) < Left(q)
  {
  }

  lemma LeftIsNat(q: Queue)
    requires Pending(q)
    ensures Left(q) >= 0
  {
  }

  lemma {:induction false} RunIsBounded(q: Queue, actions: seq<Action>)
    requires Pending(q) && Run(q, actions).Some?
    ensures |actions| + Left(Run(q, actions).value) <= Left(q)
  {
    hide Pending, Enabled, Apply, Left;
    if actions != [] {
      RunIsBounded(q, actions[..|actions| - 1]);
      RunKeepsPending(q, actions[..|actions| - 1]);
      StepLeft(Run(q, actions[..|actions| - 1]).value, actions[|actions| - 1]);
    }
  }

  lemma StartPending(ops: seq<Op>)
    ensures Pending(Start(ops)) && Left(Start(ops)) == 12 * |ops|
  {
  }

  /** No run of a ring takes more than twelve steps for each operation. */
  lemma RunsEnd(ops: seq<Op>, actions: seq<Action>)
    requires Run(Start(ops), actions).Some?
    ensures |actions| <= 12 * |ops|
  {
    hide Pending, Run, Left;
    StartPending(ops);
    RunIsBounded(Start(ops), actions);
    RunKeepsPending(Start(ops), actions);
    LeftIsNat(Run(Start(ops), actions).value);
  }

  // ----- where it can end -----

  /** At the wait of a signal whose number the EOP word is below, with no write to come. */
  predicate Starved(q: Queue) {
    && q.running == {} && q.releasing == {} && q.firing == {}
    && q.stage == 1 && IsSignal(q.ops, q.at) && Eop(q) < EopOf(q.ops, q.at)
  }

  /** A queue that has stopped is complete or starved. */
  lemma StoppedIff(q: Queue)
    requires Pending(q)
    ensures Stopped(q) <==> Complete(q) || Starved(q)
  {
    hide Eop, MaxEop;
    if Stopped(q) {
      AllCarriedOut(q);
      assert !Enabled(q, Fetch);
      assert forall i :: q.at == |q.ops| && IsSignal(q.ops, i) ==> Passed(q, i, 4);
    }
  }

  lemma AllCarriedOut(q: Queue)
    requires Stopped(q)
    ensures q.running == {} && q.releasing == {} && q.firing == {}
  {
    if q.running != {} {
      var r :| r in q.running;
      assert Enabled(q, Retire(r));
    } else if q.releasing != {} {
      var i :| i in q.releasing;
      assert Enabled(q, WriteEop(i));
    } else if q.firing != {} {
      var i :| i in q.firing;
      assert Enabled(q, Fire(i));
    }
  }

  /** No signal whose wait may be met before its write is followed by one with a higher number. */
  ghost predicate Settled(ops: seq<Op>) {
    forall i: nat, j: nat :: i < j && Skips(ops, i) && IsSignal(ops, j) ==> EopOf(ops, j) <= EopOf(ops, i)
  }

  lemma SettledIsNotStarved(q: Queue)
    requires Pending(q) && Settled(q.ops)
    ensures !Starved(q)
  {
    hide MaxEop;
    PassedBounds(q);
  }

  // ----- a ring that is not settled can get stuck -----

  /** Carry out every write but that of signal `i`, and then that. */
  lemma {:induction false} WriteLast(q0: Queue, before: seq<Action>, was: Queue, i: nat)
    returns (actions: seq<Action>, q: Queue)
    requires Run(q0, before) == Some(was) && was.running == {} && i in was.releasing
    ensures Run(q0, actions) == Some(q) && q == was.(releasing := {}, writer := Some(i))
    decreases |was.releasing|
  {
    hide Run, Eop;
    if k :| k in was.releasing && k != i {
      actions, q := Extend(q0, before, was, WriteEop(k));
      actions, q := WriteLast(q0, actions, q, i);
    } else {
      actions, q := Extend(q0, before, was, WriteEop(i));
      assert q.releasing == {};
    }
  }

  lemma {:induction false} FireAll(q0: Queue, before: seq<Action>, was: Queue)
    returns (actions: seq<Action>, q: Queue)
    requires Run(q0, before) == Some(was) && was.running == {}
    ensures Run(q0, actions) == Some(q) && q == was.(firing := {}, fired := q.fired)
    decreases |was.firing|
  {
    hide Run, Eop;
    if k :| k in was.firing {
      actions, q := Extend(q0, before, was, Fire(k));
      actions, q := FireAll(q0, actions, q);
    } else {
      actions, q := before, was;
    }
  }

  lemma UnsettledStarves(ops: seq<Op>) returns (actions: seq<Action>)
    requires !Settled(ops)
    ensures Run(Start(ops), actions).Some? && Starved(Run(Start(ops), actions).value)
  {
    hide Run, MaxEop;
    var i: nat, j: nat :| i < j && Skips(ops, i) && IsSignal(ops, j) && EopOf(ops, i) < EopOf(ops, j);
    var q: Queue;
    actions, q := LazyRun(ops, j);
    actions, q := Extend(Start(ops), actions, q, Fetch);
    actions, q := WriteLast(Start(ops), actions, q, i);
    actions, q := FireAll(Start(ops), actions, q);
  }

  /** Every run of a ring that has stopped has carried out everything if and only if no signal whose number is not above
      all numbers before it is followed by a signal with a higher number. */
  lemma CompletesIff(ops: seq<Op>)
    ensures Settled(ops) <==>
            forall actions :: Run(Start(ops), actions).Some? && Stopped(Run(Start(ops), actions).value) ==>
              Complete(Run(Start(ops), actions).value)
  {
    hide Run, Pending, Stopped, Complete, Settled, Starved;
    StartPending(ops);
    if Settled(ops) {
      forall actions | Run(Start(ops), actions).Some? && Stopped(Run(Start(ops), actions).value)
        ensures Complete(Run(Start(ops), actions).value)
      {
        RunKeepsPending(Start(ops), actions);
        StoppedIff(Run(Start(ops), actions).value);
        SettledIsNotStarved(Run(Start(ops), actions).value);
      }
    } else {
      var actions := UnsettledStarves(ops);
      RunKeepsPending(Start(ops), actions);
      StoppedIff(Run(Start(ops), actions).value);
      NotBoth(Run(Start(ops), actions).value);
    }
  }

  lemma NotBoth(q: Queue)
    ensures !(Complete(q) && Starved(q))
  {
  }

  // ----- whose rings are settled -----

  /** Numbers drawn one at a time leave no run stuck. */
  lemma OneSubmitterCompletes(calls: seq<Call>, actions: seq<Action>)
    requires Submitted(calls, true).Some? && Run(Start(Submitted(calls, true).value.ops), actions).Some?
    requires Stopped(Run(Start(Submitted(calls, true).value.ops), actions).value)
    ensures Complete(Run(Start(Submitted(calls, true).value.ops), actions).value)
  {
    hide Submitted, Run, Stopped, Complete, Increasing, MaxEop;
    var ops := Submitted(calls, true).value.ops;
    AloneIncreases(calls);
    forall i: nat | IsSignal(ops, i) ensures !Skips(ops, i) {
      MaxEopBelow(ops, i, i);
    }
    CompletesIff(ops);
  }

  /** Three threads: the first two numbers are submitted in the opposite order, then the third. */
  const RACE_OF_THREE: seq<Call> :=
    [Draw, Draw, SubmitSignal(2, 0), SubmitSignal(1, 1), Draw, SubmitSignal(3, 2)]

  /** The race is possible, and some run of its ring then starves. */
  lemma RaceCanStarve() returns (actions: seq<Action>)
    ensures Submitted(RACE_OF_THREE, false).Some?
    ensures Run(Start(Submitted(RACE_OF_THREE, false).value.ops), actions).Some?
    ensures Starved(Run(Start(Submitted(RACE_OF_THREE, false).value.ops), actions).value)
  {
    hide Submitted, Run, Starved;
    var ops := [Signal(2, 0), Signal(1, 1), Signal(3, 2)];
    RaceOfThreeSubmits();
    assert MaxEop(ops, 1) == 2;
    assert Skips(ops, 1) && IsSignal(ops, 2) && EopOf(ops, 1) < EopOf(ops, 2);
    actions := UnsettledStarves(ops);
  }

  lemma RaceOfThreeSubmits()
    ensures Submitted(RACE_OF_THREE, false).Some?
    ensures Submitted(RACE_OF_THREE, false).value.ops == [Signal(2, 0), Signal(1, 1), Signal(3, 2)]
  {
    hide Submitted;
    var none: set<nat> := {};
    assert none + {1} == {1} && {1} + {2} == {1, 2} && {1, 2} - {2} == {1} && {1} - {1} == none && none + {3} == {3};
    NothingSubmittedYet();
    SubmitMore([], Draw, false);
    assert [] + [Draw] == RACE_OF_THREE[..1];
    SubmitMore(RACE_OF_THREE[..1], Draw, false);
    assert RACE_OF_THREE[..1] + [Draw] == RACE_OF_THREE[..2];
    SubmitMore(RACE_OF_THREE[..2], RACE_OF_THREE[2], false);
    assert RACE_OF_THREE[..2] + [RACE_OF_THREE[2]] == RACE_OF_THREE[..3];
    SubmitMore(RACE_OF_THREE[..3], RACE_OF_THREE[3], false);
    assert RACE_OF_THREE[..3] + [RACE_OF_THREE[3]] == RACE_OF_THREE[..4];
    SubmitMore(RACE_OF_THREE[..4], RACE_OF_THREE[4], false);
    assert RACE_OF_THREE[..4] + [RACE_OF_THREE[4]] == RACE_OF_THREE[..5];
    SubmitMore(RACE_OF_THREE[..5], RACE_OF_THREE[5], false);
    assert RACE_OF_THREE[..5] + [RACE_OF_THREE[5]] == RACE_OF_THREE;
  }

  lemma NothingSubmittedYet()
    ensures Submitted([], false) == Some(Submitter(0, {}, []))
  {
  }

  // ----- when end-of-pipe writes land in ring order -----

  /** The first writes of signals are carried out in ring order. */
  predicate InOrder(q: Queue, a: Action) { a.WriteEop? ==> forall k :: k in q.releasing ==> a.i <= k }

  ghost predicate RunInOrder(q: Queue, actions: seq<Action>) {
    actions == [] ||
    var m := Run(q, actions[..|actions| - 1]);
    m.Some? && RunInOrder(q, actions[..|actions| - 1]) && InOrder(m.value, actions[|actions| - 1])
  }

  /** Then a signal's write is the last made when its wait is met by it. */
  ghost predicate Straight(q: Queue) {
    q.stage == 1 && q.at !in q.releasing ==> q.releasing == {} && q.writer == Some(q.at)
  }

  lemma StepKeepsStraight(q: Queue, a: Action)
    requires Inv(q) && Straight(q) && Enabled(q, a) && InOrder(q, a)
    ensures Straight(Apply(q, a))
  {
    hide Inv;
    PassedBounds(q);
  }

  lemma {:induction false} RunKeepsStraight(q: Queue, actions: seq<Action>)
    requires Inv(q) && Straight(q) && Run(q, actions).Some? && RunInOrder(q, actions)
    ensures Straight(Run(q, actions).value)
  {
    hide Inv, Straight, Enabled, Apply, InOrder;
    if actions != [] {
      RunKeepsStraight(q, actions[..|actions| - 1]);
      RunKeepsInv(q, actions[..|actions| - 1]);
      StepKeepsStraight(Run(q, actions[..|actions| - 1]).value, actions[|actions| - 1]);
    }
  }

  lemma {:induction false} Least(s: set<nat>) returns (m: nat)
    requires s != {}
    ensures m in s && forall k :: k in s ==> m <= k
    decreases |s|
  {
    var k: nat :| k in s;
    m := k;
    if s != {k} {
      var rest := Least(s - {k});
      m := Min(k, rest);
      assert forall j :: j in s ==> j == k || j in s - {k};
    }
  }

  /** On any ring at all, a run with these writes in ring order that cannot go on has carried out everything. */
  lemma InOrderCompletes(ops: seq<Op>, actions: seq<Action>)
    requires Run(Start(ops), actions).Some? && RunInOrder(Start(ops), actions)
    requires var q := Run(Start(ops), actions).value; forall a :: Enabled(q, a) ==> !InOrder(q, a)
    ensures Complete(Run(Start(ops), actions).value)
  {
    hide Run, Pending, Complete;
    var q := Run(Start(ops), actions).value;
    StartPending(ops);
    StartInv(ops);
    RunKeepsPending(Start(ops), actions);
    RunKeepsStraight(Start(ops), actions);
    StopsInOrder(q);
    StoppedIff(q);
  }

  lemma StopsInOrder(q: Queue)
    requires forall a :: Enabled(q, a) ==> !InOrder(q, a)
    ensures Stopped(q)
  {
    if q.running != {} {
      var r :| r in q.running;
      assert Enabled(q, Retire(r)) && InOrder(q, Retire(r));
    } else if q.releasing != {} {
      var i := Least(q.releasing);
      assert Enabled(q, WriteEop(i)) && InOrder(q, WriteEop(i));
    }
    assert forall a :: Enabled(q, a) ==> a.WriteEop? || InOrder(q, a);
  }
}
