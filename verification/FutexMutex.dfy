/** The three-state futex mutex (include/libkfd/detail/mutex.h, lib/detail/mutex.cpp), one atomic operation per
    step, for any number of threads. The kernel's wait queue is the set of threads whose pc is Sleeping. */
module FutexMutex {
  datatype Word = UNLOCKED | LOCKED | CONTENDED

  const SPIN_LIMIT: nat := 64

  /** Where a thread is.
      Fast: at the compare-exchange of `lock`.   Spin: at the top of the spin loop, with the last value seen.
      Swap: about to exchange CONTENDED in.      Futex: about to call FUTEX_WAIT.
      Sleeping: inside FUTEX_WAIT.               Owner: holds the lock.
      Owing: has unlocked a contended word and not yet called FUTEX_WAKE. */
  datatype Pc = Out | Fast | Spin(i: nat, expected: Word) | Swap | Futex | Sleeping | Owner | Owing

  datatype State = State(word: Word, pcs: map<nat, Pc>)

  datatype Action =
    | Lock(t: nat)                 // a thread enters lock()
    | Step(t: nat)                 // the next operation inside lock()
    | Unlock(t: nat)               // the exchange of unlock()
    | Wake(t: nat, sleeper: nat)   // FUTEX_WAKE of one waiter
    | WakeNobody(t: nat)           // FUTEX_WAKE with an empty queue
    | Spurious(t: nat)             // FUTEX_WAIT returns without a wake

  predicate At(s: State, t: nat, pc: Pc) {
    t in s.pcs && s.pcs[t] == pc
  }

  predicate InLock(s: State, t: nat) {
    t in s.pcs && (s.pcs[t].Fast? || s.pcs[t].Spin? || s.pcs[t].Swap? || s.pcs[t].Futex?)
  }

  predicate Enabled(s: State, a: Action) {
    match a
    case Lock(t) => At(s, t, Out)
    case Step(t) => InLock(s, t)
    case Unlock(t) => At(s, t, Owner)
    case Wake(t, sleeper) => At(s, t, Owing) && At(s, sleeper, Sleeping)
    case WakeNobody(t) => At(s, t, Owing) && forall u :: u in s.pcs ==> s.pcs[u] != Sleeping
    case Spurious(t) => At(s, t, Sleeping)
  }

  function Apply(s: State, a: Action): State
    requires Enabled(s, a)
  {
    match a
    case Lock(t) => Move(s, t, Fast)
    case Step(t) => LockStep(s, t)
    case Unlock(t) => State(UNLOCKED, s.pcs[t := if s.word == CONTENDED then Owing else Out])
    case Wake(t, sleeper) => State(s.word, s.pcs[t := Out][sleeper := Swap])
    case WakeNobody(t) => Move(s, t, Out)
    case Spurious(t) => Move(s, t, Swap)
  }

  function Move(s: State, t: nat, pc: Pc): State {
    State(s.word, s.pcs[t := pc])
  }

  function LockStep(s: State, t: nat): State
    requires InLock(s, t)
  {
    match s.pcs[t]
    case Fast => CompareExchange(s, t, 0)
    case Spin(i, expected) =>
      if i >= SPIN_LIMIT || expected == CONTENDED then Move(s, t, if expected != CONTENDED then Swap else Futex)
      else if expected == UNLOCKED then CompareExchange(s, t, i + 1)
      else Move(s, t, Spin(i + 1, s.word))
    case Swap => State(CONTENDED, s.pcs[t := if s.word == UNLOCKED then Owner else Futex])
    case Futex => Move(s, t, if s.word == CONTENDED then Sleeping else Swap)
  }

  /** Compare-exchange UNLOCKED to LOCKED; a failure goes (back) to the spin loop with the value seen. */
  function CompareExchange(s: State, t: nat, i: nat): State {
    if s.word == UNLOCKED then State(LOCKED, s.pcs[t := Owner]) else Move(s, t, Spin(i, s.word))
  }

  ghost predicate Initial(s: State) {
    s.word == UNLOCKED && forall t :: t in s.pcs ==> s.pcs[t] == Out
  }

  ghost predicate Runs(s: State, actions: seq<Action>, t: State)
    decreases |actions|
  {
    if actions == [] then s == t
    else Enabled(s, actions[0]) && Runs(Apply(s, actions[0]), actions[1..], t)
  }

  ghost predicate Reachable(t: State) {
    exists s, actions :: Initial(s) && Runs(s, actions, t)
  }

  // ----- invariant -----

  ghost predicate Exclusive(s: State) {
    forall t, u :: At(s, t, Owner) && At(s, u, Owner) ==> t == u
  }

  ghost predicate Someone(s: State, pc: Pc) {
    exists t :: At(s, t, pc)
  }

  /** The word tells whether the lock is owned, and a sleeper has someone to bring it back. */
  ghost predicate Inv(s: State) {
    && Exclusive(s)
    && (s.word == UNLOCKED <==> !Someone(s, Owner))
    && (Someone(s, Sleeping) ==> s.word == CONTENDED || Someone(s, Owing) || Someone(s, Swap))
  }

  /** The threads an action moves. */
  function Movers(a: Action): set<nat> {
    if a.Wake? then {a.t, a.sleeper} else {a.t}
  }

  lemma OthersStay(s: State, a: Action)
    requires Enabled(s, a)
    ensures forall u, q :: u !in Movers(a) ==> (At(Apply(s, a), u, q) <==> At(s, u, q))
  {
  }

  lemma StepKeepsOwnership(s: State, a: Action)
    requires Exclusive(s) && (s.word == UNLOCKED <==> !Someone(s, Owner)) && Enabled(s, a)
    ensures Exclusive(Apply(s, a))
    ensures Apply(s, a).word == UNLOCKED <==> !Someone(Apply(s, a), Owner)
  {
    OthersStay(s, a);
    var t := Apply(s, a);
    if Someone(s, Owner) {
      var o :| At(s, o, Owner);
      assert !a.Unlock? ==> At(t, o, Owner);
    }
    if Someone(t, Owner) {
      var o :| At(t, o, Owner);
      assert At(s, o, Owner) || o == a.t;
    }
    assert At(t, a.t, Owner) || !At(t, a.t, Owner);
  }

  /** A sleeper never becomes the only one left to act. */
  lemma StepKeepsWakers(s: State, a: Action)
    requires Inv(s) && Enabled(s, a) && Someone(Apply(s, a), Sleeping)
    ensures var t := Apply(s, a); t.word == CONTENDED || Someone(t, Owing) || Someone(t, Swap)
  {
    OthersStay(s, a);
    var t := Apply(s, a);
    var z :| At(t, z, Sleeping);
    if At(s, z, Sleeping) {
      if s.word == CONTENDED {
        assert a.Unlock? ==> At(t, a.t, Owing);
      } else if Someone(s, Owing) {
        var o :| At(s, o, Owing);
        assert if a.Wake? then At(t, a.sleeper, Swap) else At(t, o, Owing);
      } else {
        var x :| At(s, x, Swap);
        assert At(t, x, Swap) || t.word == CONTENDED;
      }
    }
  }

  lemma StepKeepsInv(s: State, a: Action)
    requires Inv(s) && Enabled(s, a)
    ensures Inv(Apply(s, a))
  {
    StepKeepsOwnership(s, a);
    if Someone(Apply(s, a), Sleeping) {
      StepKeepsWakers(s, a);
    }
  }

  lemma {:induction false} RunKeepsInv(s: State, actions: seq<Action>, t: State)
    requires Inv(s) && Runs(s, actions, t)
    ensures Inv(t)
    decreases |actions|
  {
    hide Inv;
    if actions != [] {
      StepKeepsInv(s, actions[0]);
      RunKeepsInv(Apply(s, actions[0]), actions[1..], t);
    }
  }

  lemma ReachableInv(t: State)
    requires Reachable(t)
    ensures Inv(t)
  {
    var s, actions :| Initial(s) && Runs(s, actions, t);
    assert Inv(s);
    RunKeepsInv(s, actions, t);
  }

  // ----- what the lock promises -----

  /** Mutual exclusion: at most one owner in every reachable state, and the word is never UNLOCKED under it. */
  lemma MutualExclusion(s: State, t: nat, u: nat)
    requires Reachable(s) && At(s, t, Owner)
    ensures s.word != UNLOCKED && (At(s, u, Owner) ==> u == t)
  {
    ReachableInv(s);
  }

  /** A thread becomes the owner only by an operation that finds the word UNLOCKED, when nobody owns it. */
  lemma AcquireFindsItFree(s: State, a: Action, t: nat)
    requires Reachable(s) && Enabled(s, a) && !At(s, t, Owner) && At(Apply(s, a), t, Owner)
    ensures a == Step(t) && s.word == UNLOCKED && forall u :: !At(s, u, Owner)
  {
    ReachableInv(s);
    OthersStay(s, a);
  }

  /** No lost wakeup: a sleeping thread always has somebody who will act for it. */
  lemma NoLostWakeup(s: State, t: nat)
    requires Reachable(s) && At(s, t, Sleeping)
    ensures s.word == CONTENDED || Someone(s, Owing) || Someone(s, Swap)
    ensures s.word == UNLOCKED ==> Someone(s, Owing) || Someone(s, Swap)
    ensures s.word == CONTENDED ==> Someone(s, Owner)
  {
    ReachableInv(s);
  }

  // ----- what a call of lock does -----

  /** Inside a call of lock(). */
  predicate Inside(s: State, t: nat) { InLock(s, t) || At(s, t, Sleeping) }

  /** A call of lock() goes on, whatever anybody does, until its thread is the owner: it never returns without the
      lock. */
  lemma LockReturnsOwning(s: State, a: Action, t: nat)
    requires Enabled(s, a) && Inside(s, t)
    ensures Inside(Apply(s, a), t) || At(Apply(s, a), t, Owner)
  {
  }

  /** The latest of thread `t`'s calls is a lock(). */
  predicate Locked(actions: seq<Action>, t: nat) {
    actions != [] &&
    var a := actions[|actions| - 1];
    a == Lock(t) || (a != Unlock(t) && Locked(actions[..|actions| - 1], t))
  }

  /** In every run a thread is inside lock() or the owner exactly when the latest of its calls is a lock(). */
  lemma {:induction false} InsideOrOwning(s: State, actions: seq<Action>, u: State, t: nat)
    requires Initial(s) && Runs(s, actions, u)
    ensures Locked(actions, t) <==> Inside(u, t) || At(u, t, Owner)
    decreases |actions|
  {
    if actions != [] {
      var n := |actions| - 1;
      var m := LastStep(s, actions, u);
      InsideOrOwning(s, actions[..n], m, t);
      OthersStay(m, actions[n]);
    }
  }

  lemma {:induction false} LastStep(s: State, actions: seq<Action>, u: State) returns (m: State)
    requires Runs(s, actions, u) && actions != []
    ensures var n := |actions| - 1; Runs(s, actions[..n], m) && Enabled(m, actions[n]) && u == Apply(m, actions[n])
    decreases |actions|
  {
    hide Enabled, Apply;
    if |actions| == 1 {
      m := s;
      assert Runs(u, actions[1..], u);
    } else {
      m := LastStep(Apply(s, actions[0]), actions[1..], u);
      assert actions[..|actions| - 1][1..] == actions[1..][..|actions| - 2];
    }
  }

  lemma {:induction false} Prepend(s: State, a: Action, rest: seq<Action>, t: State)
    requires Enabled(s, a) && Runs(Apply(s, a), rest, t)
    ensures Runs(s, [a] + rest, t)
  {
    assert ([a] + rest)[1..] == rest;
  }

  /** Operations of thread `t` alone. */
  ghost predicate Alone(actions: seq<Action>, t: nat) { forall i :: 0 <= i < |actions| ==> actions[i] == Step(t) }

  lemma StepAlone(s: State, rest: seq<Action>, u: State, t: nat) returns (actions: seq<Action>)
    requires InLock(s, t) && Runs(Apply(s, Step(t)), rest, u) && Alone(rest, t)
    ensures Runs(s, actions, u) && Alone(actions, t) && |actions| == |rest| + 1
  {
    Prepend(s, Step(t), rest, u);
    actions := [Step(t)] + rest;
  }

  /** A thread inside lock() that nobody interferes with takes a free lock within three operations. */
  lemma {:induction false} FreeLockIsTaken(s: State, t: nat, n: nat) returns (actions: seq<Action>, u: State)
    requires InLock(s, t) && s.word == UNLOCKED && n == ToOwner(s.pcs[t])
    ensures Runs(s, actions, u) && Alone(actions, t) && At(u, t, Owner) && |actions| <= n <= 3
    decreases n
  {
    var m := Apply(s, Step(t));
    var rest := [];
    u := m;
    if !At(m, t, Owner) {
      rest, u := FreeLockIsTaken(m, t, ToOwner(m.pcs[t]));
    }
    actions := StepAlone(s, rest, u, t);
  }

  /** How many operations that takes at most. */
  function ToOwner(pc: Pc): nat {
    match pc
    case Fast => 1
    case Spin(i, expected) =>
      if expected == CONTENDED then 3 else if i >= SPIN_LIMIT then 2 else if expected == LOCKED then 3 else 1
    case Futex => 2
    case _ => 1
  }

  /** With the lock held and nobody else acting it is asleep after a bounded spin, with the word telling the owner. */
  lemma {:induction false} HeldLockIsSleptOn(s: State, t: nat, n: nat) returns (actions: seq<Action>, u: State)
    requires InLock(s, t) && s.word != UNLOCKED && n == ToSleep(s.pcs[t], s.word)
    ensures Runs(s, actions, u) && Alone(actions, t) && At(u, t, Sleeping) && u.word == CONTENDED
    ensures |actions| <= n <= SPIN_LIMIT + 5
    decreases n
  {
    var m := Apply(s, Step(t));
    var rest := [];
    u := m;
    if !At(m, t, Sleeping) {
      rest, u := HeldLockIsSleptOn(m, t, ToSleep(m.pcs[t], m.word));
    }
    actions := StepAlone(s, rest, u, t);
  }

  function ToSleep(pc: Pc, word: Word): nat {
    match pc
    case Fast => SPIN_LIMIT + 5
    case Spin(i, _) => if i >= SPIN_LIMIT then 4 else SPIN_LIMIT - i + 4
    case Swap => 2
    case Futex => if word == CONTENDED then 1 else 3
    case _ => 0
  }

  /** Without contention lock and unlock are one operation each and leave everything as it was. */
  lemma UncontendedIsFast(s: State, t: nat)
    requires Reachable(s) && t in s.pcs && forall u :: u in s.pcs ==> s.pcs[u] == Out
    ensures Runs(s, [Lock(t), Step(t), Unlock(t)], s)
  {
    ReachableInv(s);
    var a := Apply(s, Lock(t));
    var b := Apply(a, Step(t));
    var c := Apply(b, Unlock(t));
    assert c.pcs == s.pcs;
    Prepend(b, Unlock(t), [], c);
    Prepend(a, Step(t), [Unlock(t)], c);
    Prepend(s, Lock(t), [Step(t), Unlock(t)], c);
    assert [Lock(t)] + [Step(t), Unlock(t)] == [Lock(t), Step(t), Unlock(t)];
    assert [Step(t)] + [Unlock(t)] == [Step(t), Unlock(t)];
    assert [Unlock(t)] + [] == [Unlock(t)];
  }

  /** Steps of threads already in or holding the lock, without new arrivals and without spurious returns. */
  predicate Closing(a: Action) {
    a.Step? || a.Unlock? || a.Wake?
  }

  /** An owing thread can wake `t`, which then takes the free lock. */
  lemma WakeThenTake(s: State, o: nat, t: nat) returns (actions: seq<Action>, u: State)
    requires s.word == UNLOCKED && At(s, o, Owing) && At(s, t, Sleeping)
    ensures Runs(s, actions, u) && At(u, t, Owner) && |actions| == 2
    ensures forall i :: 0 <= i < |actions| ==> Closing(actions[i])
  {
    var s1 := Apply(s, Wake(o, t));
    u := Apply(s1, Step(t));
    assert Runs(u, [], u);
    Prepend(s1, Step(t), [], u);
    Prepend(s, Wake(o, t), [Step(t)] + [], u);
    actions := [Wake(o, t)] + ([Step(t)] + []);
  }

  /** With the word CONTENDED the owner's unlock leads to the wake. */
  lemma UnlockThenTake(s: State, o: nat, t: nat) returns (actions: seq<Action>, u: State)
    requires s.word == CONTENDED && At(s, o, Owner) && At(s, t, Sleeping)
    ensures Runs(s, actions, u) && At(u, t, Owner) && |actions| == 3
    ensures forall i :: 0 <= i < |actions| ==> Closing(actions[i])
  {
    var s1 := Apply(s, Unlock(o));
    var rest;
    rest, u := WakeThenTake(s1, o, t);
    Prepend(s, Unlock(o), rest, u);
    actions := [Unlock(o)] + rest;
  }

  /** A swapper makes the word CONTENDED, whoever owns the lock afterwards. */
  lemma SwapThenTake(s: State, x: nat, t: nat) returns (actions: seq<Action>, u: State)
    requires Inv(s) && At(s, x, Swap) && At(s, t, Sleeping)
    ensures Runs(s, actions, u) && At(u, t, Owner) && |actions| == 4
    ensures forall i :: 0 <= i < |actions| ==> Closing(actions[i])
  {
    var s1 := Apply(s, Step(x));
    StepKeepsInv(s, Step(x));
    OthersStay(s, Step(x));
    var o :| At(s1, o, Owner);
    var rest;
    rest, u := UnlockThenTake(s1, o, t);
    Prepend(s, Step(x), rest, u);
    actions := [Step(x)] + rest;
  }

  /** In every reachable state a sleeping thread can still get the lock within four operations of the threads
      already there: wakeups alone, no spurious return and no newcomer, bring it back. */
  lemma SleeperCanAcquire(s: State, t: nat) returns (actions: seq<Action>, u: State)
    requires Reachable(s) && At(s, t, Sleeping)
    ensures Runs(s, actions, u) && At(u, t, Owner) && |actions| <= 4
    ensures forall i :: 0 <= i < |actions| ==> Closing(actions[i])
  {
    ReachableInv(s);
    if s.word == CONTENDED {
      var o :| At(s, o, Owner);
      actions, u := UnlockThenTake(s, o, t);
    } else if Someone(s, Swap) {
      var x :| At(s, x, Swap);
      actions, u := SwapThenTake(s, x, t);
    } else {
      var w :| At(s, w, Owing);
      if s.word == UNLOCKED {
        actions, u := WakeThenTake(s, w, t);
      } else {
        var o :| At(s, o, Owner);
        var s1 := Apply(s, Unlock(o));
        OthersStay(s, Unlock(o));
        var rest;
        rest, u := WakeThenTake(s1, w, t);
        Prepend(s, Unlock(o), rest, u);
        actions := [Unlock(o)] + rest;
      }
    }
  }
}
