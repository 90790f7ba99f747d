/** Completion over several queues: who numbers the signals, and what a fence's value says
    (include/libkfd/queue.h:185-202 and 284). */
module Completion {
  import opened Util
  import opened Arith
  import opened CompletionQueue

  // ----- numbering the signals of one queue -----

  /** One queue's submitting side. A signal draws its number before it takes the submit lock, so numbers drawn and not
      yet submitted may be several. */
  datatype Submitter = Submitter(next: nat, drawn: set<nat>, ops: seq<Op>)

  datatype Call = Draw | SubmitSignal(eop: nat, fence: nat) | SubmitLaunch | SubmitOther

  /** With `alone`, no thread draws a number while another still holds one. */
  predicate Possible(s: Submitter, c: Call, alone: bool) {
    match c
    case Draw => alone ==> s.drawn == {}
    case SubmitSignal(n, _) => n in s.drawn
    case _ => true
  }

  function Step(s: Submitter, c: Call): Submitter {
    match c
    case Draw => s.(next := s.next + 1, drawn := s.drawn + {s.next + 1})
    case SubmitSignal(n, f) => s.(drawn := s.drawn - {n}, ops := s.ops + [Signal(n, f)])
    case SubmitLaunch => s.(ops := s.ops + [Launch])
    case SubmitOther => s.(ops := s.ops + [Other])
  }

  /** What a run of calls leaves, if every call of it is possible. */
  function Submitted(calls: seq<Call>, alone: bool): Option<Submitter> {
    if calls == [] then Some(Submitter(0, {}, []))
    else
      match Submitted(calls[..|calls| - 1], alone)
      case None => None
      case Some(s) =>
        var c := calls[|calls| - 1];
        if Possible(s, c, alone) then Some(Step(s, c)) else None
  }

  /** What the calls of a run submit, in order. */
  function Submissions(calls: seq<Call>): seq<Op> {
    if calls == [] then []
    else
      var before := Submissions(calls[..|calls| - 1]);
      match calls[|calls| - 1]
      case Draw => before
      case SubmitSignal(n, f) => before + [Signal(n, f)]
      case SubmitLaunch => before + [Launch]
      case SubmitOther => before + [Other]
  }

  /** How often the calls draw a number. */
  function Draws(calls: seq<Call>): nat {
    if calls == [] then 0 else Draws(calls[..|calls| - 1]) + if calls[|calls| - 1].Draw? then 1 else 0
  }

  /** The ring holds the submissions in order, and the numbers drawn are 1, 2, 3 and so on, each one held by its thread
      until it submits its signal. */
  lemma {:induction false} RingHoldsSubmissions(calls: seq<Call>, alone: bool)
    requires Submitted(calls, alone).Some?
    ensures var s := Submitted(calls, alone).value;
      && s.ops == Submissions(calls) && s.next == Draws(calls)
      && forall n: nat :: 1 <= n <= Draws(calls) && (forall g :: SubmitSignal(n, g) !in calls) ==> n in s.drawn
  {
    if calls != [] {
      RingHoldsSubmissions(calls[..|calls| - 1], alone);
    }
  }

  ghost predicate Increasing(ops: seq<Op>) {
    && (forall j :: IsSignal(ops, j) ==> 0 < EopOf(ops, j))
    && (forall i, j :: i < j && IsSignal(ops, i) && IsSignal(ops, j) ==> EopOf(ops, i) < EopOf(ops, j))
  }

  ghost predicate NumbersBelow(ops: seq<Op>, n: nat) { forall i :: IsSignal(ops, i) ==> EopOf(ops, i) < n }

  /** Drawn one at a time, the numbers grow along the ring. */
  lemma {:induction false} AloneIncreases(calls: seq<Call>)
    requires Submitted(calls, true).Some?
    ensures var s := Submitted(calls, true).value;
      && Increasing(s.ops) && NumbersBelow(s.ops, s.next + 1)
      && (s.drawn == {} || (s.drawn == {s.next} && NumbersBelow(s.ops, s.next) && s.next > 0))
  {
    if calls != [] {
      AloneIncreases(calls[..|calls| - 1]);
      var m := Submitted(calls[..|calls| - 1], true).value;
      var c := calls[|calls| - 1];
      var t := Step(m, c);
      forall i: nat | i < |m.ops| && IsSignal(t.ops, i)
        ensures IsSignal(m.ops, i) && EopOf(t.ops, i) == EopOf(m.ops, i)
      {
      }
    }
  }

  lemma {:induction false} MaxEopBelow(ops: seq<Op>, l: nat, j: nat)
    requires Increasing(ops) && l <= j && IsSignal(ops, j)
    ensures MaxEop(ops, l) < EopOf(ops, j)
  {
    hide Increasing, EopOf;
    if l == 0 {
      SignalPositive(ops, j);
    } else {
      MaxEopBelow(ops, l - 1, j);
      if IsSignal(ops, l - 1) {
        SignalsGrow(ops, l - 1, j);
      }
    }
  }

  lemma SignalPositive(ops: seq<Op>, j: nat)
    requires Increasing(ops) && IsSignal(ops, j)
    ensures 0 < EopOf(ops, j)
  {
  }

  lemma SignalsGrow(ops: seq<Op>, i: nat, j: nat)
    requires Increasing(ops) && i < j && IsSignal(ops, i) && IsSignal(ops, j)
    ensures EopOf(ops, i) < EopOf(ops, j)
  {
  }

  /** A ring filled with numbers drawn one at a time is sound in every run. */
  lemma OneSubmitterIsSound(calls: seq<Call>, actions: seq<Action>)
    requires Submitted(calls, true).Some? && Run(Start(Submitted(calls, true).value.ops), actions).Some?
    ensures Sound(Run(Start(Submitted(calls, true).value.ops), actions).value)
  {
    hide Submitted, Run, Sound, Increasing, MaxEop;
    var ops := Submitted(calls, true).value.ops;
    AloneIncreases(calls);
    forall l: nat, j: nat | FirstAfter(ops, l, j) ensures MaxEop(ops, l) < EopOf(ops, j) {
      MaxEopBelow(ops, l, j);
    }
    SoundIffOrdered(ops);
  }

  /** Two threads: the second number is submitted first, then a kernel, then the first number. */
  const RACE: seq<Call> := [Draw, Draw, SubmitSignal(2, 0), SubmitLaunch, SubmitSignal(1, 1)]

  /** The race is possible, and some run then decrements fence 1 while the kernel before its signal still runs. */
  lemma RaceIsUnsound() returns (actions: seq<Action>)
    ensures Submitted(RACE, false).Some?
    ensures Run(Start(Submitted(RACE, false).value.ops), actions).Some?
    ensures !Sound(Run(Start(Submitted(RACE, false).value.ops), actions).value)
  {
    var ops := [Signal(2, 0), Launch, Signal(1, 1)];
    RaceSubmits();
    assert FirstAfter(ops, 1, 2) && MaxEop(ops, 1) == 2;
    actions := UnorderedFails(ops);
  }

  lemma RaceSubmits()
    ensures Submitted(RACE, false).Some? && Submitted(RACE, false).value.ops == [Signal(2, 0), Launch, Signal(1, 1)]
  {
    var none: set<nat> := {};
    assert none + {1} == {1} && {1} + {2} == {1, 2};
    assert Submitted([], false) == Some(Submitter(0, none, []));
    hide Submitted;
    SubmitMore([], Draw, false);
    assert [] + [Draw] == RACE[..1];
    SubmitMore(RACE[..1], Draw, false);
    assert RACE[..1] + [Draw] == RACE[..2];
    SubmitMore(RACE[..2], RACE[2], false);
    assert RACE[..2] + [RACE[2]] == RACE[..3];
    SubmitMore(RACE[..3], RACE[3], false);
    assert RACE[..3] + [RACE[3]] == RACE[..4];
    SubmitMore(RACE[..4], RACE[4], false);
    assert RACE[..4] + [RACE[4]] == RACE;
  }

  lemma SubmitMore(calls: seq<Call>, c: Call, alone: bool)
    requires Submitted(calls, alone).Some? && Possible(Submitted(calls, alone).value, c, alone)
    ensures Submitted(calls + [c], alone) == Some(Step(Submitted(calls, alone).value, c))
  {
    hide Possible, Step;
    assert (calls + [c])[..|calls + [c]| - 1] == calls;
  }

  // ----- a thread's own work is done, whatever raced -----

  /** Numbers come from the counter, and what is submitted stays where it is. */
  lemma {:induction false} CallsOnlyAppend(calls: seq<Call>, k: nat)
    requires Submitted(calls, false).Some? && k <= |calls|
    ensures Submitted(calls[..k], false).Some?
    ensures var m, s := Submitted(calls[..k], false).value, Submitted(calls, false).value;
      && m.ops <= s.ops && m.next <= s.next
      && NumbersBelow(m.ops, m.next + 1) && forall n :: n in m.drawn ==> n <= m.next
    decreases |calls|
  {
    hide Possible;
    if k < |calls| {
      assert calls[..|calls| - 1][..k] == calls[..k];
      CallsOnlyAppend(calls[..|calls| - 1], k);
    } else {
      assert calls[..k] == calls;
      if calls != [] {
        CallsOnlyAppend(calls[..k - 1], k - 1);
        assert calls[..k - 1][..k - 1] == calls[..k - 1];
        StepKeepsNumbers(Submitted(calls[..k - 1], false).value, calls[k - 1]);
      }
    }
  }

  lemma StepKeepsNumbers(s: Submitter, c: Call)
    requires NumbersBelow(s.ops, s.next + 1) && Possible(s, c, false) && forall n :: n in s.drawn ==> n <= s.next
    ensures var t := Step(s, c); NumbersBelow(t.ops, t.next + 1) && forall n :: n in t.drawn ==> n <= t.next
  {
    var t := Step(s, c);
    forall i: nat | IsSignal(t.ops, i) ensures EopOf(t.ops, i) < t.next + 1 {
      assert i < |s.ops| ==> t.ops[i] == s.ops[i] && IsSignal(s.ops, i);
    }
  }

  /** Operations of the ring it grew from carry no higher numbers. */
  lemma OldNumbers(start: seq<Op>, ops: seq<Op>, next: nat, i: nat)
    requires start <= ops && NumbersBelow(start, next + 1) && i < |start|
    ensures IsSignal(ops, i) ==> EopOf(ops, i) <= next
  {
    assert ops[i] == start[i];
    assert IsSignal(ops, i) ==> IsSignal(start, i) && EopOf(start, i) < next + 1;
  }

  /** The numbers among the first `n` operations of a ring are those of the ring it grew from. */
  lemma {:induction false} MaxEopAtMost(start: seq<Op>, ops: seq<Op>, n: nat, next: nat)
    requires start <= ops && n <= |start| && NumbersBelow(start, next + 1)
    ensures MaxEop(ops, n) <= next
  {
    if n > 0 {
      MaxEopAtMost(start, ops, n - 1, next);
      OldNumbers(start, ops, next, n - 1);
    }
  }

  /** Call `a` submits the launch at `l`, and call `b` after it draws the number that the signal at `i` carries. */
  ghost predicate OwnSignal(calls: seq<Call>, a: nat, b: nat, l: nat, i: nat)
    requires Submitted(calls, false).Some?
  {
    a < b < |calls| && calls[a] == SubmitLaunch && calls[b] == Draw &&
    var before, draws := Submitted(calls[..a], false), Submitted(calls[..b], false);
    before.Some? && draws.Some? && l == |before.value.ops| &&
    var ops := Submitted(calls, false).value.ops; IsSignal(ops, i) && EopOf(ops, i) == draws.value.next + 1
  }

  lemma LaunchIsSubmitted(calls: seq<Call>, a: nat, b: nat)
    requires Submitted(calls, false).Some? && a < b <= |calls| && calls[a] == SubmitLaunch
    ensures Submitted(calls[..a], false).Some? && Submitted(calls[..b], false).Some?
    ensures var l, ops := |Submitted(calls[..a], false).value.ops|, Submitted(calls[..b], false).value.ops;
      l < |ops| && ops[l].Launch?
  {
    CallsOnlyAppend(calls, b);
    CallsOnlyAppend(calls, a);
    CallsOnlyAppend(calls[..b], a + 1);
    assert calls[..b][..a + 1] == calls[..a + 1] && calls[..a + 1][..a] == calls[..a];
  }

  /** A launch is covered at every signal whose number was drawn after the launch was submitted. */
  lemma OwnSignalCovers(calls: seq<Call>, a: nat, b: nat, l: nat, i: nat)
    requires Submitted(calls, false).Some? && OwnSignal(calls, a, b, l, i)
    ensures var ops := Submitted(calls, false).value.ops;
      l < i && l < |ops| && ops[l].Launch? && Covered(ops, l, i)
  {
    hide Submitted, MaxEop;
    var ops, drawn := Submitted(calls, false).value.ops, Submitted(calls[..b], false).value;
    LaunchIsSubmitted(calls, a, b);
    CallsOnlyAppend(calls, b);
    if i < |drawn.ops| {
      OldNumbers(drawn.ops, ops, drawn.next, i);
    }
    MaxEopAtMost(drawn.ops, ops, l, drawn.next);
  }

  /** However threads race, the kernel a thread launched before it drew the number of its signal has retired in every
      run in which the signal has decremented its fence. */
  lemma OwnWorkIsDone(calls: seq<Call>, a: nat, b: nat, l: nat, i: nat, actions: seq<Action>)
    requires Submitted(calls, false).Some? && OwnSignal(calls, a, b, l, i)
    requires Run(Start(Submitted(calls, false).value.ops), actions).Some?
    ensures var q := Run(Start(Submitted(calls, false).value.ops), actions).value;
      Decremented(q, i) ==> l < q.at && l !in q.running
  {
    hide Submitted, OwnSignal, Run, Covered;
    OwnSignalCovers(calls, a, b, l, i);
    CoveredRetires(Submitted(calls, false).value.ops, l, i, actions);
  }

  // ----- a fence decremented from several queues -----

  /** The signals on fence `g` among the first `n` operations. */
  function CountSignals(ops: seq<Op>, n: nat, g: nat): nat
    requires n <= |ops|
  {
    if n == 0 then 0 else CountSignals(ops, n - 1, g) + if ops[n - 1].Signal? && ops[n - 1].fence == g then 1 else 0
  }

  /** How many operations have come as far as decrementing. */
  function Reached(q: Queue): nat { Min(|q.ops|, q.at + if q.stage == 3 then 1 else 0) }

  function Executed(q: Queue, g: nat): nat { CountSignals(q.ops, Reached(q), g) }

  function TotalExecuted(queues: seq<Queue>, g: nat): nat {
    if queues == [] then 0 else TotalExecuted(queues[..|queues| - 1], g) + Executed(queues[|queues| - 1], g)
  }

  function TotalSignals(queues: seq<Queue>, g: nat): nat {
    if queues == [] then 0
    else
      var q := queues[|queues| - 1];
      TotalSignals(queues[..|queues| - 1], g) + CountSignals(q.ops, |q.ops|, g)
  }

  /** Several queues and the 64-bit value of fence `g`. */
  datatype System = System(queues: seq<Queue>, g: nat, value: nat)

  /** The next packet is a decrement of `g`. */
  predicate Decrements(q: Queue, a: Action, g: nat) {
    a == Fetch && q.stage == 2 && IsSignal(q.ops, q.at) && q.ops[q.at].fence == g
  }

  predicate CanMove(s: System, k: nat, a: Action) { k < |s.queues| && Enabled(s.queues[k], a) }

  function Move(s: System, k: nat, a: Action): System
    requires CanMove(s, k, a)
  {
    var value := if Decrements(s.queues[k], a, s.g) then (s.value + TWO64 - 1) % TWO64 else s.value;
    System(s.queues[k := Apply(s.queues[k], a)], s.g, value)
  }

  function RunSystem(s: System, moves: seq<(nat, Action)>): Option<System> {
    if moves == [] then Some(s)
    else
      match RunSystem(s, moves[..|moves| - 1])
      case None => None
      case Some(m) =>
        var (k, a) := moves[|moves| - 1];
        if CanMove(m, k, a) then Some(Move(m, k, a)) else None
  }

  function StartAll(rings: seq<seq<Op>>): seq<Queue> { seq(|rings|, k requires 0 <= k < |rings| => Start(rings[k])) }

  // ----- what the fence says -----

  ghost predicate WellPlaced(q: Queue) { q.stage <= 3 && (q.stage > 0 ==> IsSignal(q.ops, q.at)) && q.at <= |q.ops| }

  /** One step of a queue executes one more decrement of `g` exactly when its next packet is one. */
  lemma StepCounts(q: Queue, a: Action, g: nat)
    requires WellPlaced(q) && Enabled(q, a)
    ensures WellPlaced(Apply(q, a)) && Apply(q, a).ops == q.ops
    ensures Executed(Apply(q, a), g) == Executed(q, g) + if Decrements(q, a, g) then 1 else 0
  {
  }

  lemma {:induction false} TotalAfter(queues: seq<Queue>, k: nat, q: Queue, g: nat)
    requires k < |queues| && q.ops == queues[k].ops
    ensures TotalExecuted(queues[k := q], g) == TotalExecuted(queues, g) - Executed(queues[k], g) + Executed(q, g)
    ensures TotalSignals(queues[k := q], g) == TotalSignals(queues, g)
  {
    var init := queues[..|queues| - 1];
    if k == |queues| - 1 {
      assert queues[k := q][..|queues| - 1] == init;
    } else {
      assert queues[k := q][..|queues| - 1] == init[k := q];
      TotalAfter(init, k, q, g);
    }
  }

  /** In every run the fence is its first value less the decrements executed, and no ring changes. */
  lemma {:induction false} FenceCounts(rings: seq<seq<Op>>, g: nat, n: nat, moves: seq<(nat, Action)>)
    requires n < TWO64 && RunSystem(System(StartAll(rings), g, n), moves).Some?
    ensures var t := RunSystem(System(StartAll(rings), g, n), moves).value;
      && t.g == g && t.value < TWO64 && (t.value + TotalExecuted(t.queues, g)) % TWO64 == n
      && |t.queues| == |rings|
      && forall k :: 0 <= k < |rings| ==> WellPlaced(t.queues[k]) && t.queues[k].ops == rings[k]
  {
    hide WellPlaced, Enabled, Apply, Executed, Decrements, TotalExecuted, TotalSignals, StartAll;
    if moves == [] {
      NoneExecuted(rings, g);
    } else {
      FenceCounts(rings, g, n, moves[..|moves| - 1]);
      var m := RunSystem(System(StartAll(rings), g, n), moves[..|moves| - 1]).value;
      var (k, a) := moves[|moves| - 1];
      StepCounts(m.queues[k], a, g);
      TotalAfter(m.queues, k, Apply(m.queues[k], a), g);
      if Decrements(m.queues[k], a, g) {
        FenceStep(m.value, TotalExecuted(m.queues, g));
      }
    }
  }

  lemma FenceStep(value: nat, total: nat)
    ensures ((value + TWO64 - 1) % TWO64 + (total + 1)) % TWO64 == (value + total) % TWO64
  {
    ModSum(value + TWO64 - 1, total + 1, TWO64);
    ModAddMultiple(value + total, TWO64, 1);
  }

  lemma {:induction false} NoneExecuted(rings: seq<seq<Op>>, g: nat)
    ensures TotalExecuted(StartAll(rings), g) == 0 && |StartAll(rings)| == |rings|
    ensures forall k :: 0 <= k < |rings| ==> WellPlaced(StartAll(rings)[k]) && StartAll(rings)[k].ops == rings[k]
  {
    if rings != [] {
      assert StartAll(rings)[..|rings| - 1] == StartAll(rings[..|rings| - 1]);
      NoneExecuted(rings[..|rings| - 1], g);
    }
  }

  // ----- a fence that has reached zero -----

  predicate OnFence(ops: seq<Op>, i: nat, g: nat) { IsSignal(ops, i) && ops[i].fence == g }

  lemma {:induction false} CountGrows(ops: seq<Op>, m: nat, n: nat, g: nat, i: nat)
    requires m <= n <= |ops|
    ensures CountSignals(ops, m, g) <= CountSignals(ops, n, g)
    ensures m <= i < n && OnFence(ops, i, g) ==> CountSignals(ops, m, g) < CountSignals(ops, n, g)
  {
    if m < n {
      CountGrows(ops, m, n - 1, g, i);
    }
  }

  /** Once as many decrements have been executed as there are signals, each signal has executed its own. */
  lemma {:induction false} AllExecuted(queues: seq<Queue>, g: nat, k: nat, i: nat)
    requires forall k :: 0 <= k < |queues| ==> WellPlaced(queues[k])
    ensures TotalExecuted(queues, g) <= TotalSignals(queues, g)
    ensures TotalExecuted(queues, g) == TotalSignals(queues, g) && k < |queues| && OnFence(queues[k].ops, i, g) ==>
              Decremented(queues[k], i)
  {
    if queues != [] {
      var q := queues[|queues| - 1];
      AllExecuted(queues[..|queues| - 1], g, k, i);
      CountGrows(q.ops, Reached(q), |q.ops|, g, i);
    }
  }

  /** Each queue of a system runs on its own. */
  lemma {:induction false} RunOfQueue(rings: seq<seq<Op>>, g: nat, n: nat, moves: seq<(nat, Action)>, k: nat)
    returns (actions: seq<Action>)
    requires RunSystem(System(StartAll(rings), g, n), moves).Some? && k < |rings|
    ensures |RunSystem(System(StartAll(rings), g, n), moves).value.queues| == |rings|
    ensures Run(Start(rings[k]), actions) == Some(RunSystem(System(StartAll(rings), g, n), moves).value.queues[k])
  {
    hide Enabled, Apply, Decrements;
    if moves == [] {
      actions := [];
    } else {
      actions := RunOfQueue(rings, g, n, moves[..|moves| - 1], k);
      var (j, a) := moves[|moves| - 1];
      var m := RunSystem(System(StartAll(rings), g, n), moves[..|moves| - 1]).value;
      if j == k {
        RunOne(m.queues[k], a);
        RunAppend(Start(rings[k]), actions, [a]);
        actions := actions + [a];
      }
    }
  }

  lemma {:induction false} SameSignals(queues: seq<Queue>, others: seq<Queue>, g: nat)
    requires |queues| == |others| && forall k :: 0 <= k < |queues| ==> queues[k].ops == others[k].ops
    ensures TotalSignals(queues, g) == TotalSignals(others, g)
  {
    if queues != [] {
      SameSignals(queues[..|queues| - 1], others[..|others| - 1], g);
    }
  }

  /** A fence set to the number of its signals is zero only when every one of its signals has been executed, every
      launch covered at one has retired, and on an ordered ring all work before it has. */
  lemma ZeroMeansDone(rings: seq<seq<Op>>, g: nat, n: nat, moves: seq<(nat, Action)>, k: nat, i: nat)
    requires n == TotalSignals(StartAll(rings), g) < TWO64
    requires RunSystem(System(StartAll(rings), g, n), moves).Some?
    requires k < |rings| && OnFence(rings[k], i, g)
    ensures var t := RunSystem(System(StartAll(rings), g, n), moves).value;
      |t.queues| == |rings| && (t.value == 0 ==>
        && Decremented(t.queues[k], i)
        && (forall l :: Covered(rings[k], l, i) ==> l !in t.queues[k].running)
        && (Ordered(rings[k]) ==> Drained(t.queues[k], i)))
  {
    hide RunSystem, StartAll, TotalExecuted, TotalSignals, Ordered, Covered, Run, Decremented, Drained, WellPlaced;
    var t := RunSystem(System(StartAll(rings), g, n), moves).value;
    NoneExecuted(rings, g);
    FenceCounts(rings, g, n, moves);
    SameSignals(t.queues, StartAll(rings), g);
    AllExecuted(t.queues, g, k, i);
    var actions := RunOfQueue(rings, g, n, moves, k);
    forall l | t.value == 0 && Covered(rings[k], l, i) ensures l !in t.queues[k].running {
      CoveredRetires(rings[k], l, i, actions);
    }
    SoundIffOrdered(rings[k]);
  }
}
