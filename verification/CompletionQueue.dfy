/** Completion signals on one compute queue (include/libkfd/queue.h:185-202). A signal submits four packets at once:
    RELEASE_MEM writes its number to the queue's EOP word when all earlier work has retired, WAIT_REG_MEM stalls until
    the word has reached the number, ATOMIC_MEM decrements the fence in mid-pipe, RELEASE_MEM fires the event. Writes at
    the end of the pipe are carried out in any order once the work before them has retired. */
module CompletionQueue {
  import opened Util

  /** What is submitted: a kernel, a signal with its EOP number, or packets that neither start work nor touch the EOP
      word (acquires, register writes, other waits). */
  datatype Op = Launch | Signal(eop: nat, fence: nat) | Other

  /** `at` and `stage` are the command processor's position: the operation, and how many of a signal's packets it has
      passed. `running` holds launches not yet retired, `releasing` and `firing` the signals whose first and last
      RELEASE_MEM have not yet been carried out, `writer` the signal that last wrote the EOP word. The ring is written
      from the start: a command processor that lags is one that has not yet been told. */
  datatype Queue = Queue(
    ops: seq<Op>, at: nat, stage: nat, running: set<nat>, releasing: set<nat>, firing: set<nat>, writer: Option<nat>,
    fired: set<nat>)

  datatype Action = Fetch | Retire(i: nat) | WriteEop(i: nat) | Fire(i: nat)

  function Start(ops: seq<Op>): Queue { Queue(ops, 0, 0, {}, {}, {}, None, {}) }

  predicate IsSignal(ops: seq<Op>, i: nat) { i < |ops| && ops[i].Signal? }

  function EopOf(ops: seq<Op>, i: nat): nat
    requires IsSignal(ops, i)
  {
    ops[i].eop
  }

  /** The EOP word. */
  function Eop(q: Queue): nat {
    if q.writer.Some? && IsSignal(q.ops, q.writer.value) then EopOf(q.ops, q.writer.value) else 0
  }

  /** All work earlier than `i` has retired, as far as it was launched. */
  predicate Drained(q: Queue, i: nat) { forall r :: r in q.running ==> i <= r }

  predicate Enabled(q: Queue, a: Action) {
    match a
    case Fetch => q.at < |q.ops| && (IsSignal(q.ops, q.at) && q.stage == 1 ==> EopOf(q.ops, q.at) <= Eop(q))
    case Retire(i) => i in q.running
    case WriteEop(i) => i in q.releasing && Drained(q, i)
    case Fire(i) => i in q.firing && Drained(q, i)
  }

  function Apply(q: Queue, a: Action): Queue
    requires Enabled(q, a)
  {
    match a
    case Fetch =>
      match q.ops[q.at] {
        case Launch => q.(running := q.running + {q.at}, at := q.at + 1)
        case Other => q.(at := q.at + 1)
        case Signal(_, _) =>
          if q.stage == 0 then q.(releasing := q.releasing + {q.at}, stage := 1)
          else if q.stage == 1 then q.(stage := 2)
          else if q.stage == 2 then q.(stage := 3)
          else q.(firing := q.firing + {q.at}, stage := 0, at := q.at + 1)
      }
    case Retire(i) => q.(running := q.running - {i})
    case WriteEop(i) => q.(releasing := q.releasing - {i}, writer := Some(i))
    case Fire(i) => q.(firing := q.firing - {i}, fired := q.fired + {i})
  }

  /** The state after a run, if every step of it is possible. */
  function Run(q: Queue, actions: seq<Action>): Option<Queue> {
    if actions == [] then Some(q)
    else
      match Run(q, actions[..|actions| - 1])
      case None => None
      case Some(m) =>
        var a := actions[|actions| - 1];
        if Enabled(m, a) then Some(Apply(m, a)) else None
  }

  /** Signal `i` has decremented its fence. */
  predicate Decremented(q: Queue, i: nat) { IsSignal(q.ops, i) && (i < q.at || (i == q.at && q.stage == 3)) }

  /** Every signal that has decremented its fence did so after all work before it in the ring had retired, and its
      event fires later still. */
  ghost predicate Sound(q: Queue) {
    && (forall i :: Decremented(q, i) ==> Drained(q, i))
    && (forall i :: i in q.fired ==> Decremented(q, i))
  }

  // ----- when a launch is sure to have retired -----

  /** The largest EOP number among the first `n` operations. */
  function MaxEop(ops: seq<Op>, n: nat): nat
    requires n <= |ops|
  {
    if n == 0 then 0
    else if IsSignal(ops, n - 1) then Max(MaxEop(ops, n - 1), EopOf(ops, n - 1))
    else MaxEop(ops, n - 1)
  }

  /** Signal `j` is the first after launch `l`. */
  ghost predicate FirstAfter(ops: seq<Op>, l: nat, j: nat) {
    l < j && l < |ops| && ops[l].Launch? && IsSignal(ops, j) && forall k: nat :: l < k < j ==> !IsSignal(ops, k)
  }

  /** The number of the first signal after each launch is above all numbers before the launch. */
  ghost predicate Ordered(ops: seq<Op>) {
    forall l: nat, j: nat :: FirstAfter(ops, l, j) ==> MaxEop(ops, l) < EopOf(ops, j)
  }

  /** Some signal after launch `l` and up to signal `i` carries a number above all numbers before the launch. */
  ghost predicate Covered(ops: seq<Op>, l: nat, i: nat) {
    l < |ops| && exists j: nat :: l < j <= i && IsSignal(ops, j) && MaxEop(ops, l) < EopOf(ops, j)
  }

  // ----- a covered launch has retired when the signal decrements, in every run -----

  /** The command processor has passed signal `i`'s first `stage` packets. */
  predicate Passed(q: Queue, i: nat, stage: nat) { IsSignal(q.ops, i) && (i < q.at || (i == q.at && q.stage >= stage)) }

  /** What has been written to the EOP word says that earlier work has retired, on any ring. */
  ghost predicate Inv(q: Queue) {
    && q.stage <= 3 && (q.stage > 0 ==> IsSignal(q.ops, q.at))
    && (forall r :: r in q.running ==> r < q.at && r < |q.ops| && q.ops[r].Launch?)
    && (forall i :: i in q.releasing ==> Passed(q, i, 1))
    && (forall i :: i in q.firing || i in q.fired ==> Passed(q, i, 4))
    && (q.writer.Some? ==> Passed(q, q.writer.value, 1) && Drained(q, q.writer.value))
    && (forall i :: i in q.fired ==> Drained(q, i))
  }

  lemma StepKeepsInv(q: Queue, a: Action)
    requires Inv(q) && Enabled(q, a)
    ensures Inv(Apply(q, a)) && Apply(q, a).ops == q.ops
  {
  }

  lemma {:induction false} MaxEopBounds(ops: seq<Op>, n: nat, i: nat)
    requires i < n <= |ops| && IsSignal(ops, i)
    ensures EopOf(ops, i) <= MaxEop(ops, n)
  {
    if i < n - 1 {
      MaxEopBounds(ops, n - 1, i);
    }
  }

  /** Launch `l` is not running past the wait of signal `j`. */
  predicate Apart(q: Queue, l: nat, j: nat) { Passed(q, j, 2) ==> l !in q.running }

  /** The wait of a signal numbered above everything before a launch keeps the command processor until the launch has
      retired. */
  lemma StepKeepsApart(q: Queue, a: Action, l: nat, j: nat)
    requires Inv(q) && Enabled(q, a) && Apart(q, l, j)
    requires l < j && IsSignal(q.ops, j) && MaxEop(q.ops, l) < EopOf(q.ops, j)
    ensures Apart(Apply(q, a), l, j)
  {
    if q.writer.Some? && q.writer.value < l {
      MaxEopBounds(q.ops, l, q.writer.value);
    }
  }

  lemma {:induction false} RunKeepsApart(q: Queue, actions: seq<Action>, l: nat, j: nat)
    requires Inv(q) && Run(q, actions).Some? && Apart(q, l, j)
    requires l < j && IsSignal(q.ops, j) && MaxEop(q.ops, l) < EopOf(q.ops, j)
    ensures Inv(Run(q, actions).value) && Run(q, actions).value.ops == q.ops && Apart(Run(q, actions).value, l, j)
  {
    hide Inv, Apart, Enabled, Apply, MaxEop, IsSignal;
    if actions != [] {
      RunKeepsApart(q, actions[..|actions| - 1], l, j);
      var m := Run(q, actions[..|actions| - 1]).value;
      StepKeepsInv(m, actions[|actions| - 1]);
      StepKeepsApart(m, actions[|actions| - 1], l, j);
    }
  }

  lemma {:induction false} RunKeepsInv(q: Queue, actions: seq<Action>)
    requires Inv(q) && Run(q, actions).Some?
    ensures Inv(Run(q, actions).value) && Run(q, actions).value.ops == q.ops
  {
    hide Inv, Enabled, Apply;
    if actions != [] {
      RunKeepsInv(q, actions[..|actions| - 1]);
      StepKeepsInv(Run(q, actions[..|actions| - 1]).value, actions[|actions| - 1]);
    }
  }

  lemma StartInv(ops: seq<Op>)
    ensures Inv(Start(ops))
  {
  }

  /** An event is safe whatever the numbers: in every run on any ring, when a signal's event has fired, the signal has
      decremented its fence and all work before it has retired. */
  lemma EventMeansDone(ops: seq<Op>, i: nat, actions: seq<Action>)
    requires Run(Start(ops), actions).Some? && i in Run(Start(ops), actions).value.fired
    ensures var q := Run(Start(ops), actions).value; Decremented(q, i) && forall l :: l < i ==> l !in q.running
  {
    hide Run;
    StartInv(ops);
    RunKeepsInv(Start(ops), actions);
    assert Passed(Run(Start(ops), actions).value, i, 4) && Drained(Run(Start(ops), actions).value, i);
  }

  lemma CoveredRetires(ops: seq<Op>, l: nat, i: nat, actions: seq<Action>)
    requires Covered(ops, l, i) && Run(Start(ops), actions).Some?
    ensures var q := Run(Start(ops), actions).value; Decremented(q, i) ==> l < q.at && l !in q.running
  {
    hide Run, Inv, MaxEop;
    var j: nat :| l < j <= i && IsSignal(ops, j) && MaxEop(ops, l) < EopOf(ops, j);
    StartInv(ops);
    RunKeepsApart(Start(ops), actions, l, j);
    assert Apart(Run(Start(ops), actions).value, l, j);
  }

  // ----- and no other need have -----

  lemma {:induction false} RunAppend(q: Queue, a: seq<Action>, b: seq<Action>)
    requires Run(q, a).Some?
    ensures Run(q, a + b) == Run(Run(q, a).value, b)
  {
    hide Enabled, Apply;
    if b == [] {
      assert a + b == a;
    } else {
      assert (a + b)[..|a + b| - 1] == a + b[..|b| - 1];
      RunAppend(q, a, b[..|b| - 1]);
    }
  }

  lemma RunOne(q: Queue, a: Action)
    requires Enabled(q, a)
    ensures Run(q, [a]) == Some(Apply(q, a))
  {
    hide Enabled, Apply;
    assert [a][..0] == [];
  }

  /** Signal `i`'s number is not above all numbers before it, so its wait may be met before its write. */
  predicate Skips(ops: seq<Op>, i: nat) { IsSignal(ops, i) && EopOf(ops, i) <= MaxEop(ops, i) }

  /** At operation `k`, between operations, with nothing running, the EOP word as high as it can be, and every write
      that was not waited for still to come. */
  ghost predicate Idle(q: Queue, ops: seq<Op>, k: nat) {
    && q.ops == ops && q.at == k <= |ops| && q.stage == 0 && q.running == {} && Eop(q) == MaxEop(ops, k)
    && forall i: nat :: i < k && Skips(ops, i) ==> i in q.releasing
  }

  lemma Extend(q0: Queue, actions: seq<Action>, q: Queue, a: Action) returns (more: seq<Action>, q': Queue)
    requires Run(q0, actions) == Some(q) && Enabled(q, a)
    ensures Run(q0, more) == Some(q') && q' == Apply(q, a)
  {
    hide Enabled, Apply;
    more, q' := actions + [a], Apply(q, a);
    RunOne(q, a);
    RunAppend(q0, actions, [a]);
  }

  /** A run that retires work at once and carries out a RELEASE_MEM only when the command processor waits for it. */
  lemma {:induction false} LazyRun(ops: seq<Op>, k: nat) returns (actions: seq<Action>, q: Queue)
    requires k <= |ops|
    ensures Run(Start(ops), actions) == Some(q) && Idle(q, ops, k)
  {
    if k == 0 {
      actions, q := [], Start(ops);
    } else {
      actions, q := LazyRun(ops, k - 1);
      actions, q := LazyStep(Start(ops), actions, q, ops);
    }
  }

  lemma LazyStep(q0: Queue, before: seq<Action>, was: Queue, ops: seq<Op>) returns (actions: seq<Action>, q: Queue)
    requires Run(q0, before) == Some(was) && Idle(was, ops, was.at) && was.at < |ops|
    ensures Run(q0, actions) == Some(q) && Idle(q, ops, was.at + 1)
  {
    hide Run;
    var k := was.at;
    actions, q := Extend(q0, before, was, Fetch);
    match ops[k]
    case Launch =>
      actions, q := Extend(q0, actions, q, Retire(k));
    case Other =>
    case Signal(s, _) =>
      if Eop(q) < s {
        actions, q := Extend(q0, actions, q, WriteEop(k));
      }
      actions, q := Extend(q0, actions, q, Fetch);
      actions, q := Extend(q0, actions, q, Fetch);
      actions, q := Extend(q0, actions, q, Fetch);
  }

  /** Past launch `l`, still running, with only it unfinished. */
  predicate OneRunning(q: Queue, ops: seq<Op>, l: nat, k: nat) {
    q.ops == ops && q.at == k && q.stage == 0 && q.running == {l} && l < |ops| && Eop(q) == MaxEop(ops, l)
  }

  /** Signals numbered no higher than what is in the EOP word do not wait for it. */
  lemma {:induction false} OverRunning(ops: seq<Op>, l: nat, k: nat, i: nat) returns (actions: seq<Action>, q: Queue)
    requires !Covered(ops, l, i) && l < k <= i < |ops| && ops[l].Launch?
    ensures Run(Start(ops), actions) == Some(q) && OneRunning(q, ops, l, k)
    decreases k
  {
    if k == l + 1 {
      actions, q := LazyRun(ops, l);
      actions, q := Extend(Start(ops), actions, q, Fetch);
    } else {
      actions, q := OverRunning(ops, l, k - 1, i);
      actions, q := OverOne(Start(ops), actions, q, ops, l, i);
    }
  }

  lemma OverOne(q0: Queue, before: seq<Action>, was: Queue, ops: seq<Op>, l: nat, i: nat)
    returns (actions: seq<Action>, q: Queue)
    requires Run(q0, before) == Some(was) && OneRunning(was, ops, l, was.at) && l < was.at < i < |ops|
    requires !Covered(ops, l, i)
    ensures Run(q0, actions) == Some(q) && OneRunning(q, ops, l, was.at + 1)
  {
    hide Run, MaxEop;
    actions, q := Extend(q0, before, was, Fetch);
    match ops[was.at]
    case Launch =>
      actions, q := Extend(q0, actions, q, Retire(was.at));
    case Other =>
    case Signal(_, _) =>
      actions, q := Extend(q0, actions, q, Fetch);
      actions, q := Extend(q0, actions, q, Fetch);
      actions, q := Extend(q0, actions, q, Fetch);
  }

  /** Otherwise some run decrements the fence of signal `i` while launch `l` is still running. */
  lemma UncoveredRuns(ops: seq<Op>, l: nat, i: nat) returns (actions: seq<Action>)
    requires l < i && l < |ops| && ops[l].Launch? && IsSignal(ops, i) && !Covered(ops, l, i)
    ensures Run(Start(ops), actions).Some?
    ensures var q := Run(Start(ops), actions).value; Decremented(q, i) && l in q.running
  {
    hide Run, MaxEop;
    var q: Queue;
    actions, q := OverRunning(ops, l, i, i);
    actions, q := Extend(Start(ops), actions, q, Fetch);
    actions, q := Extend(Start(ops), actions, q, Fetch);
    actions, q := Extend(Start(ops), actions, q, Fetch);
  }

  /** A launch has retired in every run in which a later signal has decremented its fence, on any ring, if and only if
      the signal, or one between them, carries a number above all numbers before the launch. */
  lemma RetiredIffCovered(ops: seq<Op>, l: nat, i: nat)
    requires l < i && l < |ops| && ops[l].Launch? && IsSignal(ops, i)
    ensures Covered(ops, l, i) <==>
            forall actions :: Run(Start(ops), actions).Some? && Decremented(Run(Start(ops), actions).value, i) ==>
              l !in Run(Start(ops), actions).value.running
  {
    hide Run, Covered, Decremented;
    if Covered(ops, l, i) {
      forall actions | Run(Start(ops), actions).Some? && Decremented(Run(Start(ops), actions).value, i)
        ensures l !in Run(Start(ops), actions).value.running
      {
        CoveredRetires(ops, l, i, actions);
      }
    } else {
      var actions := UncoveredRuns(ops, l, i);
    }
  }

  // ----- exactly which rings are sound -----

  lemma FindFirst(ops: seq<Op>, l: nat, j: nat) returns (first: nat)
    requires l < j && l < |ops| && ops[l].Launch? && IsSignal(ops, j)
    ensures FirstAfter(ops, l, first) && first <= j
  {
    first := l + 1;
    while !IsSignal(ops, first)
      invariant l < first <= j && forall k: nat :: l < k < first ==> !IsSignal(ops, k)
      decreases j - first
    {
      first := first + 1;
    }
  }

  /** On an ordered ring every launch is covered at every later signal. */
  lemma OrderedCovers(ops: seq<Op>, l: nat, i: nat)
    requires Ordered(ops) && l < i && l < |ops| && ops[l].Launch? && IsSignal(ops, i)
    ensures Covered(ops, l, i)
  {
    var j := FindFirst(ops, l, i);
  }

  lemma OrderedIsSound(ops: seq<Op>, actions: seq<Action>)
    requires Ordered(ops) && Run(Start(ops), actions).Some?
    ensures Sound(Run(Start(ops), actions).value)
  {
    hide Run, Ordered, Covered;
    var q := Run(Start(ops), actions).value;
    StartInv(ops);
    RunKeepsInv(Start(ops), actions);
    forall i: nat, r: nat | Decremented(q, i) && r in q.running ensures i <= r {
      if r < i {
        OrderedCovers(ops, r, i);
        CoveredRetires(ops, r, i, actions);
      }
    }
    assert forall i :: i in q.fired ==> Passed(q, i, 4);
  }

  /** On a ring that is not ordered, some run decrements a fence while work before the signal is still running. */
  lemma UnorderedFails(ops: seq<Op>) returns (actions: seq<Action>)
    requires !Ordered(ops)
    ensures Run(Start(ops), actions).Some? && !Sound(Run(Start(ops), actions).value)
  {
    hide Run, MaxEop;
    var l: nat, j: nat :| FirstAfter(ops, l, j) && MaxEop(ops, l) >= EopOf(ops, j);
    actions := UncoveredRuns(ops, l, j);
  }

  /** Completion means completion, in every run of a ring, if and only if the first signal after each launch carries
      a number above all numbers before the launch. */
  lemma SoundIffOrdered(ops: seq<Op>)
    ensures Ordered(ops) <==>
            forall actions :: Run(Start(ops), actions).Some? ==> Sound(Run(Start(ops), actions).value)
  {
    hide Ordered, Run, Sound;
    if Ordered(ops) {
      forall actions | Run(Start(ops), actions).Some? ensures Sound(Run(Start(ops), actions).value) {
        OrderedIsSound(ops, actions);
      }
    } else {
      var actions := UnorderedFails(ops);
    }
  }
}
