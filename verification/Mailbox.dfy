/** The display window's three slots and the render loop that feeds them (tools/computetoy/drm_window.cpp:424-458 and
    530-550, tools/computetoy/main.cpp:160-202), with every atomic commit succeeding. */
module Mailbox {
  import opened Arith
  import opened Util

  // ----- slots by the frames they hold -----

  /** The frame in each slot, or -1. Frame `f` is drawn in buffer `f % n`. */
  datatype Slots = Slots(displaying: int, pending: int, ready: int) {
    predicate Holds(f: int) { f >= 0 && (f == displaying || f == pending || f == ready) }

    /** How many frames wait to be shown. */
    function Waiting(): nat { (if pending >= 0 then 1 else 0) + (if ready >= 0 then 1 else 0) }
  }

  /** The next frame's buffer still holds a frame of one of the slots. */
  predicate InUse(s: Slots, f: nat, n: nat)
    requires n > 0
  {
    BufferOf(s.displaying, n) == f % n || BufferOf(s.pending, n) == f % n || BufferOf(s.ready, n) == f % n
  }

  function BufferOf(frame: int, n: nat): int
    requires n > 0
  {
    if frame < 0 then -1 else frame % n
  }

  /** A page flip: the pending frame is on screen, and a parked one is submitted. */
  function Flipped(s: Slots): Slots { Slots(s.pending, s.ready, -1) }

  /** A flip takes no buffer into use. */
  lemma FlipFrees(s: Slots, f: nat, n: nat)
    requires n > 0
    ensures InUse(Flipped(s), f, n) ==> InUse(s, f, n)
  {
  }

  /** Presenting frame `f`: submitted when nothing is pending, parked otherwise. */
  function Posted(s: Slots, f: nat): Slots { if s.pending < 0 then s.(pending := f) else s.(ready := f) }

  /** After frames 0 .. f - 1 with `n` buffers: the slots hold frames in order, none older than `n` frames, a parked
      one only behind a pending one, and the newest frame is in the last slot that holds any. */
  predicate Inv(s: Slots, f: nat, n: nat) {
    && -1 <= s.displaying && -1 <= s.pending && -1 <= s.ready
    && (s.pending >= 0 ==> s.displaying < s.pending)
    && (s.ready >= 0 ==> 0 <= s.pending < s.ready)
    && (s.displaying >= 0 ==> f - n <= s.displaying)
    && (s.pending >= 0 ==> f - n <= s.pending)
    && f - 1 == (if s.ready >= 0 then s.ready else if s.pending >= 0 then s.pending else s.displaying)
  }

  lemma FlipKeepsInv(s: Slots, f: nat, n: nat)
    requires Inv(s, f, n) && s.pending >= 0
    ensures Inv(Flipped(s), f, n) && Flipped(s).displaying > s.displaying
  {
  }

  /** Drawing into a buffer no slot holds keeps the order. */
  lemma PresentKeepsInv(s: Slots, f: nat, n: nat)
    requires n > 0 && Inv(s, f, n) && !InUse(s, f, n)
    ensures Inv(Posted(s, f), f + 1, n)
  {
    SameBuffer(f, n);
  }

  lemma SameBuffer(f: nat, n: nat)
    requires n > 0
    ensures f >= n ==> (f - n) % n == f % n
  {
    if f >= n {
      ModAddMultiple(f - n, n, 1);
    }
  }

  /** Slots that hold frames hold different buffers. */
  lemma DistinctBuffers(s: Slots, f: nat, n: nat)
    requires n > 0 && Inv(s, f, n)
    ensures s.displaying >= 0 && s.pending >= 0 ==> s.displaying % n != s.pending % n
    ensures s.displaying >= 0 && s.ready >= 0 ==> s.displaying % n != s.ready % n
    ensures s.pending >= 0 && s.ready >= 0 ==> s.pending % n != s.ready % n
  {
    if s.displaying >= 0 && s.pending >= 0 { CloseFramesDiffer(s.displaying, s.pending, n); }
    if s.displaying >= 0 && s.ready >= 0 { CloseFramesDiffer(s.displaying, s.ready, n); }
    if s.pending >= 0 && s.ready >= 0 { CloseFramesDiffer(s.pending, s.ready, n); }
  }

  /** Frames fewer than `n` apart have different buffers. */
  lemma CloseFramesDiffer(a: nat, b: nat, n: nat)
    requires n > 0 && a < b < a + n
    ensures a % n != b % n
  {
    var q := b / n - a / n;
    assert b - a == n * q + (b % n - a % n) by {
      assert b == n * (b / n) + b % n && a == n * (a / n) + a % n;
    }
    if a % n == b % n {
      MultipleIsLarge(n, q);
    }
  }

  // ----- runs of the loop -----

  /** Presenting the next frame, once no slot holds its buffer, and a flip, while one is outstanding. */
  datatype Event = Presents | Flips

  /** Slots and frames drawn after a run, if every event of it is possible. */
  function After(n: nat, events: seq<Event>): Option<(Slots, nat)>
    requires n > 0
  {
    if events == [] then Some((Slots(-1, -1, -1), 0))
    else
      match After(n, events[..|events| - 1])
      case None => None
      case Some((s, f)) =>
        match events[|events| - 1]
        case Presents => if InUse(s, f, n) then None else Some((Posted(s, f), f + 1))
        case Flips => if s.pending < 0 then None else Some((Flipped(s), f))
  }

  /** Slots `s` with `f` frames drawn are what some run leaves. */
  ghost predicate Reachable(n: nat, s: Slots, f: nat)
    requires n > 0
  {
    exists events :: After(n, events) == Some((s, f))
  }

  lemma {:induction false} RunKeepsInv(n: nat, events: seq<Event>)
    requires n > 0 && After(n, events).Some?
    ensures var (s, f) := After(n, events).value; Inv(s, f, n)
  {
    hide InUse, Inv;
    if events == [] {
      StartInv(n);
    } else {
      RunKeepsInv(n, events[..|events| - 1]);
      var (s, f) := After(n, events[..|events| - 1]).value;
      if events[|events| - 1].Presents? {
        PresentKeepsInv(s, f, n);
      } else {
        FlipKeepsInv(s, f, n);
      }
    }
  }

  lemma StartInv(n: nat)
    ensures Inv(Slots(-1, -1, -1), 0, n)
  {
  }

  lemma ReachableInv(n: nat, s: Slots, f: nat)
    requires n > 0 && Reachable(n, s, f)
    ensures Inv(s, f, n)
  {
    var events :| After(n, events) == Some((s, f));
    RunKeepsInv(n, events);
  }

  lemma RunOn(n: nat, events: seq<Event>, e: Event)
    requires n > 0 && After(n, events).Some?
    ensures After(n, events + [e]) ==
            var (s, f) := After(n, events).value;
            match e
            case Presents => (if InUse(s, f, n) then None else Some((Posted(s, f), f + 1)))
            case Flips => (if s.pending < 0 then None else Some((Flipped(s), f)))
  {
    assert (events + [e])[..|events + [e]| - 1] == events;
  }

  /** The first frame presented and shown. */
  lemma FirstFrameShown(n: nat)
    requires n > 0
    ensures After(n, [Presents, Flips]) == Some((Slots(0, -1, -1), 1))
  {
    RunOn(n, [], Presents);
    assert [] + [Presents] == [Presents];
    RunOn(n, [Presents], Flips);
    assert [Presents] + [Flips] == [Presents, Flips];
  }

  /** With four buffers all three slots can hold frames while the next buffer is free. */
  lemma AllSlotsHeld(n: nat)
    requires n >= 4
    ensures Reachable(n, Slots(0, 1, 2), 3) && !InUse(Slots(0, 1, 2), 3, n)
  {
    assert BufferOf(0, n) == 0 && BufferOf(1, n) == 1 && BufferOf(2, n) == 2 && 2 % n == 2 && 3 % n == 3;
    FirstFrameShown(n);
    RunOn(n, [Presents, Flips], Presents);
    RunOn(n, [Presents, Flips] + [Presents], Presents);
    assert After(n, [Presents, Flips] + [Presents] + [Presents]) == Some((Slots(0, 1, 2), 3));
  }

  /** The frames a run brings on screen, in order: at each flip the one that was pending. */
  function ShownBy(n: nat, events: seq<Event>): seq<int>
    requires n > 0
  {
    if events == [] then []
    else
      var init := events[..|events| - 1];
      ShownBy(n, init) +
      if events[|events| - 1].Flips? && After(n, init).Some? then [After(n, init).value.0.pending] else []
  }

  lemma ShownMore(n: nat, events: seq<Event>, e: Event)
    requires n > 0 && After(n, events).Some?
    ensures ShownBy(n, events + [e]) ==
            ShownBy(n, events) + if e.Flips? then [After(n, events).value.0.pending] else []
  {
    assert (events + [e])[..|events + [e]| - 1] == events;
  }

  /** A run and what came after it: flips and nothing else. */
  ghost predicate OnlyFlips(before: seq<Event>, after: seq<Event>) {
    before <= after && forall i :: |before| <= i < |after| ==> after[i].Flips?
  }

  lemma FlipsSince(before: seq<Event>, after: seq<Event>) returns (flips: seq<Event>)
    requires OnlyFlips(before, after)
    ensures OnlyFlips([], flips) && after == before + flips
  {
    flips := after[|before|..];
    assert forall i :: 0 <= i < |flips| ==> flips[i] == after[|before| + i];
  }

  // ----- waiting for a buffer -----

  /** With two buffers or more a slot that holds the next buffer has a flip outstanding. */
  lemma WaitsForAFlip(s: Slots, f: nat, n: nat)
    requires n >= 2 && Inv(s, f, n) && InUse(s, f, n)
    ensures s.pending >= 0
  {
    if f > 0 {
      CloseFramesDiffer(f - 1, f, n);
    }
  }

  /** In every run the window waits for a flip only while one is outstanding if and only if there are at least two
      buffers. */
  lemma WaitsForAFlipIff(n: nat)
    requires n > 0
    ensures n >= 2 <==> forall s: Slots, f: nat :: Reachable(n, s, f) && InUse(s, f, n) ==> s.pending >= 0
  {
    if n >= 2 {
      hide Reachable, InUse, Inv;
      forall s: Slots, f: nat | Reachable(n, s, f) && InUse(s, f, n) ensures s.pending >= 0 {
        ReachableInv(n, s, f);
        WaitsForAFlip(s, f, n);
      }
    } else {
      FirstFrameShown(n);
      assert Reachable(n, Slots(0, -1, -1), 1) && InUse(Slots(0, -1, -1), 1, n);
    }
  }

  /** With three buffers or fewer, once a frame is on screen, a free next buffer means nothing is parked. */
  lemma NothingParked(s: Slots, f: nat, n: nat)
    requires 0 < n <= 3 && Inv(s, f, n) && s.displaying >= 0 && !InUse(s, f, n)
    ensures s.ready < 0
  {
    SameBuffer(f, n);
  }

  /** In every run a parked frame is never overwritten once a frame is on screen if and only if there are at most three
      buffers: with three, a loop that has one parked must first wait for a flip. */
  lemma NeverOverwritesIff(n: nat)
    requires n > 0
    ensures n <= 3 <==> forall s: Slots, f: nat ::
      Reachable(n, s, f) && s.displaying >= 0 && !InUse(s, f, n) ==> s.ready < 0
  {
    if n <= 3 {
      forall s: Slots, f: nat | Reachable(n, s, f) && s.displaying >= 0 && !InUse(s, f, n) ensures s.ready < 0 {
        ReachableInv(n, s, f);
        NothingParked(s, f, n);
      }
    } else {
      AllSlotsHeld(n);
    }
  }

  // ----- the window -----

  ghost predicate Increasing(shown: seq<int>) { forall i, j :: 0 <= i < j < |shown| ==> shown[i] < shown[j] }

  class Window {
    const numBuffers: nat
    var displaying: int
    var pending: int
    var ready: int
    var modeSet: bool

    /** The display's side: flips committed whose event has not come. */
    var outstanding: nat

    /** What has happened, and the frames it has left in the slots, drawn and shown. */
    ghost var history: seq<Event>
    ghost var slots: Slots
    ghost var drawn: nat
    ghost var shown: seq<int>

    ghost predicate Valid()
      reads this
    {
      && numBuffers >= 2 && Inv(slots, drawn, numBuffers)
      && After(numBuffers, history) == Some((slots, drawn)) && shown == ShownBy(numBuffers, history)
      && displaying == BufferOf(slots.displaying, numBuffers)
      && pending == BufferOf(slots.pending, numBuffers)
      && ready == BufferOf(slots.ready, numBuffers)
      && (modeSet <==> drawn > 0)
      && outstanding == (if slots.pending >= 0 then 1 else 0)
      && Increasing(shown) && (slots.displaying >= 0 <==> shown != [])
      && (shown != [] ==> shown[|shown| - 1] == slots.displaying)
    }

    constructor (numBuffers: nat)
      requires numBuffers >= 2
      ensures Valid() && history == [] && this.numBuffers == numBuffers
    {
      this.numBuffers := numBuffers;
      displaying, pending, ready, modeSet := -1, -1, -1, false;
      outstanding, history, slots, drawn, shown := 0, [], Slots(-1, -1, -1), 0, [];
    }

    /** A commit is accepted only while no other is outstanding. */
    method AtomicCommit()
      requires outstanding == 0
      modifies this`outstanding
      ensures outstanding == 1
    {
      outstanding := 1;
    }

    method OnPageFlip()
      requires Valid() && outstanding > 0
      modifies this
      ensures Valid() && history == old(history) + [Flips]
      ensures slots == Flipped(old(slots)) && drawn == old(drawn) && shown == old(shown) + [old(slots).pending]
    {
      hide After, ShownBy, InUse;
      FlipKeepsInv(slots, drawn, numBuffers);
      RunOn(numBuffers, history, Flips);
      ShownMore(numBuffers, history, Flips);
      outstanding := outstanding - 1;
      displaying := pending;
      if ready >= 0 {
        AtomicCommit();
        pending := ready;
        ready := -1;
      } else {
        pending := -1;
      }
      shown := shown + [slots.pending];
      slots := Flipped(slots);
      history := history + [Flips];
    }

    /** Poll for an event; `arrives` says whether one has come. Waiting without a timeout needs one outstanding. */
    method HandleEvents(block: bool, arrives: bool) returns (handled: bool)
      requires Valid() && (block ==> outstanding > 0)
      modifies this
      ensures Valid() && drawn == old(drawn)
      ensures handled == (block || (arrives && old(outstanding) > 0))
      ensures history == old(history) + if handled then [Flips] else []
      ensures slots == if handled then Flipped(old(slots)) else old(slots)
      ensures arrives && !handled ==> slots.pending < 0
    {
      hide After, ShownBy, Increasing, BufferOf;
      handled := block || (arrives && outstanding > 0);
      if handled {
        OnPageFlip();
      }
    }

    /** Wait until no slot holds the next frame's buffer. It never waits without an outstanding flip, and for two at
        most; nothing but flips happens meanwhile. */
    method WaitIdle(index: nat)
      requires Valid() && index == drawn % numBuffers
      modifies this
      ensures Valid() && drawn == old(drawn) && !InUse(slots, drawn, numBuffers)
      ensures displaying != index && pending != index && ready != index
      ensures OnlyFlips(old(history), history) && |history| <= |old(history)| + 2
    {
      while displaying == index || pending == index || ready == index
        invariant Valid() && drawn == old(drawn) && OnlyFlips(old(history), history)
        invariant |history| - |old(history)| <= 2 - slots.Waiting()
        decreases slots.Waiting()
      {
        WaitsForAFlip(slots, drawn, numBuffers);
        var handled := HandleEvents(true, false);
      }
    }

    /** Handle the flips that have come: all that were due, or as many as there were frames to show. */
    method DrainEvents(arrivals: nat)
      requires Valid()
      modifies this
      ensures Valid() && drawn == old(drawn) && OnlyFlips(old(history), history)
      ensures !InUse(old(slots), drawn, numBuffers) ==> !InUse(slots, drawn, numBuffers)
      ensures |history| == |old(history)| + arrivals || slots.pending < 0
    {
      hide After, ShownBy, InUse, Inv, Increasing, BufferOf, Flipped;
      var left := arrivals;
      while left > 0
        invariant Valid() && drawn == old(drawn) && OnlyFlips(old(history), history)
        invariant !InUse(old(slots), drawn, numBuffers) ==> !InUse(slots, drawn, numBuffers)
        invariant 0 <= left <= arrivals && |history| == |old(history)| + arrivals - left
      {
        FlipFrees(slots, drawn, numBuffers);
        var handled := HandleEvents(false, true);
        if !handled {
          break;
        }
        left := left - 1;
      }
    }

    /** Present the frame just drawn, after the flips that have come meanwhile. */
    method Present(index: nat, arrivals: nat)
      requires Valid() && index == drawn % numBuffers && !InUse(slots, drawn, numBuffers)
      modifies this
      ensures Valid() && drawn == old(drawn) + 1 && slots.Holds(old(drawn))
      ensures exists flips: seq<Event> ::
        && OnlyFlips([], flips) && history == old(history) + flips + [Presents]
        && shown == ShownBy(numBuffers, old(history) + flips)
        && (|flips| == arrivals || NothingPending(old(history) + flips))
    {
      hide After, ShownBy, InUse, Increasing, OnlyFlips, NothingPending;
      DrainEvents(arrivals);
      ghost var flips := FlipsSince(old(history), history);
      PendingAfter(history);
      PresentKeepsInv(slots, drawn, numBuffers);
      RunOn(numBuffers, history, Presents);
      ShownMore(numBuffers, history, Presents);
      if !modeSet {
        AtomicCommit();
        pending := index;
        modeSet := true;
      } else if pending < 0 {
        AtomicCommit();
        pending := index;
      } else {
        ready := index;
      }
      slots := Posted(slots, drawn);
      drawn := drawn + 1;
      history := history + [Presents];
    }

    lemma PendingAfter(events: seq<Event>)
      requires numBuffers > 0 && After(numBuffers, events).Some?
      ensures After(numBuffers, events).value.0.pending < 0 ==> NothingPending(events)
    {
    }

    /** After these events no flip is outstanding. */
    ghost predicate NothingPending(events: seq<Event>)
      requires numBuffers > 0
    {
      After(numBuffers, events).Some? && After(numBuffers, events).value.0.pending < 0
    }
  }

  /** The render loop: wait for the next buffer, draw, present, go round. Whatever events come in between, the frames
      shown are in strictly increasing order, no frame is drawn into a buffer a slot holds, and the newest frame is
      the one shown last or is on its way. */
  method RenderLoop(w: Window, arrivals: seq<nat>)
    requires w.Valid() && w.history == []
    modifies w
    ensures w.Valid() && w.drawn == |arrivals| && Increasing(w.shown)
    ensures arrivals != [] ==> w.slots.Holds(|arrivals| - 1)
  {
    hide After, ShownBy, InUse, Inv, OnlyFlips, Increasing, BufferOf, Window.NothingPending;
    var current, n := 0, w.numBuffers;
    NothingRun(w);
    for k := 0 to |arrivals|
      invariant w.Valid() && w.drawn == k && current == k % n
      invariant k > 0 ==> w.slots.Holds(k - 1)
    {
      w.WaitIdle(current);
      w.Present(current, arrivals[k]);
      current := NextBuffer(k, n, current);
    }
  }

  lemma NothingRun(w: Window)
    requires w.Valid() && w.history == []
    ensures w.drawn == 0
  {
  }

  method NextBuffer(ghost k: nat, n: nat, current: nat) returns (next: nat)
    requires n > 0 && current == k % n
    ensures next == (k + 1) % n
  {
    ModSum(k, 1, n);
    next := (current + 1) % n;
  }
}
