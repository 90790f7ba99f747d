/** The ring buffer of a queue (lib/queue.cpp: submit_impl, wait_for_room), written by the host and read by the
    engine. The engine runs whenever the host polls, at a pace nobody controls. */
module Ring {
  import opened Util
  import opened Arith
  import opened Packets
  import opened RingLog
  import opened RingPointers

  function EngineOf(qtype: QueueType): Engine {
    if qtype.SDMA? then Engine.SDMA else PM4
  }

  /** The slot of a stream position is not among the `len` slots after the write position, as long as the
      position is unread and there is room. */
  lemma SlotsDistinct(i: nat, wptr: nat, len: nat, t: nat, cap: nat)
    requires cap > 0 && i < wptr && t < len && wptr + len < i + cap && wptr % cap + len <= cap
    ensures i % cap != wptr % cap + t
  {
    var d := wptr / cap - i / cap;
    assert wptr + t - i == wptr % cap + t - i % cap + cap * d;
    MultipleIsLarge(cap, d);
  }

  lemma SlotOf(wptr: nat, t: nat, cap: nat)
    requires cap > 0 && wptr % cap + t < cap
    ensures (wptr + t) % cap == wptr % cap + t
  {
    assert wptr + t == wptr % cap + t + cap * (wptr / cap);
    DivModUnique(wptr + t, cap, wptr / cap, wptr % cap + t);
  }

  /** The packet at `pos` of a stream, from the length its header gives. */
  lemma NextPacket(e: Engine, s: seq<nat>, pos: nat, n: nat)
    requires pos <= |s| && (pos < |s| ==> n == PacketLen(e, s[pos])) && Parse(e, s[..pos]).Some?
    ensures Parse(e, s[pos..]).Some? && Parse(e, s[pos..]).value != [] ==>
              0 < n <= |s| - pos && Parse(e, s[pos..]).value[0] == s[pos..pos + n]
    ensures pos < |s| && 0 < n <= |s| - pos ==>
              Parse(e, s[..pos + n]) == Some(Parse(e, s[..pos]).value + [s[pos..pos + n]])
  {
    hide PacketLen;
    if pos < |s| {
      assert s[pos..][0] == s[pos];
      if 0 < n <= |s| - pos {
        var p := s[pos..pos + n];
        assert s[pos..][..n] == p && s[..pos] + p == s[..pos + n];
        ParseSingle(e, p);
        ParseAppend(e, s[..pos], p);
      }
    }
  }

  class Ring {
    const qtype: QueueType
    const wrapped: bool          // whether the hardware reports a wrapped read pointer
    const cap: nat               // ring_dwords()
    const base: array<nat>
    var pendingWptr: nat         // dwords, monotone
    var readPos: nat             // the engine's position, in dwords since creation
    ghost var log: seq<Chunk>
    ghost var consumed: seq<seq<nat>>

    ghost function Engine(): Engine { EngineOf(qtype) }

    ghost function Stream(): seq<nat>
      reads this
    {
      Flat(Engine(), log)
    }

    /** Memory holds every published dword the engine has not read, the distance stays below one ring, no
        publication crosses the end, and what the engine has read is whole packets. */
    ghost predicate Valid()
      reads this, base
    {
      && RingSize(cap) && base.Length == cap && cap > 0 && !qtype.SDMA_XGMI?
      && |Stream()| == pendingWptr && readPos <= pendingWptr < readPos + cap
      && (forall i :: readPos <= i < pendingWptr ==> base[i % cap] == Stream()[i])
      && Placed(Engine(), log, cap)
      && Parse(Engine(), Stream()[..readPos]) == Some(consumed)
    }

    constructor (qtype: QueueType, wrapped: bool, cap: nat)
      requires RingSize(cap) && !qtype.SDMA_XGMI?
      ensures Valid() && log == [] && consumed == [] && fresh(base) && this.qtype == qtype && this.cap == cap
    {
      this.qtype := qtype;
      this.wrapped := wrapped;
      this.cap := cap;
      base := new nat[cap](_ => 0);
      pendingWptr, readPos := 0, 0;
      log, consumed := [], [];
      new;
      RingDivides(cap);
    }

    /** The engine takes the next packet out of ring memory, if the header there starts one that has been
        published whole. */
    method EngineStep()
      requires Valid()
      modifies this`readPos, this`consumed
      ensures Valid() && old(readPos) <= readPos
      ensures var next := Parse(Engine(), Stream()[old(readPos)..]);
              next.Some? && next.value != [] ==>
                consumed == old(consumed) + [next.value[0]] && readPos == old(readPos) + |next.value[0]|
      ensures readPos == old(readPos) + Taken(Engine(), Stream()[old(readPos)..], 1)
    {
      hide Parse, Placed, RingSize, Flat, PacketLen;
      ghost var s := Stream();
      if readPos == pendingWptr {
        NextPacket(Engine(), s, readPos, 0);
        return;
      }
      var n := PacketLen(EngineOf(qtype), base[readPos % cap]);
      assert base[readPos % cap] == s[readPos];
      NextPacket(Engine(), s, readPos, n);
      if n == 0 || readPos + n > pendingWptr {
        return;
      }
      consumed := consumed + [s[readPos..readPos + n]];
      readPos := readPos + n;
    }

    /** Poll until `dwords` more fit behind what is in flight. `pace` says how many packets the engine gets
        through before each further poll; the deadline passes when it is used up. */
    method WaitForRoom(dwords: nat, pace: seq<nat>) returns (ok: bool)
      requires Valid()
      modifies this`readPos, this`consumed
      ensures Valid() && old(readPos) <= readPos
      ensures ok <==> pendingWptr - readPos + dwords < cap
      ensures ok <==> old(RoomAfter(dwords, Total(pace)))
    {
      hide Parse, Placed, RingSize, Flat, Taken, Total, ReadRegister, HostReadPos, PowerOfTwo;
      ghost var start, all := readPos, Total(pace);
      ghost var s := Stream();
      var pos := pendingWptr % cap;
      var k := 0;
      ghost var steps := 0;
      TakenStops(Engine(), s[start..], 0);
      TotalSplits(pace, 0);
      while true
        invariant Valid() && start <= readPos && k <= |pace| && Stream() == s
        invariant steps == Total(pace[..k]) && readPos == start + Taken(Engine(), s[start..], steps)
        decreases |pace| - k
      {
        var rp := HostReadPos(qtype, ReadRegister(qtype, wrapped, cap, readPos));
        var inFlight := (pos + cap - rp) % TWO32 % cap;
        assert inFlight == pendingWptr - readPos by {
          InFlightIsExact(qtype, wrapped, cap, pendingWptr, readPos);
        }
        TotalSplits(pace, k);
        if inFlight + dwords < cap {
          TakenFrom(Engine(), s, start, steps, all - steps);
          return true;
        }
        if k == |pace| {
          return false;
        }
        for j := 0 to pace[k]
          invariant Valid() && start <= readPos && Stream() == s
          invariant readPos == start + Taken(Engine(), s[start..], steps + j)
        {
          TakenFrom(Engine(), s, start, steps + j, 1);
          EngineStep();
        }
        steps := steps + pace[k];
        k := k + 1;
      }
    }

    /** `dwords` more fit behind what is unread once the engine has taken another `k` packets. */
    ghost predicate RoomAfter(dwords: nat, k: nat)
      requires Valid()
      reads this, base
    {
      pendingWptr - (readPos + Taken(Engine(), Stream()[readPos..], k)) + dwords < cap
    }

    /** On a ring that reads back there is room for anything smaller than the ring after as many packets as there are
        unread dwords. */
    lemma RoomInTime(dwords: nat, k: nat)
      requires Valid() && Sound(Engine(), log) && dwords < cap && pendingWptr - readPos <= k
      ensures RoomAfter(dwords, k)
    {
      hide Placed, RingSize, Sound;
      RefinesFifo();
      TakenAtLeast(Engine(), Stream()[readPos..], k);
    }

    /** Write `words` to the slots at the write position. */
    method Write(words: seq<nat>)
      requires Valid() && pendingWptr % cap + |words| <= cap && pendingWptr - readPos + |words| < cap
      modifies base
      ensures Valid()
      ensures forall t :: 0 <= t < |words| ==> base[pendingWptr % cap + t] == words[t]
    {
      var pos := pendingWptr % cap;
      var i := 0;
      while i < |words|
        invariant 0 <= i <= |words|
        invariant Valid()
        invariant forall t :: 0 <= t < i ==> base[pos + t] == words[t]
      {
        forall k | readPos <= k < pendingWptr ensures k % cap != pos + i {
          SlotsDistinct(k, pendingWptr, |words|, i, cap);
        }
        base[pos + i] := words[i];
        i := i + 1;
      }
    }

    /** Advance the write pointer over a chunk already in place and ring the doorbell. */
    method Publish(ghost c: Chunk, n: nat)
      requires Valid() && n == |Words(Engine(), c)|
      requires pendingWptr % cap + n <= cap && pendingWptr - readPos + n < cap
      requires forall t :: 0 <= t < n ==> base[pendingWptr % cap + t] == Words(Engine(), c)[t]
      modifies this`pendingWptr, this`log
      ensures Valid() && log == old(log) + [c] && pendingWptr == old(pendingWptr) + n
    {
      hide Parse, Placed, RingSize, Flat, Words, PacketLen;
      FlatAppend(Engine(), log, c, cap);
      ghost var before, start, words := Stream(), pendingWptr, Words(Engine(), c);
      log := log + [c];
      pendingWptr := pendingWptr + n;
      assert Stream() == before + words;
      assert Stream()[..readPos] == before[..readPos];
      forall i | readPos <= i < pendingWptr ensures base[i % cap] == Stream()[i] {
        if i >= start {
          SlotOf(start, i - start, cap);
          assert Stream()[i] == words[i - start] == base[start % cap + (i - start)];
        } else {
          assert Stream()[i] == before[i];
        }
      }
    }

    /** Fill the slots up to the end of the ring and publish them. */
    method PadToEnd(pace: seq<nat>) returns (ok: bool)
      requires Valid() && 0 < pendingWptr % cap
      modifies this`readPos, this`consumed, this`pendingWptr, this`log, base
      ensures Valid() && old(readPos) <= readPos
      ensures ok ==> log == old(log) + [Pad(cap - old(pendingWptr) % cap)] && pendingWptr % cap == 0
      ensures !ok ==> log == old(log) && pendingWptr == old(pendingWptr)
      ensures !ok ==> pendingWptr - readPos + (cap - pendingWptr % cap) >= cap
      ensures ok <==> old(RoomAfter(cap - pendingWptr % cap, Total(pace)))
    {
      hide Parse, Placed, RingSize, Padding, Flat, RoomAfter;
      var pos := pendingWptr % cap;
      var pad := cap - pos;
      ok := WaitForRoom(pad, pace);
      if ok {
        Write(Padding(EngineOf(qtype), pad));
        NextTurn(pendingWptr, cap);
        Publish(Pad(pad), pad);
      }
    }

    /** Submit: pad to the end of the ring first when the data would cross it. The size is cut to 32 bits. A timeout
        says that the padding or the data did not fit at the last poll. */
    method Submit(data: seq<nat>, pace: seq<nat>, pace': seq<nat>) returns (r: Result<()>)
      requires Valid()
      modifies this`readPos, this`consumed, this`pendingWptr, this`log, base
      ensures Valid() && old(readPos) <= readPos
      ensures Cut32(data) == [] ==> r == Ok(()) && log == old(log)
      ensures |Cut32(data)| >= cap ==> r == Err(EMSGSIZE) && log == old(log)
      ensures 0 < |Cut32(data)| < cap && r.Ok? ==>
        log == old(log) + PadFor(old(pendingWptr), |Cut32(data)|, cap) + [Data(Cut32(data))]
      ensures 0 < |Cut32(data)| < cap && r.Err? ==> r.error == ETIMEDOUT
      ensures 0 < |Cut32(data)| < cap && r.Err? ==>
        var padding := PadFor(old(pendingWptr), |Cut32(data)|, cap);
        if log == old(log) + padding then pendingWptr - readPos + |Cut32(data)| >= cap
        else log == old(log) && pendingWptr - readPos + padding[0].n >= cap
      ensures 0 < |Cut32(data)| < cap ==>
        if PadFor(old(pendingWptr), |Cut32(data)|, cap) == [] then
          r.Ok? <==> old(RoomAfter(|Cut32(data)|, Total(pace')))
        else
          log != old(log) <==> old(RoomAfter(cap - pendingWptr % cap, Total(pace)))
      ensures |Cut32(data)| < cap && old(Draining(|Cut32(data)|, pace, pace')) ==> r.Ok?
    {
      hide Parse, Placed, RingSize, Stream, Sound, RoomAfter;
      var n := |data| % TWO32;
      if n == 0 {
        return Ok(());
      }
      if n >= cap {
        return Err(EMSGSIZE);
      }
      ghost var draining := Draining(n, pace, pace');
      if pendingWptr % cap + n > cap {
        if draining {
          RoomInTime(cap - pendingWptr % cap, Total(pace));
          PadKeepsSound(Engine(), log, pendingWptr, n, cap);
        }
        var padded := PadToEnd(pace);
        if !padded {
          return Err(ETIMEDOUT);
        }
      }
      if draining {
        RoomInTime(n, Total(pace'));
      }
      var ok := WaitForRoom(n, pace');
      if !ok {
        return Err(ETIMEDOUT);
      }
      Write(data[..n]);
      Publish(Data(data[..n]), n);
      return Ok(());
    }

    /** The ring reads back and will after padding for `n` more dwords, and at either wait the engine has time to
        drain it. */
    ghost predicate Draining(n: nat, pace: seq<nat>, pace': seq<nat>)
      requires Valid()
      reads this, base
    {
      Sound(Engine(), log) && PadsWell(Engine(), pendingWptr, n, cap) && cap <= Total(pace) && cap <= Total(pace')
    }

    // ----- the ring refines a FIFO of packets -----

    /** At any moment, what the engine has consumed followed by what it will read is the submitted packets in
        order with only NOPs between; the unread part is whole packets, and none crosses the end. */
    lemma RefinesFifo()
      requires Valid() && Sound(Engine(), log)
      ensures Parse(Engine(), Stream()).Some? && Parse(Engine(), Stream()[readPos..]).Some?
      ensures consumed + Parse(Engine(), Stream()[readPos..]).value == Parse(Engine(), Stream()).value
      ensures OnlyNopsAdded(Engine(), Parse(Engine(), Stream()).value, Submitted(Engine(), log))
      ensures Fits(Parse(Engine(), Stream()).value, 0, cap)
    {
      hide Parse, Fits, OnlyNopsAdded, Submitted, Placed, RingSize, Sound;
      LogParses(Engine(), log);
      LogFits(Engine(), log, cap);
      assert Stream()[..readPos] + Stream()[readPos..] == Stream();
      ParseAppend(Engine(), Stream()[..readPos], Stream()[readPos..]);
    }

    /** What the engine has consumed and will read are the packets `sub` in order with only NOPs between, and no packet
        crosses the end of the ring. */
    ghost predicate Delivers(sub: seq<seq<nat>>)
      requires Valid()
      reads this, base
    {
      Parse(Engine(), Stream()[readPos..]).Some? &&
      var all := consumed + Parse(Engine(), Stream()[readPos..]).value;
      OnlyNopsAdded(Engine(), all, sub) && Fits(all, 0, cap)
    }

    /** Any sequence of submissions of whole packets, at any pace, timeouts and refusals included. `ok` says which were
        accepted. The engine gets exactly the accepted packets in order with only NOPs between: on SDMA always, on
        PM4 if and only if no padding was above MAX_PAD, which submissions of at most MAX_PAD + 1 dwords guarantee.
        When they are below the ring size too, and the engine has time to drain the ring at each wait, all are. */
    method SubmitAll(work: seq<seq<nat>>, paces: seq<(seq<nat>, seq<nat>)>) returns (ok: seq<bool>)
      requires Valid() && log == [] && |paces| == |work|
      requires forall i :: 0 <= i < |work| ==> Parse(Engine(), Cut32(work[i])).Some?
      modifies this`readPos, this`consumed, this`pendingWptr, this`log, base
      ensures Valid() && |ok| == |work|
      ensures Delivers(PacketsOf(Engine(), Kept(work, ok))) <==>
              Engine().SDMA? || forall i :: 0 <= i < |log| ==> !LongPad(log[i])
      ensures AllShort(Engine(), work) ==> Delivers(PacketsOf(Engine(), Kept(work, ok)))
      ensures AllShort(Engine(), work) && AllInTime(work, paces, cap) ==> forall i :: 0 <= i < |ok| ==> ok[i]
    {
      hide Parse, Placed, RingSize, Fits, OnlyNopsAdded, Stream, Submitted, Sound, WholePackets, Cut32, Total, Kept,
           PacketsOf, AllShort, AllInTime, Short, PadsWell, RoomAfter;
      ok := [];
      NothingSubmitted(Engine());
      for k := 0 to |work|
        invariant Valid() && |ok| == k && WholePackets(Engine(), log)
        invariant Submitted(Engine(), log) == PacketsOf(Engine(), Kept(work[..k], ok))
        invariant AllShort(Engine(), work) ==> Sound(Engine(), log)
        invariant AllShort(Engine(), work) && AllInTime(work, paces, cap) ==> forall i :: 0 <= i < |ok| ==> ok[i]
      {
        ghost var before, wptr := log, pendingWptr;
        InTimeAt(Engine(), work, paces, cap, k, wptr);
        var r := Submit(work[k], paces[k].0, paces[k].1);
        AfterSubmit(Engine(), before, log, wptr, Cut32(work[k]), cap, r.Ok?);
        ok := ok + [r.Ok?];
        OneMoreKept(Engine(), work[..k], ok[..k], work[k], r.Ok?);
        assert work[..k] + [work[k]] == work[..k + 1] && ok[..k] + [r.Ok?] == ok;
      }
      assert work[..|work|] == work;
      Deliver();
    }

    /** The packets submitted are delivered if and only if no padding blocks the engine. */
    lemma Deliver()
      requires Valid() && WholePackets(Engine(), log)
      ensures Delivers(Submitted(Engine(), log)) <==>
              Engine().SDMA? || forall i :: 0 <= i < |log| ==> !LongPad(log[i])
      ensures Sound(Engine(), log) ==> Delivers(Submitted(Engine(), log))
    {
      hide Parse, Fits, OnlyNopsAdded, Submitted, Placed, RingSize, Sound, WholePackets;
      ReadsBackIff(Engine(), log);
      if Sound(Engine(), log) {
        RefinesFifo();
      }
      if Delivers(Submitted(Engine(), log)) {
        assert Stream()[..readPos] + Stream()[readPos..] == Stream();
        ParseAppend(Engine(), Stream()[..readPos], Stream()[readPos..]);
      }
    }
  }

  /** How many packets the engine gets through in all. */
  function Total(pace: seq<nat>): nat {
    if pace == [] then 0 else Total(pace[..|pace| - 1]) + pace[|pace| - 1]
  }

  lemma {:induction false} TotalSplits(pace: seq<nat>, k: nat)
    requires k <= |pace|
    ensures Total(pace[..k]) <= Total(pace)
    ensures k < |pace| ==> Total(pace[..k + 1]) == Total(pace[..k]) + pace[k]
    ensures k == |pace| ==> Total(pace[..k]) == Total(pace)
    ensures Total(pace[..0]) == 0
    decreases |pace| - k
  {
    assert pace[..|pace|] == pace;
    if k < |pace| {
      assert pace[..k + 1][..k] == pace[..k];
      TotalSplits(pace, k + 1);
    }
  }

  /** The part of a submission that a 32-bit size covers. */
  function Cut32(data: seq<nat>): seq<nat> { data[..|data| % TWO32] }

  /** Padding for a submission of this size never blocks the engine. */
  predicate Short(e: Engine, n: nat) { e.SDMA? || n <= MAX_PAD + 1 }

  ghost predicate AllShort(e: Engine, work: seq<seq<nat>>) {
    forall i :: 0 <= i < |work| ==> Short(e, |Cut32(work[i])|)
  }

  /** Every submission is smaller than the ring, and at each of its waits the engine has time for as many packets as
      the ring has slots. */
  ghost predicate AllInTime(work: seq<seq<nat>>, paces: seq<(seq<nat>, seq<nat>)>, cap: nat)
    requires |paces| == |work|
  {
    forall i :: 0 <= i < |work| ==> |Cut32(work[i])| < cap <= Min(Total(paces[i].0), Total(paces[i].1))
  }

  /** What that says of one submission. */
  lemma InTimeAt(e: Engine, work: seq<seq<nat>>, paces: seq<(seq<nat>, seq<nat>)>, cap: nat, k: nat, wptr: nat)
    requires |paces| == |work| && k < |work| && cap > 0
    ensures AllShort(e, work) ==> Short(e, |Cut32(work[k])|)
    ensures AllShort(e, work) && AllInTime(work, paces, cap) ==>
      var n := |Cut32(work[k])|;
      n < cap && PadsWell(e, wptr, n, cap) && cap <= Total(paces[k].0) && cap <= Total(paces[k].1)
  {
  }

  /** The accepted submissions. */
  function Kept(work: seq<seq<nat>>, ok: seq<bool>): seq<seq<nat>>
    requires |work| == |ok|
  {
    if work == [] then []
    else
      var n := |work| - 1;
      Kept(work[..n], ok[..n]) + if ok[n] then [Cut32(work[n])] else []
  }

  /** Their packets; a submission that is not whole packets has none. */
  function PacketsOf(e: Engine, datas: seq<seq<nat>>): seq<seq<nat>> {
    if datas == [] then []
    else
      var n := |datas| - 1;
      PacketsOf(e, datas[..n]) + (match Parse(e, datas[n]) case Some(ps) => ps case None => [])
  }

  lemma NothingSubmitted(e: Engine)
    ensures WholePackets(e, []) && Sound(e, []) && Submitted(e, []) == [] == PacketsOf(e, Kept([], []))
  {
  }

  lemma OneMoreKept(e: Engine, work: seq<seq<nat>>, ok: seq<bool>, data: seq<nat>, accepted: bool)
    requires |work| == |ok| && Parse(e, Cut32(data)).Some?
    ensures PacketsOf(e, Kept(work + [data], ok + [accepted])) ==
            PacketsOf(e, Kept(work, ok)) + if accepted then Parse(e, Cut32(data)).value else []
  {
    hide Parse, Cut32;
    var w, o := work + [data], ok + [accepted];
    assert w[..|w| - 1] == work && o[..|w| - 1] == ok;
    if accepted {
      var ds := Kept(work, ok) + [Cut32(data)];
      assert Kept(w, o) == ds && ds[..|ds| - 1] == Kept(work, ok);
    } else {
      assert Kept(w, o) == Kept(work, ok);
    }
  }

  /** What a submission does to the packets in the log. */
  lemma AfterSubmit(e: Engine, before: seq<Chunk>, after: seq<Chunk>, wptr: nat, data: seq<nat>, cap: nat, ok: bool)
    requires cap > 0 && WholePackets(e, before) && Parse(e, data).Some?
    requires ok ==> (data == [] && after == before) || after == before + PadFor(wptr, |data|, cap) + [Data(data)]
    requires !ok ==> after == before || (|data| < cap && after == before + PadFor(wptr, |data|, cap))
    ensures WholePackets(e, after)
    ensures Submitted(e, after) == Submitted(e, before) + if ok then Parse(e, data).value else []
    ensures Sound(e, before) && Short(e, |data|) ==> Sound(e, after)
  {
    hide Parse, Submitted, Sound, WholePackets, Padding, ReadsAsNops;
    EmptyParses(e);
    assert Submitted(e, before) + [] == Submitted(e, before);
    if after != before {
      var pad := PadFor(wptr, |data|, cap);
      if pad != [] {
        PaddingReadsIff(e, pad[0].n);
        SubmittedAppend(e, before, pad[0]);
        assert Submitted(e, before + pad) + [] == Submitted(e, before + pad);
      } else {
        assert before + pad == before;
      }
      if ok {
        SubmittedAppend(e, before + pad, Data(data));
      }
    }
  }

  lemma EmptyParses(e: Engine)
    ensures Parse(e, []) == Some([])
  {
  }

  /** The padding a submission of `n` dwords needs. */
  function PadFor(wptr: nat, n: nat, cap: nat): seq<Chunk>
    requires cap > 0
  {
    if wptr % cap + n > cap then [Pad(cap - wptr % cap)] else []
  }

  /** That padding is short enough to be one NOP, or for an engine that reads the rest as more. */
  predicate PadsWell(e: Engine, wptr: nat, n: nat, cap: nat)
    requires cap > 0
  {
    e.SDMA? || wptr % cap + n <= cap || cap - wptr % cap <= MAX_PAD
  }

  lemma PadKeepsSound(e: Engine, log: seq<Chunk>, wptr: nat, n: nat, cap: nat)
    requires cap > 0 && Sound(e, log) && PadsWell(e, wptr, n, cap)
    ensures Sound(e, log + PadFor(wptr, n, cap))
  {
    hide Padding, ReadsAsNops, Parse;
    var pad := PadFor(wptr, n, cap);
    if pad != [] {
      PaddingReadsIff(e, pad[0].n);
      SubmittedAppend(e, log, pad[0]);
    } else {
      assert log + pad == log;
    }
  }

  lemma NextTurn(wptr: nat, cap: nat)
    requires cap > 0
    ensures (wptr + (cap - wptr % cap)) % cap == 0
  {
    assert wptr + (cap - wptr % cap) == cap * (wptr / cap + 1);
    ModOfMultiple(cap, wptr / cap + 1);
  }

  /** After a submission of whole packets to a ring that reads back, the ring reads back if and only if it is an SDMA
      ring or the padding was at most MAX_PAD, which a submission of at most MAX_PAD + 1 dwords guarantees. */
  lemma SubmitReadsBackIff(e: Engine, log: seq<Chunk>, wptr: nat, data: seq<nat>, cap: nat)
    requires cap > 0 && WholePackets(e, log) && ReadsBack(e, log) && Parse(e, data).Some? && |data| < cap
    ensures WholePackets(e, log + PadFor(wptr, |data|, cap) + [Data(data)])
    ensures ReadsBack(e, log + PadFor(wptr, |data|, cap) + [Data(data)]) <==>
            PadsWell(e, wptr, |data|, cap)
    ensures Short(e, |data|) ==> ReadsBack(e, log + PadFor(wptr, |data|, cap) + [Data(data)])
  {
    hide Parse, ReadsBack, Sound, Submitted;
    var pad := PadFor(wptr, |data|, cap);
    var log' := log + pad + [Data(data)];
    AfterSubmit(e, log, log', wptr, data, cap, true);
    ReadsBackIff(e, log);
    ReadsBackIff(e, log');
    assert forall i :: 0 <= i < |log| ==> log'[i] == log[i];
    assert pad != [] ==> log'[|log|] == pad[0];
    assert log'[|log'| - 1] == Data(data);
  }

  /** Both waits of a submit can be met: the padding is smaller than the submission, so once the engine has
      drained the ring there is room for either. */
  lemma WaitsAreSatisfiable(cap: nat, wptr: nat, n: nat)
    requires RingSize(cap) && 0 < n < cap
    ensures wptr % cap + n > cap ==> 0 < cap - wptr % cap < n
    ensures InFlight(wptr, cap, wptr % cap) + n < cap
    ensures wptr % cap + n > cap ==> InFlight(wptr, cap, wptr % cap) + (cap - wptr % cap) < cap
  {
    ModOfMultiple(cap, 1);
  }
}
