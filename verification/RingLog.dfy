/** What a ring has published, as a log of submissions and wrap padding, and why reading it back packet by packet
    gives the submissions in order. */
module RingLog {
  import opened Util
  import opened Arith
  import opened Packets

  /** One publication: padding up to the end of the ring, or one submission. */
  datatype Chunk = Pad(n: nat) | Data(words: seq<nat>)

  function Words(e: Engine, c: Chunk): seq<nat> {
    match c case Pad(n) => Padding(e, n) case Data(words) => words
  }

  /** Every dword published so far. */
  function Flat(e: Engine, log: seq<Chunk>): seq<nat> {
    if log == [] then [] else Flat(e, log[..|log| - 1]) + Words(e, log[|log| - 1])
  }

  /** No publication crosses the end of the ring. */
  ghost predicate Placed(e: Engine, log: seq<Chunk>, cap: nat)
    requires cap > 0
  {
    log == [] ||
    (Placed(e, log[..|log| - 1], cap) &&
     |Flat(e, log[..|log| - 1])| % cap + |Words(e, log[|log| - 1])| <= cap)
  }

  lemma FlatAppend(e: Engine, log: seq<Chunk>, c: Chunk, cap: nat)
    requires cap > 0 && Placed(e, log, cap) && |Flat(e, log)| % cap + |Words(e, c)| <= cap
    ensures Flat(e, log + [c]) == Flat(e, log) + Words(e, c) && Placed(e, log + [c], cap)
  {
    assert (log + [c])[..|log|] == log;
  }

  /** Submissions hold whole packets. */
  ghost predicate WholePackets(e: Engine, log: seq<Chunk>) {
    forall i :: 0 <= i < |log| && log[i].Data? ==> Parse(e, log[i].words).Some?
  }

  /** And every stretch of padding reads as NOPs. */
  ghost predicate Sound(e: Engine, log: seq<Chunk>) {
    WholePackets(e, log) && forall i :: 0 <= i < |log| && log[i].Pad? ==> ReadsAsNops(e, Padding(e, log[i].n))
  }

  /** The packets submitted, in order. */
  ghost function Submitted(e: Engine, log: seq<Chunk>): seq<seq<nat>>
    requires WholePackets(e, log)
  {
    if log == [] then []
    else
      Submitted(e, log[..|log| - 1]) +
      (match log[|log| - 1] case Pad(_) => [] case Data(words) => Parse(e, words).value)
  }

  /** `all` is `sub` with NOP packets inserted. */
  ghost predicate OnlyNopsAdded(e: Engine, all: seq<seq<nat>>, sub: seq<seq<nat>>)
    decreases |all|
  {
    if all == [] then sub == []
    else
      var init, last := all[..|all| - 1], all[|all| - 1];
      || (sub != [] && last == sub[|sub| - 1] && OnlyNopsAdded(e, init, sub[..|sub| - 1]))
      || (IsNop(e, last) && OnlyNopsAdded(e, init, sub))
  }

  lemma {:induction false} NopsAppend(e: Engine, all: seq<seq<nat>>, sub: seq<seq<nat>>, ps: seq<seq<nat>>)
    requires OnlyNopsAdded(e, all, sub)
    ensures OnlyNopsAdded(e, all + ps, sub + ps)
    decreases |ps|
  {
    if ps == [] {
      assert all + ps == all && sub + ps == sub;
    } else {
      var n := |ps| - 1;
      NopsAppend(e, all, sub, ps[..n]);
      assert (all + ps)[..|all + ps| - 1] == all + ps[..n];
      assert (sub + ps)[..|sub + ps| - 1] == sub + ps[..n];
    }
  }

  lemma {:induction false} OnlyNopsAppended(e: Engine, all: seq<seq<nat>>, sub: seq<seq<nat>>, nops: seq<seq<nat>>)
    requires OnlyNopsAdded(e, all, sub) && forall i :: 0 <= i < |nops| ==> IsNop(e, nops[i])
    ensures OnlyNopsAdded(e, all + nops, sub)
    decreases |nops|
  {
    hide IsNop;
    if nops == [] {
      assert all + nops == all;
    } else {
      OnlyNopsAppended(e, all, sub, nops[..|nops| - 1]);
      assert (all + nops)[..|all + nops| - 1] == all + nops[..|nops| - 1];
    }
  }

  /** Reading a sound log back gives the submissions in order with only NOPs between. */
  lemma {:induction false} LogParses(e: Engine, log: seq<Chunk>)
    requires Sound(e, log)
    ensures Parse(e, Flat(e, log)).Some?
    ensures OnlyNopsAdded(e, Parse(e, Flat(e, log)).value, Submitted(e, log))
  {
    hide Padding, IsNop, PacketLen, Parse, OnlyNopsAdded;
    if log == [] {
      NothingParses(e);
    } else {
      var init, c := log[..|log| - 1], log[|log| - 1];
      LogParses(e, init);
      ParseAppend(e, Flat(e, init), Words(e, c));
      var all, sub := Parse(e, Flat(e, init)).value, Submitted(e, init);
      match c {
        case Pad(n) =>
          OnlyNopsAppended(e, all, sub, Parse(e, Padding(e, n)).value);
          assert sub + [] == sub;
        case Data(words) =>
          NopsAppend(e, all, sub, Parse(e, words).value);
      }
    }
  }

  lemma NothingParses(e: Engine)
    ensures Parse(e, []) == Some([]) && OnlyNopsAdded(e, [], [])
  {
  }

  /** Publishing adds the packets of a submission and nothing for padding. */
  lemma SubmittedAppend(e: Engine, log: seq<Chunk>, c: Chunk)
    requires WholePackets(e, log) && (c.Data? ==> Parse(e, c.words).Some?)
    ensures WholePackets(e, log + [c])
    ensures Submitted(e, log + [c]) == Submitted(e, log) + if c.Data? then Parse(e, c.words).value else []
    ensures Sound(e, log) && (c.Pad? ==> ReadsAsNops(e, Padding(e, c.n))) ==> Sound(e, log + [c])
  {
    hide Parse, ReadsAsNops, Padding;
    assert (log + [c])[..|log + [c]| - 1] == log;
  }

  // ----- exactly which logs read back -----

  /** The stream is whole packets: the submitted ones in order with only NOPs between. */
  ghost predicate ReadsBack(e: Engine, log: seq<Chunk>)
    requires WholePackets(e, log)
  {
    Parse(e, Flat(e, log)).Some? && OnlyNopsAdded(e, Parse(e, Flat(e, log)).value, Submitted(e, log))
  }

  predicate LongPad(c: Chunk) { c.Pad? && c.n > MAX_PAD }

  lemma {:induction false} FlatConcat(e: Engine, a: seq<Chunk>, b: seq<Chunk>)
    ensures Flat(e, a + b) == Flat(e, a) + Flat(e, b)
  {
    hide Words;
    if b == [] {
      assert a + b == a && Flat(e, a) + [] == Flat(e, a);
    } else {
      assert (a + b)[..|a + b| - 1] == a + b[..|b| - 1];
      FlatConcat(e, a, b[..|b| - 1]);
      Assoc(Flat(e, a), Flat(e, b[..|b| - 1]), Words(e, b[|b| - 1]));
    }
  }

  /** A PM4 log is not a stream of packets at all once it holds a long padding. */
  lemma LongPadBlocks(log: seq<Chunk>, k: nat)
    requires WholePackets(PM4, log) && k < |log| && LongPad(log[k])
    requires forall i :: 0 <= i < k ==> !LongPad(log[i])
    ensures Parse(PM4, Flat(PM4, log)).None?
  {
    hide Parse, Padding, IsNop, Flat, OnlyNopsAdded;
    var before, rest := log[..k], log[k + 1..];
    forall i | 0 <= i < k && log[i].Pad? ensures ReadsAsNops(PM4, Padding(PM4, log[i].n)) {
      PaddingReadsIff(PM4, log[i].n);
    }
    LogParses(PM4, before);
    LongPm4PaddingBlocks(log[k].n, Flat(PM4, rest));
    assert log == before + ([log[k]] + rest);
    FlatConcat(PM4, before, [log[k]] + rest);
    FlatConcat(PM4, [log[k]], rest);
    FlatOne(PM4, log[k]);
    ParseAppend(PM4, Flat(PM4, before), Padding(PM4, log[k].n) + Flat(PM4, rest));
  }

  lemma FlatOne(e: Engine, c: Chunk)
    ensures Flat(e, [c]) == Words(e, c)
  {
    assert [c][..0] == [];
    assert [] + Words(e, c) == Words(e, c);
  }

  /** A log reads back if and only if it is an SDMA log or holds no padding above MAX_PAD. */
  lemma ReadsBackIff(e: Engine, log: seq<Chunk>)
    requires WholePackets(e, log)
    ensures ReadsBack(e, log) <==> e.SDMA? || forall i :: 0 <= i < |log| ==> !LongPad(log[i])
    ensures ReadsBack(e, log) <==> Sound(e, log)
  {
    hide Parse, Padding, IsNop, Flat, OnlyNopsAdded, Submitted, ReadsAsNops;
    forall i | 0 <= i < |log| && log[i].Pad?
      ensures ReadsAsNops(e, Padding(e, log[i].n)) <==> e.SDMA? || !LongPad(log[i])
    {
      PaddingReadsIff(e, log[i].n);
    }
    if e.SDMA? || forall i :: 0 <= i < |log| ==> !LongPad(log[i]) {
      LogParses(e, log);
    } else {
      var k: nat := 0;
      while !LongPad(log[k])
        invariant k < |log| && forall i :: 0 <= i < k ==> !LongPad(log[i])
        invariant exists i :: k <= i < |log| && LongPad(log[i])
        decreases |log| - k
      {
        k := k + 1;
      }
      LongPadBlocks(log, k);
    }
  }

  // ----- no packet crosses the end of the ring -----

  /** Packets laid end to end from `start` each stay within one turn of the ring. */
  ghost predicate Fits(ps: seq<seq<nat>>, start: nat, cap: nat)
    requires cap > 0
  {
    ps == [] || (start % cap + |ps[0]| <= cap && Fits(ps[1..], start + |ps[0]|, cap))
  }

  lemma {:induction false} FitsAppend(ps: seq<seq<nat>>, qs: seq<seq<nat>>, start: nat, cap: nat)
    requires cap > 0 && Fits(ps, start, cap) && Fits(qs, start + |Flatten(ps)|, cap)
    ensures Fits(ps + qs, start, cap)
  {
    if ps == [] {
      assert ps + qs == qs;
    } else {
      assert (ps + qs)[1..] == ps[1..] + qs;
      FitsAppend(ps[1..], qs, start + |ps[0]|, cap);
    }
  }

  lemma {:induction false} FitsTogether(ps: seq<seq<nat>>, start: nat, cap: nat)
    requires cap > 0 && start % cap + |Flatten(ps)| <= cap && forall i :: 0 <= i < |ps| ==> ps[i] != []
    ensures Fits(ps, start, cap)
  {
    if |ps| > 1 {
      assert ps[1..][0] != [] && |Flatten(ps[1..])| >= |ps[1]|;
      assert start + |ps[0]| == start % cap + |ps[0]| + cap * (start / cap);
      ModAddMultiple(start % cap + |ps[0]|, cap, start / cap);
      DivModUnique(start % cap + |ps[0]|, cap, 0, start % cap + |ps[0]|);
      FitsTogether(ps[1..], start + |ps[0]|, cap);
    }
  }

  lemma {:induction false} PacketsNonempty(e: Engine, s: seq<nat>)
    requires Parse(e, s).Some?
    ensures forall i :: 0 <= i < |Parse(e, s).value| ==> Parse(e, s).value[i] != []
  {
    hide PacketLen;
    if s != [] {
      var n := PacketLen(e, s[0]);
      PacketsNonempty(e, s[n..]);
      assert Parse(e, s).value == [s[..n]] + Parse(e, s[n..]).value;
    }
  }

  lemma FitsStream(e: Engine, a: seq<nat>, w: seq<nat>, cap: nat)
    requires cap > 0 && Parse(e, a).Some? && Parse(e, w).Some? && Fits(Parse(e, a).value, 0, cap)
    requires |a| % cap + |w| <= cap
    ensures Parse(e, a + w).Some? && Fits(Parse(e, a + w).value, 0, cap)
  {
    hide PacketLen, Fits;
    ParseAppend(e, a, w);
    ParseFlattens(e, a);
    ParseFlattens(e, w);
    PacketsNonempty(e, w);
    hide Parse, Flatten;
    FitsTogether(Parse(e, w).value, |a|, cap);
    FitsAppend(Parse(e, a).value, Parse(e, w).value, 0, cap);
  }

  lemma {:induction false} LogFits(e: Engine, log: seq<Chunk>, cap: nat)
    requires cap > 0 && Sound(e, log) && Placed(e, log, cap)
    ensures Parse(e, Flat(e, log)).Some? && Fits(Parse(e, Flat(e, log)).value, 0, cap)
  {
    hide Padding, IsNop, Parse, Fits;
    if log == [] {
      NothingFits(e, cap);
    } else {
      var init, c := log[..|log| - 1], log[|log| - 1];
      LogFits(e, init, cap);
      FitsStream(e, Flat(e, init), Words(e, c), cap);
    }
  }

  lemma NothingFits(e: Engine, cap: nat)
    requires cap > 0
    ensures Parse(e, []) == Some([]) && Fits([], 0, cap)
  {
  }
}
