/** The ring's two pointer units and the truncated read pointer (lib/queue.cpp, include/libkfd/queue.h). */
module RingPointers {
  import opened Util
  import opened Arith

  datatype QueueType = COMPUTE | SDMA | SDMA_XGMI

  /** A ring of at most 2^31 bytes, the largest power of two in 32 bits. */
  const MAX_RING_DWORDS: nat := 0x2000_0000

  ghost predicate RingSize(cap: nat) {
    PowerOfTwo(cap) && cap <= MAX_RING_DWORDS
  }

  /** What the host loads from the low word of the hardware read pointer. PM4 engines count dwords, SDMA
      engines bytes; either may report a position within the ring or a running total. */
  function ReadRegister(qtype: QueueType, wrapped: bool, cap: nat, readPos: nat): nat
    requires cap > 0
  {
    ((if wrapped then readPos % cap else readPos) * (if qtype.COMPUTE? then 1 else 4)) % TWO32
  }

  /** The host's conversion of that word to dwords. */
  function HostReadPos(qtype: QueueType, reg: nat): nat {
    if qtype.SDMA? then reg / 4 else reg
  }

  /** (pos + cap - rp) % cap in 32-bit unsigned arithmetic. */
  function InFlight(wptr: nat, cap: nat, rp: nat): nat
    requires cap > 0
  {
    (wptr % cap + cap - rp) % TWO32 % cap
  }

  lemma RingDivides(cap: nat)
    requires RingSize(cap)
    ensures cap > 0 && TWO32 % cap == 0 && (TWO32 / 4) % cap == 0
  {
    hide PowerOfTwo;
    TwoPowers();
    PowerDivides(cap, TWO32);
    PowerDivides(cap, TWO32 / 4);
  }

  /** The occupancy the host computes depends on the read pointer modulo the ring only. */
  lemma InFlightModulo(wptr: nat, cap: nat, rp: nat, readPos: int)
    requires RingSize(cap) && rp % cap == readPos % cap
    ensures InFlight(wptr, cap, rp) == (wptr - readPos) % cap
  {
    RingDivides(cap);
    ModMod(wptr % cap + cap - rp, TWO32, cap);
    ModCongruent(rp, readPos, wptr % cap + cap, cap);
    ModAddMultiple(wptr % cap - readPos, cap, 1);
    ModSum(wptr, -readPos, cap);
  }

  /** The read register names the true position modulo the ring, in dwords. */
  lemma RegisterModulo(qtype: QueueType, wrapped: bool, cap: nat, readPos: nat)
    requires RingSize(cap) && !qtype.SDMA_XGMI?
    ensures HostReadPos(qtype, ReadRegister(qtype, wrapped, cap, readPos)) % cap == readPos % cap
  {
    RingDivides(cap);
    var p := if wrapped then readPos % cap else readPos;
    ModMod(readPos, cap, cap);
    if qtype.COMPUTE? {
      ModMod(p, TWO32, cap);
    } else {
      ByteRegister(p);
      ModMod(p, TWO32 / 4, cap);
    }
  }

  lemma ByteRegister(p: nat)
    ensures (p * 4) % TWO32 / 4 == p % (TWO32 / 4)
  {
    var q, r := p / 0x4000_0000, p % 0x4000_0000;
    assert p * 4 == 4 * r + 0x1_0000_0000 * q;
    ModAddMultiple(4 * r, 0x1_0000_0000, q);
    assert (4 * r) % 0x1_0000_0000 == 4 * r;
  }

  /** Truncated read pointers suffice: for a read position less than one ring behind the write position the
      32-bit computation is the exact distance, on PM4 and on SDMA queues, wrapped or running. */
  lemma InFlightIsExact(qtype: QueueType, wrapped: bool, cap: nat, wptr: nat, readPos: nat)
    requires RingSize(cap) && !qtype.SDMA_XGMI? && readPos <= wptr < readPos + cap
    ensures InFlight(wptr, cap, HostReadPos(qtype, ReadRegister(qtype, wrapped, cap, readPos))) == wptr - readPos
  {
    RegisterModulo(qtype, wrapped, cap, readPos);
    InFlightModulo(wptr, cap, HostReadPos(qtype, ReadRegister(qtype, wrapped, cap, readPos)), readPos);
    DivModUnique(wptr - readPos, cap, 0, wptr - readPos);
  }

  /** An XGMI engine counts bytes too, but the host divides for plain SDMA only: there the occupancy is right
      exactly when three times the read position is a multiple of the ring. */
  lemma XgmiInFlightIff(wrapped: bool, cap: nat, wptr: nat, readPos: nat)
    requires RingSize(cap) && readPos <= wptr < readPos + cap
    ensures InFlight(wptr, cap, HostReadPos(SDMA_XGMI, ReadRegister(SDMA_XGMI, wrapped, cap, readPos)))
            == wptr - readPos
            <==> (3 * readPos) % cap == 0
  {
    RingDivides(cap);
    var p := if wrapped then readPos % cap else readPos;
    var rp := (p * 4) % TWO32;
    ModMod(p * 4, TWO32, cap);
    assert (p * 4) % cap == (readPos * 4) % cap by {
      if wrapped {
        assert readPos * 4 == p * 4 + cap * (4 * (readPos / cap));
        ModAddMultiple(p * 4, cap, 4 * (readPos / cap));
      }
    }
    InFlightModulo(wptr, cap, rp, readPos * 4);
    var d := wptr - readPos;
    DivModUnique(d, cap, 0, d);
    assert wptr - readPos * 4 == d - 3 * readPos;
    SubtractedIff(d, 3 * readPos, cap);
  }

  lemma SubtractedIff(d: int, t: int, cap: nat)
    requires cap > 0
    ensures (d - t) % cap == d % cap <==> t % cap == 0
  {
    if t % cap == 0 {
      ModCongruent(t, 0, d, cap);
    }
    if (d - t) % cap == d % cap {
      ModCongruent(d - t, d, d, cap);
      assert d - (d - t) == t;
    }
  }

  /** The write position handed to the hardware: bytes for plain SDMA, dwords otherwise. */
  function HwWritePos(qtype: QueueType, wptr: nat): nat { if qtype.SDMA? then wptr * 4 else wptr }

  /** What the engine makes of it, in dwords: SDMA engines count bytes, XGMI ones too. */
  function EngineWritePos(qtype: QueueType, told: nat): nat { if qtype.COMPUTE? then told else told / 4 }

  /** An engine is told the true write position if and only if it is not an XGMI engine, or there is nothing written. */
  lemma WritePosExactIff(qtype: QueueType, wptr: nat)
    ensures EngineWritePos(qtype, HwWritePos(qtype, wptr)) == wptr <==> !qtype.SDMA_XGMI? || wptr == 0
  {
    if qtype.SDMA_XGMI? {
      assert wptr == 4 * (wptr / 4) + wptr % 4;
    }
  }
}
