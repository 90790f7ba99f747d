/** Packet framing for the two command processors (include/libkfd/packets/pm4.h, sdma.h): how long the packet at
    a header is, how a stream splits into packets, and the NOP padding written at the end of a ring. A dword is
    a number below 2^32. */
module Packets {
  import opened Util
  import opened Arith

  datatype Engine = PM4 | SDMA

  const NOP: nat := 0x10
  const SET_SH_REG: nat := 0x76

  /** A type-3 header. The count field has 14 bits; the two bits above it land on the type bits, which are
      already set. */
  function Header(opcode: nat, count: nat): nat
    requires opcode < 0x100
  {
    0x2 + opcode * 0x100 + (count % 0x4000) * 0x1_0000 + 0xC000_0000
  }

  function Opcode(h: nat): nat { h / 0x100 % 0x100 }

  function Count(h: nat): nat { h / 0x1_0000 % 0x4000 }

  lemma HeaderFields(opcode: nat, count: nat)
    requires opcode < 0x100
    ensures Opcode(Header(opcode, count)) == opcode && Count(Header(opcode, count)) == count % 0x4000
    ensures Header(opcode, count) / 0x4000_0000 == 3
  {
    var h, c := Header(opcode, count), count % 0x4000;
    DivModUnique(h, 0x100, opcode + 0x100 * (c + 0xC000), 2);
    DivModUnique(opcode + 0x100 * (c + 0xC000), 0x100, c + 0xC000, opcode);
    DivModUnique(h, 0x1_0000, c + 0xC000, 2 + opcode * 0x100);
    DivModUnique(c + 0xC000, 0x4000, 3, c);
    DivModUnique(h, 0x4000_0000, 3, 2 + opcode * 0x100 + c * 0x1_0000);
  }

  const CMD_NOP: nat := Header(NOP, 0x3FFF)

  /** The length of the packet that starts with `h`, or 0 when `h` starts no packet. A NOP (0x10) with all count bits
      set is one dword long. */
  function PacketLen(e: Engine, h: nat): nat {
    match e
    case PM4 =>
      if h / 0x4000_0000 != 3 then 0
      else if Opcode(h) == 0x10 && Count(h) == 0x3FFF then 1
      else Count(h) + 2
    case SDMA =>
      match h % 0x100
      case 0 => Count(h) + 1
      case 1 => 7
      case 5 => 4
      case 6 => 2
      case 8 => 6
      case 10 => 8
      case 11 => 5
      case 13 => 3
      case 17 => 5
      case _ => 0
  }

  /** The packets the library submits to SDMA engines, by the operation in the low byte of their header: COPY, FENCE,
      TRAP, POLL_REGMEM, ATOMIC, CONST_FILL, TIMESTAMP and GCR_REQ. */
  lemma SdmaPacketLengths(h: nat)
    ensures h % 0x100 in {1, 5, 6, 8, 10, 11, 13, 17} ==>
      PacketLen(SDMA, h) == map[1 := 7, 5 := 4, 6 := 2, 8 := 6, 10 := 8, 11 := 5, 13 := 3, 17 := 5][h % 0x100]
  {
    hide Count;
  }

  predicate IsNop(e: Engine, p: seq<nat>) {
    p != [] && match e case PM4 => Opcode(p[0]) == 0x10 case SDMA => p[0] % 0x100 == 0
  }

  /** A stream as whole packets, if it is one. */
  function Parse(e: Engine, s: seq<nat>): Option<seq<seq<nat>>> {
    if s == [] then Some([])
    else
      var n := PacketLen(e, s[0]);
      if n == 0 || n > |s| then None
      else
        match Parse(e, s[n..])
        case None => None
        case Some(rest) => Some([s[..n]] + rest)
  }

  function Flatten(ps: seq<seq<nat>>): seq<nat> {
    if ps == [] then [] else ps[0] + Flatten(ps[1..])
  }

  lemma {:induction false} ParseAppend(e: Engine, a: seq<nat>, b: seq<nat>)
    requires Parse(e, a).Some?
    ensures Parse(e, a + b) ==
            if Parse(e, b).Some? then Some(Parse(e, a).value + Parse(e, b).value) else None
  {
    hide PacketLen;
    if a == [] {
      assert a + b == b && Parse(e, a).value == [];
      assert Parse(e, b).Some? ==> [] + Parse(e, b).value == Parse(e, b).value;
    } else {
      var n := PacketLen(e, a[0]);
      Cut(a, b, n);
      ParseAppend(e, a[n..], b);
      if Parse(e, b).Some? {
        Assoc([a[..n]], Parse(e, a[n..]).value, Parse(e, b).value);
      }
    }
  }

  lemma {:induction false} ParseFlattens(e: Engine, s: seq<nat>)
    requires Parse(e, s).Some?
    ensures Flatten(Parse(e, s).value) == s
  {
    hide PacketLen;
    if s != [] {
      var n := PacketLen(e, s[0]);
      ParseFlattens(e, s[n..]);
      var ps := Parse(e, s).value;
      assert ps[0] == s[..n] && ps[1..] == Parse(e, s[n..]).value;
    }
  }

  /** One packet parses to itself exactly when its header gives its length. */
  lemma ParseSingle(e: Engine, p: seq<nat>)
    requires p != []
    ensures Parse(e, p) == Some([p]) <==> PacketLen(e, p[0]) == |p|
  {
    hide PacketLen;
    var n := PacketLen(e, p[0]);
    if n == |p| {
      assert p[n..] == [] && p[..n] == p;
      assert Parse(e, p[n..]) == Some([]);
      assert [p[..n]] + [] == [p];
    } else if 0 < n < |p| && Parse(e, p[n..]).Some? {
      assert ([p[..n]] + Parse(e, p[n..]).value)[0] == p[..n];
      assert |p[..n]| != |p|;
    }
  }

  // ----- how far an engine gets -----

  /** The dwords of the first `k` packets of a stream, as far as it is packets. */
  function Taken(e: Engine, s: seq<nat>, k: nat): (t: nat)
    ensures t <= |s|
  {
    if k == 0 || s == [] then 0
    else
      var n := PacketLen(e, s[0]);
      if n == 0 || n > |s| then 0 else n + Taken(e, s[n..], k - 1)
  }

  lemma {:induction false} TakenMore(e: Engine, s: seq<nat>, k: nat, more: nat)
    ensures Taken(e, s, k + more) == Taken(e, s, k) + Taken(e, s[Taken(e, s, k)..], more)
    decreases k
  {
    hide PacketLen, Taken;
    if k == 0 || Taken(e, s, 1) == 0 {
      TakenStops(e, s, k);
      TakenStops(e, s, k + more);
      TakenStops(e, s, more);
      assert s[0..] == s;
    } else {
      TakenNext(e, s, k);
      TakenNext(e, s, k + more);
      var n := PacketLen(e, s[0]);
      TakenMore(e, s[n..], k - 1, more);
      assert s[n..][Taken(e, s[n..], k - 1)..] == s[Taken(e, s, k)..];
    }
  }

  lemma TakenStops(e: Engine, s: seq<nat>, k: nat)
    ensures k == 0 || Taken(e, s, 1) == 0 ==> Taken(e, s, k) == 0
  {
    hide PacketLen;
  }

  lemma TakenNext(e: Engine, s: seq<nat>, k: nat)
    requires k > 0 && Taken(e, s, 1) > 0
    ensures 0 < PacketLen(e, s[0]) <= |s|
    ensures Taken(e, s, k) == PacketLen(e, s[0]) + Taken(e, s[PacketLen(e, s[0])..], k - 1)
  {
    hide PacketLen;
  }

  /** More packets, from where `k` packets end. */
  lemma TakenFrom(e: Engine, s: seq<nat>, start: nat, k: nat, more: nat)
    requires start <= |s|
    ensures var pos := start + Taken(e, s[start..], k);
      pos <= |s| && Taken(e, s[start..], k + more) == pos - start + Taken(e, s[pos..], more)
  {
    hide PacketLen, Taken;
    TakenMore(e, s[start..], k, more);
    assert s[start..][Taken(e, s[start..], k)..] == s[start + Taken(e, s[start..], k)..];
  }

  /** On a stream of whole packets it is at least a dword a packet, until the stream is used up. */
  lemma {:induction false} TakenAtLeast(e: Engine, s: seq<nat>, k: nat)
    requires Parse(e, s).Some?
    ensures Min(k, |s|) <= Taken(e, s, k)
    decreases k
  {
    hide PacketLen;
    if k > 0 && s != [] {
      TakenAtLeast(e, s[PacketLen(e, s[0])..], k - 1);
    }
  }

  // ----- padding -----

  function Zeros(n: nat): (z: seq<nat>)
    ensures |z| == n
  {
    seq(n, _ => 0)
  }

  /** The words written over the `n` unused slots at the end of a ring. The PM4 count is truncated to 16 bits on
      the way into the header; the SDMA count is shifted into a 32-bit word. */
  function Padding(e: Engine, n: nat): (p: seq<nat>)
    ensures |p| == n
  {
    if n == 0 then []
    else match e
      case PM4 => if n == 1 then [CMD_NOP] else [Header(NOP, (n - 2) % 0x1_0000)] + Zeros(n - 1)
      case SDMA => [((n - 1) * 0x1_0000) % TWO32] + Zeros(n - 1)
  }

  /** The longest stretch one NOP can cover: 2^14 dwords on either engine. */
  const MAX_PAD: nat := 0x4000

  /** The padding is one NOP spanning exactly the slots if and only if there are at most MAX_PAD of them. */
  lemma PaddingIsOneNopIff(e: Engine, n: nat)
    requires n > 0
    ensures Parse(e, Padding(e, n)) == Some([Padding(e, n)]) <==> n <= MAX_PAD
    ensures IsNop(e, Padding(e, n))
  {
    hide PacketLen, Padding, IsNop;
    PaddingLen(e, n);
    ParseSingle(e, Padding(e, n));
  }

  lemma NopLen(count: nat)
    ensures IsNop(PM4, [Header(NOP, count)])
    ensures PacketLen(PM4, Header(NOP, count)) == if count % 0x4000 == 0x3FFF then 1 else count % 0x4000 + 2
  {
    hide Header;
    HeaderFields(NOP, count);
  }

  lemma PaddingLen(e: Engine, n: nat)
    requires n > 0
    ensures IsNop(e, Padding(e, n))
    ensures PacketLen(e, Padding(e, n)[0]) == n <==> n <= MAX_PAD
  {
    match e
    case PM4 => NopPaddingLen(n);
    case SDMA => SdmaCount(n - 1);
  }

  lemma NopPaddingLen(n: nat)
    requires n > 0
    ensures IsNop(PM4, Padding(PM4, n))
    ensures PacketLen(PM4, Padding(PM4, n)[0]) == n <==> n <= MAX_PAD
  {
    hide PacketLen, Header;
    if n == 1 {
      NopLen(0x3FFF);
    } else {
      NopLen((n - 2) % 0x1_0000);
      TruncatedCount(n - 2);
    }
  }

  lemma TruncatedCount(k: nat)
    ensures k % 0x1_0000 % 0x4000 == k % 0x4000
  {
    assert k == 0x1_0000 * (k / 0x1_0000) + k % 0x1_0000;
    ModAddMultiple(k % 0x1_0000, 0x4000, 4 * (k / 0x1_0000));
  }

  lemma SdmaCount(k: nat)
    ensures var h := (k * 0x1_0000) % TWO32; h % 0x100 == 0 && Count(h) == k % 0x4000
  {
    var q, r := k / 0x1_0000, k % 0x1_0000;
    var low := r * 0x1_0000;
    DivModUnique(k * 0x1_0000, TWO32, q, low);
    DivModUnique(low, 0x1_0000, r, 0);
    DivModUnique(low, 0x100, r * 0x100, 0);
    ModAddMultiple(r, 0x4000, 4 * q);
    assert r + 0x4000 * (4 * q) == k;
  }

  // ----- what padding reads back as, of any length -----

  /** The stream is NOP packets and nothing else. */
  ghost predicate ReadsAsNops(e: Engine, s: seq<nat>) {
    Parse(e, s).Some? && forall i :: 0 <= i < |Parse(e, s).value| ==> IsNop(e, Parse(e, s).value[i])
  }

  lemma NopsTogether(e: Engine, a: seq<nat>, b: seq<nat>)
    requires ReadsAsNops(e, a) && ReadsAsNops(e, b)
    ensures ReadsAsNops(e, a + b)
  {
    hide Parse, IsNop;
    ParseAppend(e, a, b);
  }

  lemma OneNop(e: Engine, p: seq<nat>)
    requires p != [] && PacketLen(e, p[0]) == |p| && IsNop(e, p)
    ensures ReadsAsNops(e, p)
  {
    hide Parse, PacketLen, IsNop;
    ParseSingle(e, p);
  }

  /** Each zero is a one-dword NOP to an SDMA engine. */
  lemma {:induction false} ZerosAreNops(n: nat)
    ensures ReadsAsNops(SDMA, Zeros(n))
  {
    if n > 0 {
      ZerosAreNops(n - 1);
      assert PacketLen(SDMA, 0) == 1;
      OneNop(SDMA, [0]);
      NopsTogether(SDMA, [0], Zeros(n - 1));
      assert [0] + Zeros(n - 1) == Zeros(n);
    } else {
      assert Zeros(0) == [];
    }
  }

  /** SDMA padding of any length reads as NOPs: one over as much as its header says, and one for each zero left. */
  lemma SdmaPaddingReads(n: nat)
    ensures ReadsAsNops(SDMA, Padding(SDMA, n))
  {
    if n > 0 {
      var p := Padding(SDMA, n);
      var len := (n - 1) % 0x4000 + 1;
      SdmaCount(n - 1);
      assert PacketLen(SDMA, p[0]) == len;
      hide PacketLen, Count;
      OneNop(SDMA, p[..len]);
      ZerosAreNops(n - len);
      assert p == p[..len] + Zeros(n - len);
      NopsTogether(SDMA, p[..len], Zeros(n - len));
    }
  }

  /** PM4 padding that one NOP cannot cover stops the command processor at a zero, whatever comes after. */
  lemma LongPm4PaddingBlocks(n: nat, tail: seq<nat>)
    requires n > MAX_PAD
    ensures Parse(PM4, Padding(PM4, n) + tail).None?
  {
    var p := Padding(PM4, n);
    var s := p + tail;
    NopLen((n - 2) % 0x1_0000);
    var len := PacketLen(PM4, s[0]);
    hide PacketLen, Header;
    assert 0 < len < n && s[len] == 0;
    ZeroIsNoHeader();
    assert s[len..][0] == s[len];
    assert Parse(PM4, s[len..]).None?;
  }

  lemma ZeroIsNoHeader()
    ensures PacketLen(PM4, 0) == 0
  {
  }

  /** Padding reads as NOPs if and only if it is SDMA padding or at most MAX_PAD long. */
  lemma PaddingReadsIff(e: Engine, n: nat)
    ensures ReadsAsNops(e, Padding(e, n)) <==> e.SDMA? || n <= MAX_PAD
  {
    hide Padding, Parse, PacketLen, IsNop;
    if e.SDMA? {
      SdmaPaddingReads(n);
    } else if n == 0 {
      NoPadding(e);
    } else if n <= MAX_PAD {
      PaddingLen(e, n);
      OneNop(e, Padding(e, n));
    } else {
      LongPm4PaddingBlocks(n, []);
      assert Padding(e, n) + [] == Padding(e, n);
    }
  }

  lemma NoPadding(e: Engine)
    ensures ReadsAsNops(e, Padding(e, 0))
  {
  }

  /** An XGMI queue is padded with PM4 NOPs (lib/queue.cpp:619-625), which start no SDMA packet. */
  lemma XgmiPaddingBlocks(n: nat, tail: seq<nat>)
    requires n > 0
    ensures Parse(SDMA, Padding(PM4, n) + tail).None?
  {
    var s := Padding(PM4, n) + tail;
    LowByte(NOP, 0x3FFF);
    LowByte(NOP, if n > 1 then (n - 2) % 0x1_0000 else 0);
    assert s[0] == Padding(PM4, n)[0];
    assert PacketLen(SDMA, s[0]) == 0;
  }

  lemma LowByte(opcode: nat, count: nat)
    requires opcode < 0x100
    ensures Header(opcode, count) % 0x100 == 2
  {
    DivModUnique(Header(opcode, count), 0x100, opcode + 0x100 * (count % 0x4000 + 0xC000), 2);
  }
}
