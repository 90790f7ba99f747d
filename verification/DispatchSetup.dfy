/** The registers a compute dispatch programs, and the scratch registers the handler's indirect buffer sets again
    (include/libkfd/packets/pm4.h:870-991, lib/queue.cpp:107-133 and 278-291). */
module DispatchSetup {
  import opened Arith
  import opened Gfx
  import opened Util
  import opened Packets
  import opened Registers

  const MAX_DISPATCH_DWORDS: nat := 140
  const IB_DWORDS: nat := 20

  const START_X: nat := 0x2E04
  const PGM_LO: nat := 0x2E0C
  const SCRATCH_BASE_LO: nat := 0x2E10
  const PGM_RSRC1: nat := 0x2E12
  const RESOURCE_LIMITS: nat := 0x2E15
  const TMPRING_SIZE: nat := 0x2E18
  const THREAD_MGMT_SE2: nat := 0x2E19
  const RESTART_X: nat := 0x2E1B
  const PGM_RSRC3: nat := 0x2E28
  const USER_DATA_0: nat := 0x2E40

  // ----- machine words -----

  function Lo(x: nat): nat { x % TWO32 }

  function Hi(x: nat): nat { x / TWO32 % TWO32 }

  // ----- what a dispatch is given -----

  /** The fields of a kernel descriptor that are read here. */
  datatype Kernel = Kernel(
    ldsBytes: nat, privateBytes: nat, rsrc1: nat, rsrc2: nat, rsrc3: nat, props: nat, preload: nat)

  /** Kernel code properties, one bit each. */
  predicate Enabled(props: nat, bit: nat) requires bit > 0 { props / bit % 2 == 1 }

  const PRIVATE_SEGMENT_BUFFER: nat := 0x1
  const DISPATCH_PTR: nat := 0x2
  const QUEUE_PTR: nat := 0x4
  const KERNARG_PTR: nat := 0x8
  const DISPATCH_ID: nat := 0x10
  const FLAT_SCRATCH_INIT: nat := 0x20
  const PRIVATE_SEGMENT_SIZE: nat := 0x40
  const WAVE32: nat := 0x400

  /** A launch; `kernarg` is the memory at `kernargAddr`, in dwords. */
  datatype Launch = Launch(
    kernel: Kernel, entry: nat, block: (nat, nat, nat), kernargAddr: nat, kernarg: seq<nat>,
    dispatchPkt: nat, dynamicLds: nat, privateBytes: nat)
  {
    function PreloadLength(): nat { kernel.preload % 0x80 }

    function PreloadOffset(): nat { kernel.preload / 0x80 % 0x200 }

    /** The kernarg memory reaches as far as the descriptor's preload field asks for. */
    predicate Readable() {
      kernargAddr != 0 ==> PreloadOffset() + PreloadLength() <= |kernarg|
    }
  }

  /** A scratch region as the hardware is told of it: its address and the TMPRING_SIZE value. */
  datatype Scratch = Scratch(va: nat, tmpring: nat)

  // ----- user SGPRs -----

  function MaxUserSgprs(gfx: nat): nat { if gfx >= GFX1250 then 32 else 16 }

  function Srd(gfx: nat, s: Scratch, props: nat): (v: seq<nat>)
    ensures |v| == 4
  {
    var dstSel := 4 + 5 * 0x8 + 6 * 0x40 + 7 * 0x200;
    [ Lo(s.va),
      Hi(s.va) % 0x1_0000 + 0x8000_0000,
      (s.tmpring % 0x1000) * (s.tmpring / 0x1000) * AlignmentUnit(gfx) % TWO32,
      if gfx >= GFX10_1 then
        dstSel + 0x14 * 0x1000 + (if Enabled(props, WAVE32) then 2 else 3) * 0x20_0000 + 0x80_0000 + 0x100_0000 +
        2 * 0x1000_0000
      else
        dstSel + 4 * 0x1000 + 4 * 0x8000 + 0x8_0000 + 3 * 0x20_0000 + 0x80_0000 ]
  }

  function Pair(x: nat): (v: seq<nat>) ensures |v| == 2 { [Lo(x), Hi(x)] }

  function When(c: bool, v: seq<nat>): (r: seq<nat>) ensures |r| == if c then |v| else 0 { if c then v else [] }

  /** The SGPRs between the scratch descriptor and the flat scratch address. */
  function Pointers(d: Launch): (r: seq<nat>)
    ensures |r| <= 8
  {
    var p := d.kernel.props;
    When(Enabled(p, DISPATCH_PTR), Pair(d.dispatchPkt)) + When(Enabled(p, QUEUE_PTR), [0, 0]) +
    When(Enabled(p, KERNARG_PTR), Pair(d.kernargAddr)) + When(Enabled(p, DISPATCH_ID), [0, 0])
  }

  /** Those after it, before preloaded arguments. */
  function PrivateSize(d: Launch): seq<nat> {
    When(Enabled(d.kernel.props, PRIVATE_SEGMENT_SIZE),
      [if d.privateBytes != 0 then d.privateBytes else d.kernel.privateBytes])
  }

  function ScratchFields(gfx: nat, d: Launch, s: Scratch): seq<nat> {
    var p := d.kernel.props;
    When(Enabled(p, PRIVATE_SEGMENT_BUFFER), Srd(gfx, s, p)) + Pointers(d) +
    When(Enabled(p, FLAT_SCRATCH_INIT), Pair(s.va))
  }

  function Preloaded(d: Launch, room: nat): (r: seq<nat>)
    requires d.Readable()
    ensures |r| <= room
  {
    if d.kernargAddr == 0 then []
    else
      var count := Min(d.PreloadLength(), room);
      d.kernarg[d.PreloadOffset()..d.PreloadOffset() + count]
  }

  /** The user SGPRs in the order the ABI mandates. */
  function UserSgprs(gfx: nat, d: Launch, s: Scratch): (r: seq<nat>)
    requires d.Readable()
    ensures |r| <= MaxUserSgprs(gfx)
  {
    var fixed := ScratchFields(gfx, d, s) + PrivateSize(d);
    fixed + Preloaded(d, MaxUserSgprs(gfx) - |fixed|)
  }

  // ----- the register writes of a dispatch -----

  function PgmWords(gfx: nat, d: Launch): (r: seq<nat>)
    ensures |r| <= 4
  {
    var shifted := d.entry / 0x100 + if d.PreloadLength() != 0 && gfx < GFX1250 then 1 else 0;
    Pair(shifted) + When(gfx >= GFX9, [0, 0])
  }

  predicate NeedsPrivWorkaround(gfx: nat) { gfx / 10000 % 100 == 11 && gfx / 100 % 100 == 0 }

  function RsrcWords(gfx: nat, d: Launch): (r: seq<nat>)
    ensures |r| == 2
  {
    var k := d.kernel;
    var lds := ((k.ldsBytes + d.dynamicLds) % TWO32 + 511) % TWO32 / 512;
    [if NeedsPrivWorkaround(gfx) then Or(k.rsrc1, 0x10_0000) else k.rsrc1, Or(k.rsrc2, lds * 0x8000 % TWO32)]
  }

  /** Everything that does not depend on the scratch region. */
  function FixedWrites(gfx: nat, d: Launch): seq<Write> {
    [ Write(START_X, [0, 0, 0, d.block.0, d.block.1, d.block.2, 0, 0]),
      Write(PGM_LO, PgmWords(gfx, d)),
      Write(PGM_RSRC1, RsrcWords(gfx, d)),
      Write(PGM_RSRC3, [d.kernel.rsrc3]),
      Write(RESOURCE_LIMITS, [0, 0xFFFF_FFFF, 0xFFFF_FFFF]),
      Write(THREAD_MGMT_SE2, [0xFFFF_FFFF, 0xFFFF_FFFF]),
      Write(RESTART_X, [0, 0, 0, 0]) ]
  }

  function BaseWrites(gfx: nat, s: Scratch): seq<Write> {
    (if gfx >= GFX9 then [Write(SCRATCH_BASE_LO, Pair(s.va / 0x100))] else []) + [Write(TMPRING_SIZE, [s.tmpring])]
  }

  function UserWrites(gfx: nat, d: Launch, s: Scratch): seq<Write>
    requires d.Readable()
  {
    var u := UserSgprs(gfx, d, s);
    if u == [] then [] else [Write(USER_DATA_0, u)]
  }

  function SetupWrites(gfx: nat, d: Launch, s: Scratch): seq<Write>
    requires d.Readable()
  {
    FixedWrites(gfx, d) + UserWrites(gfx, d, s) + BaseWrites(gfx, s)
  }

  // ----- the register writes of the indirect buffer -----

  /** How many SGPRs the kernel properties put before the flat scratch address. */
  function FlatPos(props: nat): (pos: nat)
    ensures Enabled(props, PRIVATE_SEGMENT_BUFFER) ==> pos >= 4
  {
    (if Enabled(props, PRIVATE_SEGMENT_BUFFER) then 4 else 0) + (if Enabled(props, DISPATCH_PTR) then 2 else 0) +
    (if Enabled(props, QUEUE_PTR) then 2 else 0) + (if Enabled(props, KERNARG_PTR) then 2 else 0) +
    (if Enabled(props, DISPATCH_ID) then 2 else 0)
  }

  function SgprWrites(gfx: nat, s: Scratch, props: nat): seq<Write> {
    (if Enabled(props, PRIVATE_SEGMENT_BUFFER) then [Write(USER_DATA_0, Srd(gfx, s, props))] else []) +
    (if Enabled(props, FLAT_SCRATCH_INIT) then [Write(USER_DATA_0 + FlatPos(props), Pair(s.va))] else [])
  }

  function IbWrites(gfx: nat, s: Scratch, props: nat): seq<Write> {
    BaseWrites(gfx, s) + SgprWrites(gfx, s, props)
  }

  // ----- filling the buffers in place -----

  /** The first `i` slots hold `s` and the rest are still zero. */
  ghost predicate Holds(sgprs: array<nat>, i: nat, s: seq<nat>)
    reads sgprs
  {
    i <= sgprs.Length && sgprs[..i] == s && forall k :: i <= k < sgprs.Length ==> sgprs[k] == 0
  }

  /** Fill the next slots when the kernel asks for them. */
  method Push(sgprs: array<nat>, i: nat, enabled: bool, v: seq<nat>, ghost s: seq<nat>) returns (n: nat)
    requires Holds(sgprs, i, s) && i + |v| <= sgprs.Length
    modifies sgprs
    ensures n == i + (if enabled then |v| else 0) && Holds(sgprs, n, s + When(enabled, v))
  {
    if !enabled {
      assert s + [] == s;
      return i;
    }
    for j := 0 to |v|
      invariant sgprs[..i] == s && sgprs[i..i + j] == v[..j]
      invariant forall k :: i + |v| <= k < sgprs.Length ==> sgprs[k] == 0
    {
      sgprs[i + j] := v[j];
    }
    n := i + |v|;
    assert sgprs[..n] == sgprs[..i] + sgprs[i..n];
  }

  /** Two slots that PM4 does not use stay zero. */
  method Skip(sgprs: array<nat>, i: nat, enabled: bool, ghost s: seq<nat>) returns (n: nat)
    requires Holds(sgprs, i, s) && i + 2 <= sgprs.Length
    ensures n == i + (if enabled then 2 else 0) && Holds(sgprs, n, s + When(enabled, [0, 0]))
  {
    if !enabled {
      assert s + [] == s;
      return i;
    }
    n := i + 2;
    assert sgprs[..n] == sgprs[..i] + [sgprs[i], sgprs[i + 1]];
  }

  method PackPointers(sgprs: array<nat>, i: nat, d: Launch, ghost s: seq<nat>) returns (n: nat)
    requires Holds(sgprs, i, s) && i + 8 <= sgprs.Length
    modifies sgprs
    ensures n == i + |Pointers(d)| && Holds(sgprs, n, s + Pointers(d))
  {
    hide Pair, Holds, Enabled, When;
    var props := d.kernel.props;
    ghost var a := When(Enabled(props, DISPATCH_PTR), Pair(d.dispatchPkt));
    ghost var b := When(Enabled(props, QUEUE_PTR), [0, 0]);
    ghost var c := When(Enabled(props, KERNARG_PTR), Pair(d.kernargAddr));
    ghost var e := When(Enabled(props, DISPATCH_ID), [0, 0]);
    n := Push(sgprs, i, Enabled(props, DISPATCH_PTR), Pair(d.dispatchPkt), s);
    n := Skip(sgprs, n, Enabled(props, QUEUE_PTR), s + a);
    Assoc(s, a, b);
    n := Push(sgprs, n, Enabled(props, KERNARG_PTR), Pair(d.kernargAddr), s + (a + b));
    Assoc(s, a + b, c);
    n := Skip(sgprs, n, Enabled(props, DISPATCH_ID), s + (a + b + c));
    Assoc(s, a + b + c, e);
  }

  method PushPrivateSize(sgprs: array<nat>, i: nat, d: Launch, ghost s: seq<nat>) returns (n: nat)
    requires Holds(sgprs, i, s) && i < sgprs.Length
    modifies sgprs
    ensures n <= i + 1 && Holds(sgprs, n, s + PrivateSize(d))
  {
    hide Holds, Enabled;
    n := Push(sgprs, i, Enabled(d.kernel.props, PRIVATE_SEGMENT_SIZE),
              [if d.privateBytes != 0 then d.privateBytes else d.kernel.privateBytes], s);
  }

  /** Preloaded arguments take whatever slots are left. */
  method PushPreloaded(sgprs: array<nat>, i: nat, gfx: nat, d: Launch, ghost s: seq<nat>) returns (n: nat)
    requires Holds(sgprs, i, s) && i <= MaxUserSgprs(gfx) <= sgprs.Length && d.Readable()
    modifies sgprs
    ensures Holds(sgprs, n, s + Preloaded(d, MaxUserSgprs(gfx) - |s|))
  {
    assert s + [] == s;
    if d.PreloadLength() != 0 && d.kernargAddr != 0 {
      var count := Min(d.PreloadLength(), MaxUserSgprs(gfx) - i);
      n := Push(sgprs, i, true, d.kernarg[d.PreloadOffset()..d.PreloadOffset() + count], s);
    } else {
      n := i;
    }
  }

  /** Fill the SGPR slots, all zero before, with a running index. */
  method PackUserSgprs(sgprs: array<nat>, gfx: nat, d: Launch, s: Scratch) returns (i: nat)
    requires d.Readable() && sgprs.Length == 32 && Holds(sgprs, 0, [])
    modifies sgprs
    ensures Holds(sgprs, i, UserSgprs(gfx, d, s))
  {
    hide Srd, Pair, When, Pointers, ScratchFields, PrivateSize, UserSgprs, Preloaded, Holds, Enabled;
    var props := d.kernel.props;
    ghost var srd := When(Enabled(props, PRIVATE_SEGMENT_BUFFER), Srd(gfx, s, props));
    ghost var fields := ScratchFields(gfx, d, s);
    SgprLayout(gfx, d, s);
    i := Push(sgprs, 0, Enabled(props, PRIVATE_SEGMENT_BUFFER), Srd(gfx, s, props), []);
    i := PackPointers(sgprs, i, d, srd);
    i := Push(sgprs, i, Enabled(props, FLAT_SCRATCH_INIT), Pair(s.va), srd + Pointers(d));
    i := PushPrivateSize(sgprs, i, d, fields);
    i := PushPreloaded(sgprs, i, gfx, d, fields + PrivateSize(d));
  }

  lemma SgprLayout(gfx: nat, d: Launch, s: Scratch)
    requires d.Readable()
    ensures var srd := When(Enabled(d.kernel.props, PRIVATE_SEGMENT_BUFFER), Srd(gfx, s, d.kernel.props));
            [] + srd == srd &&
            ScratchFields(gfx, d, s) == srd + Pointers(d) + When(Enabled(d.kernel.props, FLAT_SCRATCH_INIT), Pair(s.va))
    ensures var fixed := ScratchFields(gfx, d, s) + PrivateSize(d);
            |fixed| <= 15 && UserSgprs(gfx, d, s) == fixed + Preloaded(d, MaxUserSgprs(gfx) - |fixed|)
  {
    hide Srd, Pair, Enabled, When, Pointers;
  }

  method SetScratchBase(out: array<nat>, at: nat, gfx: nat, s: Scratch, ghost before: seq<Write>) returns (n: nat)
    requires AllEncodable(before) && at + 7 <= out.Length && out[..at] == Encode(before)
    modifies out
    ensures at < n <= at + 7
    ensures AllEncodable(before + BaseWrites(gfx, s)) && out[..n] == Encode(before + BaseWrites(gfx, s))
  {
    hide Pair, Encode;
    n := at;
    ghost var ws := before;
    if gfx >= GFX9 {
      n := SetShReg(out, n, SCRATCH_BASE_LO, Pair(s.va / 0x100), ws);
      ws := ws + [Write(SCRATCH_BASE_LO, Pair(s.va / 0x100))];
    }
    n := SetShReg(out, n, TMPRING_SIZE, [s.tmpring], ws);
    assert ws + [Write(TMPRING_SIZE, [s.tmpring])] == before + BaseWrites(gfx, s);
  }

  method SetFixed(out: array<nat>, gfx: nat, d: Launch) returns (n: nat)
    requires out.Length >= MAX_DISPATCH_DWORDS
    modifies out
    ensures n <= 38
    ensures AllEncodable(FixedWrites(gfx, d)) && out[..n] == Encode(FixedWrites(gfx, d))
  {
    hide PgmWords, RsrcWords, Encode, AllEncodable;
    ghost var ws := FixedWrites(gfx, d);
    Prefixes(ws, out[..0]);
    n := SetShReg(out, 0, START_X, [0, 0, 0, d.block.0, d.block.1, d.block.2, 0, 0], ws[..0]);
    n := SetShReg(out, n, PGM_LO, PgmWords(gfx, d), ws[..1]);
    n := SetShReg(out, n, PGM_RSRC1, RsrcWords(gfx, d), ws[..2]);
    n := SetShReg(out, n, PGM_RSRC3, [d.kernel.rsrc3], ws[..3]);
    n := SetShReg(out, n, RESOURCE_LIMITS, [0, 0xFFFF_FFFF, 0xFFFF_FFFF], ws[..4]);
    n := SetShReg(out, n, THREAD_MGMT_SE2, [0xFFFF_FFFF, 0xFFFF_FFFF], ws[..5]);
    n := SetShReg(out, n, RESTART_X, [0, 0, 0, 0], ws[..6]);
  }

  lemma Prefixes(ws: seq<Write>, none: seq<nat>)
    requires |ws| == 7 && none == []
    ensures AllEncodable(ws[..0]) && none == Encode(ws[..0])
    ensures ws[..1] == ws[..0] + [ws[0]] && ws[..2] == ws[..1] + [ws[1]] && ws[..3] == ws[..2] + [ws[2]]
    ensures ws[..4] == ws[..3] + [ws[3]] && ws[..5] == ws[..4] + [ws[4]] && ws[..6] == ws[..5] + [ws[5]]
    ensures ws == ws[..6] + [ws[6]]
  {
  }

  /** Fill `out` with the register writes of a dispatch; at most 79 dwords of it are used. */
  method BuildDispatchSetup(out: array<nat>, gfx: nat, d: Launch, s: Scratch) returns (written: nat)
    requires d.Readable() && out.Length >= MAX_DISPATCH_DWORDS
    modifies out
    ensures written <= 79
    ensures AllEncodable(SetupWrites(gfx, d, s)) && out[..written] == Encode(SetupWrites(gfx, d, s))
  {
    hide UserSgprs, FixedWrites, BaseWrites, Encode, AllEncodable;
    assert FixedWrites(gfx, d) + [] == FixedWrites(gfx, d);
    written := SetFixed(out, gfx, d);
    var sgprs := new nat[32](_ => 0);
    var i := PackUserSgprs(sgprs, gfx, d, s);
    ghost var ws := FixedWrites(gfx, d);
    assert i == |UserSgprs(gfx, d, s)| && sgprs[..i] == UserSgprs(gfx, d, s);
    if i > 0 {
      written := SetShReg(out, written, USER_DATA_0, sgprs[..i], ws);
    }
    ws := ws + UserWrites(gfx, d, s);
    written := SetScratchBase(out, written, gfx, s, ws);
  }

  /** `ib` starts with the scratch writes, and a NOP header covers its other dwords, whatever they hold. */
  ghost predicate IsIb(ib: seq<nat>, gfx: nat, s: Scratch, props: nat) {
    |ib| == IB_DWORDS && AllEncodable(IbWrites(gfx, s, props)) &&
    var n := |Encode(IbWrites(gfx, s, props))|;
    n + 2 <= IB_DWORDS && ib[..n] == Encode(IbWrites(gfx, s, props)) && ib[n] == Header(NOP, IB_DWORDS - n - 2)
  }

  method SetScratchSgprs(out: array<nat>, at: nat, gfx: nat, s: Scratch, props: nat, ghost before: seq<Write>)
    returns (n: nat)
    requires AllEncodable(before) && at + 10 <= out.Length && out[..at] == Encode(before)
    modifies out
    ensures at <= n <= at + 10 && AllEncodable(before + SgprWrites(gfx, s, props))
    ensures out[..n] == Encode(before + SgprWrites(gfx, s, props))
  {
    hide Srd, Pair, FlatPos, Enabled, Encode, AllEncodable;
    n := at;
    ghost var srd := if Enabled(props, PRIVATE_SEGMENT_BUFFER) then [Write(USER_DATA_0, Srd(gfx, s, props))] else [];
    if Enabled(props, PRIVATE_SEGMENT_BUFFER) {
      n := SetShReg(out, n, USER_DATA_0, Srd(gfx, s, props), before);
    }
    assert before + [] == before && before + srd + [] == before + srd;
    if Enabled(props, FLAT_SCRATCH_INIT) {
      var pos := FlatPos(props);
      n := SetShReg(out, n, USER_DATA_0 + pos, Pair(s.va), before + srd);
      Assoc(before, srd, [Write(USER_DATA_0 + pos, Pair(s.va))]);
    } else {
      assert srd + [] == srd;
    }
  }

  lemma EncodeEmpty(none: seq<nat>)
    requires none == []
    ensures AllEncodable([]) && none == Encode([])
  {
  }

  /** The handler's indirect buffer, filled in place. */
  method BuildIb(ib: array<nat>, gfx: nat, s: Scratch, props: nat)
    requires ib.Length == IB_DWORDS
    modifies ib
    ensures IsIb(ib[..], gfx, s, props)
  {
    hide BaseWrites, SgprWrites, Encode, AllEncodable, Header;
    EncodeEmpty(ib[..0]);
    assert [] + BaseWrites(gfx, s) == BaseWrites(gfx, s);
    var n := SetScratchBase(ib, 0, gfx, s, []);
    n := SetScratchSgprs(ib, n, gfx, s, props, BaseWrites(gfx, s));
    // the handler tests for room here; 17 dwords at most are used, so there always is
    if n + 2 <= IB_DWORDS {
      var pad := IB_DWORDS - n;
      ib[n] := Header(NOP, pad - 2);
    }
  }

  /** When no scratch could be had, the buffer is turned into one NOP. */
  method BuildNopIb(ib: array<nat>)
    requires ib.Length == IB_DWORDS
    modifies ib
    ensures Parse(PM4, ib[..]) == Some([ib[..]]) && forall regs :: Run(ib[..], regs) == regs
  {
    hide Header, Parse, Run, PacketLen, Opcode;
    ib[0] := Header(NOP, IB_DWORDS - 2);
    NopLen(IB_DWORDS - 2);
    HeaderFields(NOP, IB_DWORDS - 2);
    ParseSingle(PM4, ib[..]);
    forall regs ensures Run(ib[..], regs) == regs {
      RunPacket(ib[..], regs);
    }
  }
}
