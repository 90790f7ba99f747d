/** What a kernel finds in its registers after the encoded setup of its dispatch has run: every user SGPR where the ABI
    puts it, and the fixed registers (include/libkfd/packets/pm4.h:72-118 and 870-991, include/libkfd/abi.h:205-235). */
module DispatchAbi {
  import opened Arith
  import opened DispatchSetup
  import opened Packets
  import opened Registers
  import opened Util

  // ----- the ABI -----

  /** How many SGPRs each property takes, lowest bit first: private segment buffer, dispatch pointer, queue pointer,
      kernarg pointer, dispatch id, flat scratch, private segment size. */
  const SGPRS: seq<nat> := [4, 2, 2, 2, 2, 2, 1]
  const BITS: seq<nat> := [0x1, 0x2, 0x4, 0x8, 0x10, 0x20, 0x40]

  predicate Wants(props: nat, k: nat)
    requires k < 7
  {
    props / BITS[k] % 2 == 1
  }

  /** How many SGPRs the properties below bit `k` take. */
  function Below(props: nat, k: nat): (n: nat)
    requires k <= 7
    ensures n <= 2 * k + 2
  {
    if k == 0 then 0 else Below(props, k - 1) + if Wants(props, k - 1) then SGPRS[k - 1] else 0
  }

  /** The first SGPR of property `k`. */
  function Sgpr(props: nat, k: nat): nat
    requires k <= 7
  {
    0x2E40 + Below(props, k)
  }

  /** Registers from `reg` on hold `v`. */
  ghost predicate Hold(f: File, reg: nat, v: seq<nat>) { forall j :: 0 <= j < |v| ==> Value(f, reg + j) == v[j] }

  /** Two registers hold the halves of a 64-bit number. */
  predicate Hold64(f: File, reg: nat, x: nat) { Value(f, reg) + TWO32 * Value(f, reg + 1) == x % TWO64 }

  /** The private segment size: the dispatch's own, or the kernel's when it gives none. */
  predicate HasSize(d: Launch, size: nat) {
    if d.privateBytes == 0 then size == d.kernel.privateBytes else size == d.privateBytes
  }

  /** Arguments preloaded from the dword offset in the descriptor, as many as it asks for and there is room for. */
  ghost predicate HoldArguments(f: File, gfx: nat, d: Launch)
    requires d.Readable()
  {
    var at := d.kernel.preload / 0x80 % 0x200;
    var n := Min(d.kernel.preload % 0x80, (if gfx >= 120500 then 32 else 16) - Below(d.kernel.props, 7));
    d.kernargAddr != 0 ==> Hold(f, Sgpr(d.kernel.props, 7), d.kernarg[at..at + n])
  }

  /** The buffer descriptor of the scratch region: its address in 48 bits, swizzled, its size in bytes, lanes as index,
      and the index stride of the kernel's wave size. */
  predicate Describes(v: seq<nat>, gfx: nat, s: Scratch, wave32: bool)
    requires |v| == 4
  {
    && v[0] < TWO32 && v[1] < TWO32 && v[0] + TWO32 * (v[1] % 0x1_0000) == s.va % 0x1_0000_0000_0000
    && v[1] / 0x1_0000 == 0x8000
    && v[2] == s.tmpring % 0x1000 * (s.tmpring / 0x1000) * (if gfx >= 110000 then 256 else 1024) % TWO32
    && Flags(v[3], gfx >= 100100, if gfx >= 100100 && wave32 then 2 else 3)
  }

  /** The descriptor's last word: the four components in order, the index stride, the lane added to the index, and the
      format fields of the generation. */
  predicate Flags(w: nat, rdna: bool, stride: nat) {
    && w % 8 == 4 && w / 8 % 8 == 5 && w / 0x40 % 8 == 6 && w / 0x200 % 8 == 7
    && w / 0x20_0000 % 4 == stride && w / 0x80_0000 % 2 == 1
    && (if rdna then w / 0x1000 % 0x80 == 0x14 && w / 0x100_0000 == 0x21
        else w / 0x1000 % 8 == 4 && w / 0x8000 % 0x10 == 4 && w / 0x8_0000 % 4 == 1 && w / 0x100_0000 == 0)
  }

  /** What the kernel finds in its user SGPRs. */
  ghost predicate FindsArguments(f: File, gfx: nat, d: Launch, s: Scratch)
    requires d.Readable()
  {
    var p := d.kernel.props;
    && (Wants(p, 0) ==> exists v :: |v| == 4 && Hold(f, Sgpr(p, 0), v) && Describes(v, gfx, s, p / 0x400 % 2 == 1))
    && (Wants(p, 1) ==> Hold64(f, Sgpr(p, 1), d.dispatchPkt))
    && (Wants(p, 2) ==> Hold(f, Sgpr(p, 2), [0, 0]))
    && (Wants(p, 3) ==> Hold64(f, Sgpr(p, 3), d.kernargAddr))
    && (Wants(p, 4) ==> Hold(f, Sgpr(p, 4), [0, 0]))
    && (Wants(p, 5) ==> Hold64(f, Sgpr(p, 5), s.va))
    && (Wants(p, 6) ==> HasSize(d, Value(f, Sgpr(p, 6))))
    && HoldArguments(f, gfx, d)
  }

  /** And in the fixed registers: its work-group's size, its entry, its resources, the scratch region. */
  ghost predicate FindsSetup(f: File, gfx: nat, d: Launch, s: Scratch) {
    var k := d.kernel;
    && Hold(f, 0x2E04, [0, 0, 0, d.block.0, d.block.1, d.block.2, 0, 0])
    && Hold64(f, 0x2E0C, d.entry / 0x100 + if k.preload % 0x80 != 0 && gfx < 120500 then 1 else 0)
    && (gfx >= 90000 ==> Value(f, 0x2E0E) == 0 && Value(f, 0x2E0F) == 0)
    && Value(f, 0x2E12) == (if gfx / 10000 % 100 == 11 && gfx / 100 % 100 == 0 then Or(k.rsrc1, 0x10_0000) else k.rsrc1)
    && (k.ldsBytes + d.dynamicLds + 511 < TWO32 ==> exists blocks: nat ::
          Value(f, 0x2E13) == Or(k.rsrc2, blocks * 0x8000 % TWO32) &&
          k.ldsBytes + d.dynamicLds <= 512 * blocks < k.ldsBytes + d.dynamicLds + 512)
    && Value(f, 0x2E28) == k.rsrc3
    && Hold(f, 0x2E15, [0, 0xFFFF_FFFF, 0xFFFF_FFFF]) && Hold(f, 0x2E19, [0xFFFF_FFFF, 0xFFFF_FFFF])
    && Hold(f, 0x2E1B, [0, 0, 0, 0])
    && (gfx >= 90000 ==> Hold64(f, 0x2E10, s.va / 0x100))
    && Value(f, 0x2E18) == s.tmpring
  }

  // ----- where each piece of the user SGPRs is -----

  lemma Piece(a: seq<nat>, b: seq<nat>, c: seq<nat>)
    ensures forall j :: 0 <= j < |b| ==> (a + b + c)[|a| + j] == b[j]
  {
  }

  /** Property `k`'s part of the user SGPRs; part 7 is the preloaded arguments. */
  function Part(gfx: nat, d: Launch, s: Scratch, k: nat): seq<nat>
    requires d.Readable() && k <= 7
  {
    var p := d.kernel.props;
    match k
    case 0 => When(Enabled(p, PRIVATE_SEGMENT_BUFFER), Srd(gfx, s, p))
    case 1 => When(Enabled(p, DISPATCH_PTR), Pair(d.dispatchPkt))
    case 2 => When(Enabled(p, QUEUE_PTR), [0, 0])
    case 3 => When(Enabled(p, KERNARG_PTR), Pair(d.kernargAddr))
    case 4 => When(Enabled(p, DISPATCH_ID), [0, 0])
    case 5 => When(Enabled(p, FLAT_SCRATCH_INIT), Pair(s.va))
    case 6 => PrivateSize(d)
    case _ => Preloaded(d, MaxUserSgprs(gfx) - |ScratchFields(gfx, d, s) + PrivateSize(d)|)
  }

  /** The parts up to `k`, in order. */
  function Parts(gfx: nat, d: Launch, s: Scratch, k: nat): seq<nat>
    requires d.Readable() && k <= 8
  {
    if k == 0 then [] else Parts(gfx, d, s, k - 1) + Part(gfx, d, s, k - 1)
  }

  lemma AllParts(gfx: nat, d: Launch, s: Scratch)
    requires d.Readable()
    ensures Parts(gfx, d, s, 8) == UserSgprs(gfx, d, s)
  {
    hide Srd, Pair, When, Enabled, PrivateSize, Preloaded;
    var a, b, c := Part(gfx, d, s, 0), Part(gfx, d, s, 1), Part(gfx, d, s, 2);
    var e, g := Part(gfx, d, s, 3), Part(gfx, d, s, 4);
    assert Parts(gfx, d, s, 1) == a;
    assert Parts(gfx, d, s, 2) == a + b;
    assert Parts(gfx, d, s, 3) == a + b + c;
    assert Parts(gfx, d, s, 4) == a + b + c + e;
    assert Parts(gfx, d, s, 5) == a + b + c + e + g;
    assert Pointers(d) == b + c + e + g;
    assert a + b + c + e + g == a + (b + c + e + g);
    assert Parts(gfx, d, s, 6) == Parts(gfx, d, s, 5) + Part(gfx, d, s, 5);
    assert Parts(gfx, d, s, 7) == Parts(gfx, d, s, 6) + Part(gfx, d, s, 6);
    assert Parts(gfx, d, s, 8) == Parts(gfx, d, s, 5) + Part(gfx, d, s, 5) + Part(gfx, d, s, 6) + Part(gfx, d, s, 7);
  }

  lemma {:induction false} PartsBelow(gfx: nat, d: Launch, s: Scratch, k: nat)
    requires d.Readable() && k <= 7
    ensures |Parts(gfx, d, s, k)| == Below(d.kernel.props, k)
    ensures k < 7 ==> |Part(gfx, d, s, k)| == if Wants(d.kernel.props, k) then SGPRS[k] else 0
  {
    hide Srd, Pair;
    if k > 0 {
      PartsBelow(gfx, d, s, k - 1);
    }
  }

  /** The parts from `k` on. */
  function Rest(gfx: nat, d: Launch, s: Scratch, k: nat): seq<nat>
    requires d.Readable() && k <= 8
    decreases 8 - k
  {
    if k == 8 then [] else Part(gfx, d, s, k) + Rest(gfx, d, s, k + 1)
  }

  lemma {:induction false} PartsAndRest(gfx: nat, d: Launch, s: Scratch, k: nat)
    requires d.Readable() && k <= 8
    ensures Parts(gfx, d, s, 8) == Parts(gfx, d, s, k) + Rest(gfx, d, s, k)
    decreases 8 - k
  {
    hide Part;
    if k == 8 {
      assert Parts(gfx, d, s, 8) + [] == Parts(gfx, d, s, 8);
    } else {
      PartsAndRest(gfx, d, s, k + 1);
      Assoc(Parts(gfx, d, s, k), Part(gfx, d, s, k), Rest(gfx, d, s, k + 1));
    }
  }

  /** Part `k` is found at its place. */
  lemma PartIsAt(gfx: nat, d: Launch, s: Scratch, k: nat)
    requires d.Readable() && k <= 7
    ensures var at, u, v := Below(d.kernel.props, k), UserSgprs(gfx, d, s), Part(gfx, d, s, k);
      at + |v| <= |u| && forall j :: 0 <= j < |v| ==> u[at + j] == v[j]
  {
    hide Part, UserSgprs;
    AllParts(gfx, d, s);
    PartsBelow(gfx, d, s, k);
    PartsAndRest(gfx, d, s, k);
    Assoc(Parts(gfx, d, s, k), Part(gfx, d, s, k), Rest(gfx, d, s, k + 1));
    Piece(Parts(gfx, d, s, k), Part(gfx, d, s, k), Rest(gfx, d, s, k + 1));
  }

  // ----- registers after the writes -----

  /** The last write that covers a register says what it holds. */
  lemma {:induction false} LastWrite(ws: seq<Write>, i: nat, r: nat, regs: File)
    requires i < |ws| && Covers(ws[i], r) && forall j :: i < j < |ws| ==> !Covers(ws[j], r)
    ensures Value(StoreAll(ws, regs), r) == ws[i].values[r - ws[i].reg]
    decreases |ws|
  {
    hide Store, Value;
    var n := |ws| - 1;
    ValueAfter(ws[n], StoreAll(ws[..n], regs), r);
    if i < n {
      LastWrite(ws[..n], i, r, regs);
    }
  }

  /** A write that shares no register with the later ones. */
  lemma WriteHolds(ws: seq<Write>, i: nat, regs: File)
    requires i < |ws|
    requires forall j :: i < j < |ws| ==>
      ws[j].reg + |ws[j].values| <= ws[i].reg || ws[i].reg + |ws[i].values| <= ws[j].reg
    ensures Hold(StoreAll(ws, regs), ws[i].reg, ws[i].values)
  {
    hide StoreAll, Value;
    forall k | 0 <= k < |ws[i].values| ensures Value(StoreAll(ws, regs), ws[i].reg + k) == ws[i].values[k] {
      LastWrite(ws, i, ws[i].reg + k, regs);
    }
  }

  /** The writes of a setup share no register. */
  lemma SetupWriteHolds(gfx: nat, d: Launch, s: Scratch, i: nat, regs: File)
    requires d.Readable() && i < |SetupWrites(gfx, d, s)|
    ensures var w := SetupWrites(gfx, d, s)[i]; Hold(StoreAll(SetupWrites(gfx, d, s), regs), w.reg, w.values)
  {
    hide StoreAll, Hold, PgmWords, RsrcWords, UserSgprs, Pair;
    WriteHolds(SetupWrites(gfx, d, s), i, regs);
  }

  lemma HoldNone(f: File, reg: nat)
    ensures Hold(f, reg, [])
  {
  }

  lemma FixedHolds(gfx: nat, d: Launch, s: Scratch, regs: File)
    requires d.Readable()
    ensures var f := StoreAll(SetupWrites(gfx, d, s), regs);
      && Hold(f, 0x2E04, [0, 0, 0, d.block.0, d.block.1, d.block.2, 0, 0])
      && Hold(f, 0x2E0C, PgmWords(gfx, d)) && Hold(f, 0x2E12, RsrcWords(gfx, d)) && Hold(f, 0x2E28, [d.kernel.rsrc3])
      && Hold(f, 0x2E15, [0, 0xFFFF_FFFF, 0xFFFF_FFFF]) && Hold(f, 0x2E19, [0xFFFF_FFFF, 0xFFFF_FFFF])
      && Hold(f, 0x2E1B, [0, 0, 0, 0])
  {
    hide StoreAll, Hold, PgmWords, RsrcWords, UserWrites, BaseWrites;
    SetupWriteHolds(gfx, d, s, 0, regs);
    SetupWriteHolds(gfx, d, s, 1, regs);
    SetupWriteHolds(gfx, d, s, 2, regs);
    SetupWriteHolds(gfx, d, s, 3, regs);
    SetupWriteHolds(gfx, d, s, 4, regs);
    SetupWriteHolds(gfx, d, s, 5, regs);
    SetupWriteHolds(gfx, d, s, 6, regs);
  }

  lemma OthersHold(gfx: nat, d: Launch, s: Scratch, regs: File)
    requires d.Readable()
    ensures var f := StoreAll(SetupWrites(gfx, d, s), regs);
      && Hold(f, 0x2E40, UserSgprs(gfx, d, s))
      && (gfx >= 90000 ==> Hold(f, 0x2E10, Pair(s.va / 0x100))) && Hold(f, 0x2E18, [s.tmpring])
  {
    hide StoreAll, Hold, PgmWords, RsrcWords, UserSgprs, Pair;
    var ws := SetupWrites(gfx, d, s);
    if UserSgprs(gfx, d, s) == [] {
      HoldNone(StoreAll(ws, regs), 0x2E40);
    } else {
      SetupWriteHolds(gfx, d, s, 7, regs);
    }
    SetupWriteHolds(gfx, d, s, |ws| - 1, regs);
    if gfx >= 90000 {
      SetupWriteHolds(gfx, d, s, |ws| - 2, regs);
    }
  }

  lemma HalvesHold(f: File, reg: nat, x: nat)
    requires Hold(f, reg, Pair(x))
    ensures Hold64(f, reg, x)
  {
    Halves(x);
    assert Value(f, reg + 0) == Pair(x)[0] && Value(f, reg + 1) == Pair(x)[1];
  }

  lemma Halves(x: nat)
    ensures Lo(x) + TWO32 * Hi(x) == x % TWO64
  {
    var q := x / TWO64;
    assert x / TWO32 == x / TWO32 % TWO32 + TWO32 * (x / TWO32 / TWO32);
    DivModUnique(x, TWO64, x / TWO32 / TWO32, Lo(x) + TWO32 * Hi(x));
  }

  lemma PgmHolds(f: File, gfx: nat, d: Launch)
    requires Hold(f, 0x2E0C, PgmWords(gfx, d))
    ensures Hold64(f, 0x2E0C, d.entry / 0x100 + if d.kernel.preload % 0x80 != 0 && gfx < 120500 then 1 else 0)
    ensures gfx >= 90000 ==> Value(f, 0x2E0E) == 0 && Value(f, 0x2E0F) == 0
  {
    hide Value;
    var x := d.entry / 0x100 + if d.kernel.preload % 0x80 != 0 && gfx < 120500 then 1 else 0;
    assert PgmWords(gfx, d)[0] == Lo(x) && PgmWords(gfx, d)[1] == Hi(x);
    assert Value(f, 0x2E0C + 0) == Lo(x) && Value(f, 0x2E0C + 1) == Hi(x);
    if gfx >= 90000 {
      assert Value(f, 0x2E0C + 2) == PgmWords(gfx, d)[2] && Value(f, 0x2E0C + 3) == PgmWords(gfx, d)[3];
    }
    Halves(x);
  }

  lemma RsrcHolds(f: File, gfx: nat, d: Launch)
    requires Hold(f, 0x2E12, RsrcWords(gfx, d))
    ensures Value(f, 0x2E12) == if gfx / 10000 % 100 == 11 && gfx / 100 % 100 == 0 then Or(d.kernel.rsrc1, 0x10_0000)
                                else d.kernel.rsrc1
    ensures var lds := d.kernel.ldsBytes + d.dynamicLds; lds + 511 < TWO32 ==>
      Value(f, 0x2E13) == Or(d.kernel.rsrc2, (lds + 511) / 512 * 0x8000 % TWO32)
  {
    hide Value, Or;
    var v := RsrcWords(gfx, d);
    assert Value(f, 0x2E12 + 0) == v[0] && Value(f, 0x2E12 + 1) == v[1];
  }

  lemma LdsBlocks(lds: nat)
    ensures lds <= 512 * ((lds + 511) / 512) < lds + 512
  {
  }

  lemma SrdDescribes(gfx: nat, s: Scratch, props: nat)
    ensures Describes(Srd(gfx, s, props), gfx, s, props / 0x400 % 2 == 1)
  {
    hide Lo, Hi, Flags;
    Bounds(s.va);
    AddressIn48Bits(s.va);
    SrdFlags();
    DivModUnique(Hi(s.va) % 0x1_0000 + 0x8000_0000, 0x1_0000, 0x8000, Hi(s.va) % 0x1_0000);
  }

  lemma Bounds(x: nat)
    ensures Lo(x) < TWO32 && Hi(x) < TWO32
  {
  }

  /** The three values of the descriptor's last word. */
  lemma SrdFlags()
    ensures Flags(0x21C1_4FAC, true, 2) && Flags(0x21E1_4FAC, true, 3) && Flags(0xEA_4FAC, false, 3)
  {
  }

  lemma AddressIn48Bits(va: nat)
    ensures Lo(va) + TWO32 * (Hi(va) % 0x1_0000) == va % 0x1_0000_0000_0000
  {
    var h := va / TWO32;
    ModMod(h, TWO32, 0x1_0000);
    assert h == 0x1_0000 * (h / 0x1_0000) + h % 0x1_0000;
    DivModUnique(va, 0x1_0000_0000_0000, h / 0x1_0000, Lo(va) + TWO32 * (Hi(va) % 0x1_0000));
  }

  // ----- what the kernel finds -----

  lemma PartHolds(f: File, gfx: nat, d: Launch, s: Scratch, k: nat)
    requires d.Readable() && k <= 7 && Hold(f, 0x2E40, UserSgprs(gfx, d, s))
    ensures Hold(f, Sgpr(d.kernel.props, k), Part(gfx, d, s, k))
  {
    hide Part, UserSgprs, Below, Value;
    PartIsAt(gfx, d, s, k);
    var at, u, v := Below(d.kernel.props, k), UserSgprs(gfx, d, s), Part(gfx, d, s, k);
    forall j | 0 <= j < |v| ensures Value(f, 0x2E40 + at + j) == v[j] {
      assert Value(f, 0x2E40 + (at + j)) == u[at + j];
    }
  }

  lemma ArgumentsFound(f: File, gfx: nat, d: Launch, s: Scratch)
    requires d.Readable() && Hold(f, 0x2E40, UserSgprs(gfx, d, s))
    ensures FindsArguments(f, gfx, d, s)
  {
    hide UserSgprs, Hold, Hold64, Value, Srd, Below, Pair, Describes, Preloaded, Sgpr, ScratchFields;
    var p := d.kernel.props;
    PartHolds(f, gfx, d, s, 0);
    PartHolds(f, gfx, d, s, 1);
    PartHolds(f, gfx, d, s, 2);
    PartHolds(f, gfx, d, s, 3);
    PartHolds(f, gfx, d, s, 4);
    PartHolds(f, gfx, d, s, 5);
    SrdDescribes(gfx, s, p);
    if Wants(p, 1) { HalvesHold(f, Sgpr(p, 1), d.dispatchPkt); }
    if Wants(p, 3) { HalvesHold(f, Sgpr(p, 3), d.kernargAddr); }
    if Wants(p, 5) { HalvesHold(f, Sgpr(p, 5), s.va); }
    SizeFound(f, gfx, d, s);
    PreloadFound(f, gfx, d, s);
  }

  lemma SizeFound(f: File, gfx: nat, d: Launch, s: Scratch)
    requires d.Readable() && Hold(f, 0x2E40, UserSgprs(gfx, d, s))
    ensures Wants(d.kernel.props, 6) ==> HasSize(d, Value(f, Sgpr(d.kernel.props, 6)))
  {
    hide UserSgprs, Value, Below, Sgpr, ScratchFields;
    PartHolds(f, gfx, d, s, 6);
    if Wants(d.kernel.props, 6) {
      assert Value(f, Sgpr(d.kernel.props, 6) + 0) == Part(gfx, d, s, 6)[0];
    }
  }

  lemma PreloadFound(f: File, gfx: nat, d: Launch, s: Scratch)
    requires d.Readable() && Hold(f, 0x2E40, UserSgprs(gfx, d, s))
    ensures HoldArguments(f, gfx, d)
  {
    hide UserSgprs, Hold, Srd, Pair, Enabled, Below, Sgpr;
    PartHolds(f, gfx, d, s, 7);
    PartsBelow(gfx, d, s, 7);
    FixedSize(gfx, d, s);
  }

  lemma FixedSize(gfx: nat, d: Launch, s: Scratch)
    requires d.Readable()
    ensures |ScratchFields(gfx, d, s) + PrivateSize(d)| == |Parts(gfx, d, s, 7)|
  {
    hide Srd, Pair, Enabled;
    AllParts(gfx, d, s);
    SgprLayout(gfx, d, s);
    assert |Parts(gfx, d, s, 8)| == |Parts(gfx, d, s, 7)| + |Part(gfx, d, s, 7)|;
  }

  /** After the encoded setup has run, whatever was in the registers before, a kernel finds its arguments in the SGPRs
      the ABI says, and the fixed registers set for it. */
  lemma KernelFindsItsLaunch(buf: seq<nat>, gfx: nat, d: Launch, s: Scratch, regs: File)
    requires d.Readable() && AllEncodable(SetupWrites(gfx, d, s)) && buf == Encode(SetupWrites(gfx, d, s))
    ensures Parse(PM4, buf).Some?
    ensures FindsArguments(Run(buf, regs), gfx, d, s) && FindsSetup(Run(buf, regs), gfx, d, s)
  {
    hide SetupWrites, Parse, Run, Encode, StoreAll, AllEncodable, FindsArguments;
    EncodeRuns(SetupWrites(gfx, d, s), regs);
    var f := StoreAll(SetupWrites(gfx, d, s), regs);
    FixedHolds(gfx, d, s, regs);
    OthersHold(gfx, d, s, regs);
    ArgumentsFound(f, gfx, d, s);
    SetupFound(f, gfx, d, s);
  }

  lemma SetupFound(f: File, gfx: nat, d: Launch, s: Scratch)
    requires Hold(f, 0x2E04, [0, 0, 0, d.block.0, d.block.1, d.block.2, 0, 0])
    requires Hold(f, 0x2E0C, PgmWords(gfx, d)) && Hold(f, 0x2E12, RsrcWords(gfx, d))
    requires Hold(f, 0x2E28, [d.kernel.rsrc3])
    requires Hold(f, 0x2E15, [0, 0xFFFF_FFFF, 0xFFFF_FFFF]) && Hold(f, 0x2E19, [0xFFFF_FFFF, 0xFFFF_FFFF])
    requires Hold(f, 0x2E1B, [0, 0, 0, 0]) && Hold(f, 0x2E18, [s.tmpring])
    requires gfx >= 90000 ==> Hold(f, 0x2E10, Pair(s.va / 0x100))
    ensures FindsSetup(f, gfx, d, s)
  {
    hide Hold, Value, Or, PgmWords, RsrcWords, Pair, Hold64;
    PgmHolds(f, gfx, d);
    RsrcHolds(f, gfx, d);
    LdsBlocks(d.kernel.ldsBytes + d.dynamicLds);
    OneHolds(f, 0x2E28, d.kernel.rsrc3);
    OneHolds(f, 0x2E18, s.tmpring);
    if gfx >= 90000 {
      HalvesHold(f, 0x2E10, s.va / 0x100);
    }
  }

  lemma OneHolds(f: File, reg: nat, x: nat)
    requires Hold(f, reg, [x])
    ensures Value(f, reg) == x
  {
    assert Value(f, reg + 0) == [x][0];
  }
}
