/** How a scratch region is divided into wave slots (lib/detail/scratch.cpp:22-78 and 99-110,
    include/libkfd/detail/scratch.h:24-44), for devices with one XCC. */
module ScratchSizing {
  import opened Arith
  import opened Gfx
  import opened Util

  const LANES: nat := 64
  const REGION_ALIGN: nat := 0x1_0000

  /** The device properties that sizing reads: compute units, shader engines, scratch slots per compute unit. */
  datatype Device = Device(gfx: nat, numCus: nat, numSe: nat, slotsPerCu: nat)

  /** The width of the WAVESIZE field. */
  function WavesizeLimit(gfx: nat): nat { if gfx >= GFX12 then 0x4_0000 else if gfx >= GFX11 then 0x8000 else 0x2000 }

  function MaxWaveScratch(gfx: nat): nat { (WavesizeLimit(gfx) - 1) * AlignmentUnit(gfx) }

  function PerWave(gfx: nat, perThread: nat): nat { AlignUp(LANES * perThread, AlignmentUnit(gfx)) }

  /** The bytes to allocate for a number of slots; 64-bit arithmetic that cannot wrap here. */
  function AllocSize(gfx: nat, perThread: nat, slots: nat): nat {
    if perThread == 0 || slots == 0 then 0 else AlignUp(PerWave(gfx, perThread) * slots, REGION_ALIGN)
  }

  /** (wavesize << 12) | waves, in 32 bits. */
  function Pack(wavesize: nat, waves: nat): nat { (Or(wavesize, waves / 0x1000) * 0x1000 + waves % 0x1000) % TWO32 }

  function Waves(tmpring: nat): nat { tmpring % 0x1000 }

  function Wavesize(tmpring: nat): nat { tmpring / 0x1000 }

  /** As many waves as fit the region and the device: per shader engine on GFX11 and later, else in all and a
      multiple of the shader engines. */
  function WaveCount(d: Device, perWave: nat, region: nat): nat
    requires perWave > 0 && d.numSe > 0
  {
    var deviceMax := d.numCus * d.slotsPerCu % TWO32;
    var fit := region / perWave % TWO32;
    if d.gfx >= GFX11 then
      var n := Min(fit / d.numSe, deviceMax);
      if n == 0 then 1 else n
    else
      var n := Min(fit, deviceMax);
      var m := n / d.numSe * d.numSe;
      if m == 0 then d.numSe else m
  }

  function TmpringSize(d: Device, perThread: nat, region: nat): nat
    requires d.numSe > 0
  {
    if perThread == 0 || region == 0 then 0
    else
      var perWave := PerWave(d.gfx, perThread);
      if perWave > MaxWaveScratch(d.gfx) then 0
      else Pack(perWave / AlignmentUnit(d.gfx), WaveCount(d, perWave, region))
  }

  /** How many wave slots a WAVES value stands for. */
  function SlotsOf(d: Device, waves: nat): nat { if d.gfx >= GFX11 then waves * d.numSe else waves }

  // ----- the slots fit the region -----

  /** What a WAVES value accounts for, in bytes. */
  function Claimed(d: Device, waves: nat, perWave: nat): nat { SlotsOf(d, waves) * perWave }

  /** A region sized for `slots` slots holds them. */
  lemma RegionHolds(gfx: nat, perThread: nat, slots: nat)
    requires perThread > 0 && slots > 0
    ensures PerWave(gfx, perThread) > 0
    ensures slots <= AllocSize(gfx, perThread, slots) / PerWave(gfx, perThread)
  {
    FitsIff(AllocSize(gfx, perThread, slots), PerWave(gfx, perThread), slots);
  }

  lemma FloorMultiple(n: nat, a: nat)
    requires a > 0
    ensures var m := n / a * a; m <= n < m + a && m % a == 0 && a % a == 0
  {
    ModOfMultiple(a, n / a);
    ModOfMultiple(a, 1);
    assert n / a * a == a * (n / a);
  }

  /** The slots a WAVES value stands for are at most those that fit. */
  lemma WaveCountBounded(d: Device, perWave: nat, region: nat)
    requires perWave > 0 && d.numSe > 0 && d.numSe <= region / perWave
    ensures WaveCount(d, perWave, region) > 0
    ensures SlotsOf(d, WaveCount(d, perWave, region)) <= region / perWave
  {
    var fit := region / perWave % TWO32;
    assert fit <= region / perWave;
    if d.gfx >= GFX11 {
      FitsIff(fit, d.numSe, WaveCount(d, perWave, region));
    } else {
      FloorMultiple(Min(fit, d.numCus * d.slotsPerCu % TWO32), d.numSe);
    }
  }

  /** The wave slots named in the register never need more than the region. */
  lemma WavesFit(d: Device, perWave: nat, region: nat)
    requires perWave > 0 && d.numSe > 0 && d.numSe <= region / perWave
    ensures Claimed(d, WaveCount(d, perWave, region), perWave) <= region
  {
    hide WaveCount;
    WaveCountBounded(d, perWave, region);
    FitsIff(region, perWave, SlotsOf(d, WaveCount(d, perWave, region)));
  }

  /** On GFX11 and later one wave more per engine would need more than the region or the device has. */
  lemma WavesMaximalPerEngine(d: Device, perWave: nat, region: nat)
    requires perWave > 0 && d.numSe > 0 && d.numSe <= region / perWave < TWO32 && d.gfx >= GFX11
    ensures var w := WaveCount(d, perWave, region) + 1;
            Claimed(d, w, perWave) > region || w > d.numCus * d.slotsPerCu % TWO32
  {
    var fit := region / perWave;
    var w := WaveCount(d, perWave, region) + 1;
    FitsIff(fit, d.numSe, 1);
    FitsIff(fit, d.numSe, w);
    FitsIff(region, perWave, w * d.numSe);
  }

  /** Before GFX11 the count is a multiple of the engines, and one more per engine would need more than there is. */
  lemma WavesMaximalTotal(d: Device, perWave: nat, region: nat)
    requires perWave > 0 && d.numSe > 0 && d.numSe <= region / perWave < TWO32 && d.gfx < GFX11
    ensures var w := WaveCount(d, perWave, region);
            w % d.numSe == 0 &&
            (Claimed(d, w + d.numSe, perWave) > region || w + d.numSe > d.numCus * d.slotsPerCu % TWO32)
  {
    var w := WaveCount(d, perWave, region);
    FloorMultiple(Min(region / perWave, d.numCus * d.slotsPerCu % TWO32), d.numSe);
    FitsIff(region, perWave, w + d.numSe);
  }

  /** WAVESIZE times the granule is exactly a wave's bytes and fits the generation's field, for sizes the dispatch lets
      through. */
  lemma WavesizeFits(gfx: nat, perThread: nat)
    requires PerWave(gfx, perThread) <= MaxWaveScratch(gfx)
    ensures PerWave(gfx, perThread) / AlignmentUnit(gfx) * AlignmentUnit(gfx) == PerWave(gfx, perThread)
    ensures PerWave(gfx, perThread) / AlignmentUnit(gfx) < WavesizeLimit(gfx)
  {
    hide AlignUp;
    var x, u := PerWave(gfx, perThread), AlignmentUnit(gfx);
    assert x == u * (x / u) + x % u;
  }

  lemma FieldPower()
    ensures PowerOfTwo(0x10_0000)
  {
    DoublePower(1);
    PowerTimes(2, 2);
    PowerTimes(4, 4);
    PowerTimes(0x10, 0x10);
    PowerTimes(0x10, 0x100);
    PowerTimes(0x100, 0x1000);
  }

  /** What the packed fields read back as: the low twelve bits of the count, and the wave size with the count's other
      bits set in it. */
  lemma PackFields(wavesize: nat, waves: nat)
    requires wavesize < 0x4_0000 && waves < TWO32
    ensures Waves(Pack(wavesize, waves)) == waves % 0x1000
    ensures Wavesize(Pack(wavesize, waves)) == Or(wavesize, waves / 0x1000)
  {
    hide Or;
    FieldPower();
    var high, low := Or(wavesize, waves / 0x1000), waves % 0x1000;
    OrBelow(wavesize, waves / 0x1000, 0x10_0000);
    DivModUnique(high * 0x1000 + low, TWO32, 0, high * 0x1000 + low);
    DivModUnique(high * 0x1000 + low, 0x1000, high, low);
  }

  /** The two fields read back as packed exactly when the wave count fits its twelve bits. */
  lemma PackDecodesIff(wavesize: nat, waves: nat)
    requires wavesize < 0x4_0000 && waves < TWO32
    ensures Waves(Pack(wavesize, waves)) == waves && Wavesize(Pack(wavesize, waves)) == wavesize <==> waves < 0x1000
  {
    PackFields(wavesize, waves);
  }

  // ----- what the register says, on every device -----

  /** The wave count the handler packs, and the wave size, for a region of `slots` slots. */
  function CountFor(d: Device, perThread: nat, slots: nat): nat
    requires perThread > 0 && d.numSe > 0
  {
    PerWavePositive(d.gfx, perThread);
    WaveCount(d, PerWave(d.gfx, perThread), AllocSize(d.gfx, perThread, slots))
  }

  function SizeFor(gfx: nat, perThread: nat): nat { PerWave(gfx, perThread) / AlignmentUnit(gfx) }

  function RegisterFor(d: Device, perThread: nat, slots: nat): nat
    requires d.numSe > 0
  {
    TmpringSize(d, perThread, AllocSize(d.gfx, perThread, slots))
  }

  lemma PerWavePositive(gfx: nat, perThread: nat)
    requires perThread > 0
    ensures PerWave(gfx, perThread) > 0
  {
  }

  /** Spilled high bits of a count make each wave larger by less than they make the count smaller. */
  lemma SpilledFits(waves: nat, wavesize: nat, wavesize': nat)
    requires wavesize > 0 && wavesize' <= wavesize + waves / 0x1000
    ensures waves % 0x1000 * wavesize' <= waves * wavesize
  {
    var h, l := waves / 0x1000, waves % 0x1000;
    assert waves == 0x1000 * h + l;
    TimesBounded(l, wavesize', l, wavesize + h);
    assert l * (wavesize + h) == l * wavesize + l * h;
    TimesBounded(l, h, 0x1000, h);
    TimesBounded(h, 1, h, wavesize);
    assert (0x1000 * h + l) * wavesize == 0x1000 * (h * wavesize) + l * wavesize;
  }

  lemma RegisterFields(d: Device, perThread: nat, slots: nat)
    requires 0 < d.numSe <= slots < TWO32 && perThread > 0
    requires PerWave(d.gfx, perThread) <= MaxWaveScratch(d.gfx)
    ensures var t := RegisterFor(d, perThread, slots);
      && Waves(t) == CountFor(d, perThread, slots) % 0x1000
      && Wavesize(t) == Or(SizeFor(d.gfx, perThread), CountFor(d, perThread, slots) / 0x1000)
    ensures 0 < CountFor(d, perThread, slots) < TWO32 && 0 < SizeFor(d.gfx, perThread)
  {
    hide WaveCount, Pack, Or;
    RegionHolds(d.gfx, perThread, slots);
    var perWave, region := PerWave(d.gfx, perThread), AllocSize(d.gfx, perThread, slots);
    WaveCountBounded(d, perWave, region);
    WaveCountIs32Bits(d, perWave, region);
    WavesizeFits(d.gfx, perThread);
    PackFields(SizeFor(d.gfx, perThread), CountFor(d, perThread, slots));
  }

  lemma WaveCountIs32Bits(d: Device, perWave: nat, region: nat)
    requires perWave > 0 && 0 < d.numSe < TWO32
    ensures WaveCount(d, perWave, region) < TWO32
  {
    FloorMultiple(Min(region / perWave % TWO32, d.numCus * d.slotsPerCu % TWO32), d.numSe);
  }

  /** For every device and every slot count the handler can settle on, the slots that TMPRING_SIZE describes fit the
      region. */
  lemma SizingIsSafe(d: Device, perThread: nat, slots: nat)
    requires 0 < d.numSe <= slots < TWO32 && perThread > 0
    requires PerWave(d.gfx, perThread) <= MaxWaveScratch(d.gfx)
    ensures var t := RegisterFor(d, perThread, slots);
            Claimed(d, Waves(t), Wavesize(t) * AlignmentUnit(d.gfx)) <= AllocSize(d.gfx, perThread, slots)
  {
    hide WaveCount, Or, TmpringSize, AllocSize, PerWave;
    var t, c, size := RegisterFor(d, perThread, slots), CountFor(d, perThread, slots), SizeFor(d.gfx, perThread);
    RegisterFields(d, perThread, slots);
    OrBetween(size, c / 0x1000);
    SpilledFits(c, size, Wavesize(t));
    RegionHolds(d.gfx, perThread, slots);
    WavesFit(d, PerWave(d.gfx, perThread), AllocSize(d.gfx, perThread, slots));
    WavesizeFits(d.gfx, perThread);
    ClaimScales(d, Waves(t), Wavesize(t), c, size, AlignmentUnit(d.gfx));
  }

  lemma ClaimScales(d: Device, waves: nat, size: nat, waves': nat, size': nat, unit: nat)
    requires waves * size <= waves' * size'
    ensures Claimed(d, waves, size * unit) <= Claimed(d, waves', size' * unit)
  {
    var k := if d.gfx >= GFX11 then d.numSe else 1;
    assert Claimed(d, waves, size * unit) == waves * size * (k * unit);
    assert Claimed(d, waves', size' * unit) == waves' * size' * (k * unit);
    TimesBounded(waves * size, k * unit, waves' * size', k * unit);
  }

  /** The register names the wave size exactly when the count's bits above twelve are already set in it, and any waves
      at all exactly when its low twelve bits are not all zero. */
  lemma SizingIsExactIff(d: Device, perThread: nat, slots: nat)
    requires 0 < d.numSe <= slots < TWO32 && perThread > 0
    requires PerWave(d.gfx, perThread) <= MaxWaveScratch(d.gfx)
    ensures var t, c := RegisterFor(d, perThread, slots), CountFor(d, perThread, slots);
      && (Wavesize(t) * AlignmentUnit(d.gfx) == PerWave(d.gfx, perThread) <==>
            Or(SizeFor(d.gfx, perThread), c / 0x1000) == SizeFor(d.gfx, perThread))
      && (Waves(t) > 0 <==> c % 0x1000 != 0)
  {
    hide WaveCount, Or, TmpringSize, AllocSize, PerWave;
    RegisterFields(d, perThread, slots);
    WavesizeFits(d.gfx, perThread);
  }

  /** A device with fewer than 4096 slots and shader engines has its register exact. */
  lemma SmallDeviceIsExact(d: Device, perThread: nat, slots: nat)
    requires 0 < d.numSe <= slots < TWO32 && perThread > 0
    requires PerWave(d.gfx, perThread) <= MaxWaveScratch(d.gfx)
    requires d.numCus * d.slotsPerCu < 0x1000 && d.numSe < 0x1000
    ensures var t := RegisterFor(d, perThread, slots);
            Waves(t) > 0 && Wavesize(t) * AlignmentUnit(d.gfx) == PerWave(d.gfx, perThread)
  {
    hide WaveCount, Or, TmpringSize, AllocSize, PerWave;
    RegisterFields(d, perThread, slots);
    RegionHolds(d.gfx, perThread, slots);
    CountWithinDevice(d, PerWave(d.gfx, perThread), AllocSize(d.gfx, perThread, slots));
    SizingIsExactIff(d, perThread, slots);
    OrNothing(SizeFor(d.gfx, perThread));
  }

  lemma OrNothing(a: nat)
    ensures Or(a, 0) == a
  {
  }

  lemma CountWithinDevice(d: Device, perWave: nat, region: nat)
    requires perWave > 0 && d.numSe > 0
    ensures WaveCount(d, perWave, region) <= Max(d.numCus * d.slotsPerCu, d.numSe)
  {
    FloorMultiple(Min(region / perWave % TWO32, d.numCus * d.slotsPerCu % TWO32), d.numSe);
    assert d.numCus * d.slotsPerCu >= 0;
    ModAtMost(d.numCus * d.slotsPerCu, TWO32);
  }

  // ----- a slot holds its lanes -----

  /** The granule of WAVESIZE and the width of its field, by generation. */
  function WavesizeGranule(gfx: nat): nat { if gfx >= 110000 then 256 else 1024 }

  function FieldEnd(gfx: nat): nat { if gfx >= 120000 then 0x4_0000 else if gfx >= 110000 then 0x8000 else 0x2000 }

  /** A wave's slot has room for 64 lanes, rounded up to the granule and no further. */
  lemma SlotHoldsLanes(gfx: nat, perThread: nat)
    ensures 64 * perThread <= PerWave(gfx, perThread) < 64 * perThread + WavesizeGranule(gfx)
    ensures PerWave(gfx, perThread) % WavesizeGranule(gfx) == 0
  {
  }

  /** A dispatch is let through, and described at all, exactly when the granules of its lanes fit the field; the limits
      are 8,387,584 bytes a wave up to GFX10, 8,388,352 on GFX11 and 67,108,608 from GFX12 on. */
  lemma LetThroughIff(gfx: nat, perThread: nat)
    ensures PerWave(gfx, perThread) <= MaxWaveScratch(gfx) <==>
            (64 * perThread + WavesizeGranule(gfx) - 1) / WavesizeGranule(gfx) < FieldEnd(gfx)
    ensures MaxWaveScratch(gfx) == if gfx >= 120000 then 67_108_608 else if gfx >= 110000 then 8_388_352 else 8_387_584
  {
    var u, x := WavesizeGranule(gfx), 64 * perThread + WavesizeGranule(gfx) - 1;
    assert x == u * (x / u) + x % u && PerWave(gfx, perThread) == u * (x / u);
  }

  /** TMPRING_SIZE describes any region at all exactly when there is one and the size is one that is let through. */
  lemma DescribedIff(d: Device, perThread: nat, region: nat)
    requires 0 < d.numSe < TWO32
    ensures TmpringSize(d, perThread, region) != 0 <==>
            perThread > 0 && region > 0 && PerWave(d.gfx, perThread) <= MaxWaveScratch(d.gfx)
  {
    if perThread > 0 && region > 0 && PerWave(d.gfx, perThread) <= MaxWaveScratch(d.gfx) {
      hide WaveCount, Pack, Or, PerWave, AlignUp;
      PerWavePositive(d.gfx, perThread);
      WavesizeFits(d.gfx, perThread);
      var size, waves := SizeFor(d.gfx, perThread), WaveCount(d, PerWave(d.gfx, perThread), region);
      WaveCountIs32Bits(d, PerWave(d.gfx, perThread), region);
      PackFields(size, waves);
      OrBetween(size, waves / 0x1000);
    }
  }

  /** A region for a number of slots holds the lanes of that many waves, in whole 64 KiB, and wastes less than a granule
      a slot and 64 KiB. */
  lemma RegionHoldsLanes(gfx: nat, perThread: nat, slots: nat)
    requires perThread > 0 && slots > 0
    ensures slots * (64 * perThread) <= AllocSize(gfx, perThread, slots)
    ensures AllocSize(gfx, perThread, slots) < slots * (64 * perThread + WavesizeGranule(gfx)) + 0x1_0000
    ensures AllocSize(gfx, perThread, slots) % 0x1_0000 == 0
  {
    hide PerWave, AlignUp;
    var each, most := PerWave(gfx, perThread), 64 * perThread + WavesizeGranule(gfx);
    SlotHoldsLanes(gfx, perThread);
    PerWavePositive(gfx, perThread);
    SlotsTimes(slots, 64 * perThread, each, most);
  }

  lemma SlotsTimes(slots: nat, least: nat, each: nat, most: nat)
    requires slots > 0 && least <= each < most
    ensures slots * least <= each * slots && each * slots < slots * most
  {
    TimesBounded(slots, least, slots, each);
    TimesBounded(slots, each, slots, most - 1);
    assert slots * most == slots * (most - 1) + slots;
  }

  /** On every device the register gives each wave room for its lanes, and the region has all the slots it names. */
  lemma RegisterHoldsLanes(d: Device, perThread: nat, slots: nat)
    requires 0 < d.numSe <= slots < TWO32 && perThread > 0
    requires PerWave(d.gfx, perThread) <= MaxWaveScratch(d.gfx)
    ensures var t := RegisterFor(d, perThread, slots);
            var each := t / 0x1000 * WavesizeGranule(d.gfx);
            var waves := if d.gfx >= 110000 then t % 0x1000 * d.numSe else t % 0x1000;
            64 * perThread <= each && waves * each <= AllocSize(d.gfx, perThread, slots)
  {
    hide WaveCount, Or, TmpringSize, AllocSize, PerWave;
    RegisterFields(d, perThread, slots);
    OrBetween(SizeFor(d.gfx, perThread), CountFor(d, perThread, slots) / 0x1000);
    WavesizeFits(d.gfx, perThread);
    SlotHoldsLanes(d.gfx, perThread);
    SizingIsSafe(d, perThread, slots);
    var t := RegisterFor(d, perThread, slots);
    TimesBounded(SizeFor(d.gfx, perThread), WavesizeGranule(d.gfx), Wavesize(t), WavesizeGranule(d.gfx));
  }

  // ----- the device's own slot count -----

  /** scratch_device_slots for one XCC, in 32-bit arithmetic; align_up wants a power of two. */
  function DeviceSlots(d: Device): nat
    requires PowerOfTwo(d.numSe)
  {
    var x := (d.numCus + d.numSe - 1) % TWO32;
    var slots := (x - x % d.numSe) * d.slotsPerCu % TWO32;
    if slots == 0 then d.numSe else slots
  }

  /** Every unit has its slots, and the engines share them evenly: no fewer than the units have, and less than a full
      engine's more for each slot of a unit. */
  lemma DeviceSlotsCover(d: Device)
    requires PowerOfTwo(d.numSe) && 0 < d.numCus && 0 < d.slotsPerCu && (d.numCus + d.numSe) * d.slotsPerCu < TWO32
    ensures d.numCus * d.slotsPerCu <= DeviceSlots(d) < (d.numCus + d.numSe) * d.slotsPerCu
    ensures DeviceSlots(d) % d.numSe == 0
  {
    hide PowerOfTwo, DeviceSlots;
    PowerPositive(d.numSe);
    var x := d.numCus + d.numSe - 1;
    CoverByEngines(d.numCus, d.numSe, d.slotsPerCu, x - x % d.numSe);
    TimesBounded(x + 1, 1, x + 1, d.slotsPerCu);
    SlotsDoNotWrap(d, x);
  }

  /** Whatever the device reports, there is a slot for each engine at least, and the same number for each. */
  lemma EverySlotCountIsWhole(d: Device)
    requires PowerOfTwo(d.numSe) && d.numSe <= TWO32
    ensures DeviceSlots(d) >= d.numSe && DeviceSlots(d) % d.numSe == 0
  {
    hide PowerOfTwo;
    TwoPowers();
    PowerDivides(d.numSe, TWO32);
    var x := (d.numCus + d.numSe - 1) % TWO32;
    var m := x - x % d.numSe;
    assert m == d.numSe * (x / d.numSe);
    assert m * d.slotsPerCu == d.numSe * (x / d.numSe * d.slotsPerCu);
    ModOfMultiple(d.numSe, x / d.numSe * d.slotsPerCu);
    ModOfMultiple(d.numSe, 1);
    ModMod(m * d.slotsPerCu, TWO32, d.numSe);
    PositiveMultiple(m * d.slotsPerCu % TWO32, d.numSe);
  }

  lemma PositiveMultiple(x: nat, d: nat)
    requires d > 0 && x % d == 0
    ensures x == 0 || d <= x
  {
    assert x == d * (x / d);
    MultipleIsLarge(d, x / d);
  }

  lemma SlotsDoNotWrap(d: Device, x: nat)
    requires PowerOfTwo(d.numSe) && 0 < d.numSe && x == d.numCus + d.numSe - 1 < TWO32
    requires x - x % d.numSe >= 0 && 0 < (x - x % d.numSe) * d.slotsPerCu < TWO32
    ensures DeviceSlots(d) == (x - x % d.numSe) * d.slotsPerCu
  {
    hide PowerOfTwo;
    SmallMod(x);
    SmallMod((x - x % d.numSe) * d.slotsPerCu);
  }

  lemma PowerPositive(n: nat)
    requires PowerOfTwo(n)
    ensures n > 0
  {
  }

  lemma SmallMod(x: nat)
    requires x < TWO32
    ensures x % TWO32 == x
  {
  }

  lemma CoverByEngines(cus: nat, se: nat, k: nat, m: nat)
    requires se > 0 && k > 0 && m == cus + se - 1 - (cus + se - 1) % se
    ensures cus * k <= m * k < (cus + se) * k && m * k % se == 0
  {
    var q := (cus + se - 1) / se;
    assert m == se * q;
    TimesBounded(cus, k, m, k);
    TimesBounded(m, k, cus + se - 1, k);
    assert (cus + se) * k == (cus + se - 1) * k + k;
    assert m * k == se * (q * k);
    ModOfMultiple(se, q * k);
  }

  /** GFX9 devices of 128 units. With 40 slots each the count of 5120 spills a bit, and waves of 2 KiB are described as
      3 KiB; with 32 each the count of 4096 leaves no waves at all. */
  const LARGE: Device := Device(90010, 128, 4, 40)
  const FULL: Device := Device(90010, 128, 4, 32)

  lemma LargeDeviceIsInexact()
    ensures PowerOfTwo(LARGE.numSe) && DeviceSlots(LARGE) == 5120 && SizeFor(LARGE.gfx, 32) == 2
    ensures Wavesize(RegisterFor(LARGE, 32, 5120)) == 3
  {
    hide TmpringSize, Or, AllocSize, PerWave, WaveCount, PowerOfTwo, DeviceSlots;
    WideDeviceSlots();
    WideDeviceCount(LARGE, 5120);
    RegisterFields(LARGE, 32, 5120);
    TwoOrOne();
  }

  lemma FullDeviceHasNoWaves()
    ensures PowerOfTwo(FULL.numSe) && DeviceSlots(FULL) == 4096
    ensures Waves(RegisterFor(FULL, 32, 4096)) == 0
  {
    hide TmpringSize, Or, AllocSize, PerWave, WaveCount, PowerOfTwo, DeviceSlots;
    WideDeviceSlots();
    WideDeviceCount(FULL, 4096);
    RegisterFields(FULL, 32, 4096);
  }

  lemma TwoOrOne()
    ensures Or(2, 1) == 3
  {
    assert Or(1, 0) == 1;
  }

  lemma WideDeviceSlots()
    ensures PowerOfTwo(4) && DeviceSlots(LARGE) == 5120 && DeviceSlots(FULL) == 4096
  {
    DoublePower(1);
    DoublePower(2);
  }

  lemma WideDeviceCount(d: Device, slots: nat)
    requires (d == LARGE && slots == 5120) || (d == FULL && slots == 4096)
    ensures PerWave(d.gfx, 32) == 2048 && CountFor(d, 32, slots) == slots
  {
    hide Or, AlignUp, PowerOfTwo;
    DivModUnique(2048 * slots, 2048, slots, 0);
    assert AllocSize(d.gfx, 32, slots) == 2048 * slots;
  }
}
