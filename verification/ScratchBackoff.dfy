/** The handler's search for a region: fewer and fewer slots until the pool, the buffer and its mapping all work
    (lib/queue.cpp:205-266). */
module ScratchBackoff {
  import opened Arith
  import opened FreeList
  import opened PoolAllocator
  import opened ScratchSizing
  import opened Util

  /** Waves of a work-group, in the source's 64- and 32-bit arithmetic. */
  function WavesPerGroup(block: (nat, nat, nat)): (w: nat)
    ensures 1 <= w < TWO32
  {
    Max((block.0 * block.1 * block.2 % TWO64 + LANES - 1) % TWO64 / LANES % TWO32, 1)
  }

  /** The fewest waves of 64 lanes that hold the group's threads, and at least one. */
  lemma WavesHoldTheGroup(block: (nat, nat, nat))
    requires block.0 * block.1 * block.2 < 64 * (TWO32 - 1)
    ensures var w, threads := WavesPerGroup(block), block.0 * block.1 * block.2;
            threads <= 64 * w && (threads > 0 ==> 64 * (w - 1) < threads) && (threads == 0 ==> w == 1)
  {
    var threads := block.0 * block.1 * block.2;
    TimesBounded(block.0, block.1, block.0, block.1);
    TimesBounded(block.0 * block.1, block.2, block.0 * block.1, block.2);
    GroupWaves(threads);
  }

  lemma GroupWaves(threads: nat)
    requires threads < 64 * (TWO32 - 1)
    ensures var q := (threads % TWO64 + 63) % TWO64 / 64;
            q % TWO32 == q && threads <= 64 * q && (threads > 0 ==> 64 * (q - 1) < threads) && (threads == 0 ==> q == 0)
  {
  }

  /** The slots to try after a failure: 32-bit subtraction, then down to a multiple of the shader engines. */
  function Next(slots: nat, w: nat, numSe: nat): (n: nat)
    requires numSe > 0
  {
    (slots - w) % TWO32 / numSe * numSe
  }

  /** The slot count of try `k` when all before it failed. */
  function Slots(start: nat, w: nat, numSe: nat, k: nat): nat
    requires numSe > 0
  {
    if k == 0 then start else Next(Slots(start, w, numSe, k - 1), w, numSe)
  }

  /** What the handler takes hold of. */
  datatype Scratch = Scratch(va: nat, size: nat, tmpring: nat, slots: nat)

  lemma SizeBounds(gfx: nat, perThread: nat, slots: nat)
    requires perThread > 0 && PerWave(gfx, perThread) <= MaxWaveScratch(gfx) && slots < TWO32
    ensures AllocSize(gfx, perThread, slots) + TWO32 <= TWO64
    ensures slots > 0 ==> AllocSize(gfx, perThread, slots) > 0
  {
    hide PerWave;
    MaxWaveBounded(gfx);
    TimesBounded(PerWave(gfx, perThread), slots, 0x400_0000, TWO32);
    PerWavePositive(gfx, perThread);
  }

  lemma MaxWaveBounded(gfx: nat)
    ensures MaxWaveScratch(gfx) < 0x400_0000
  {
  }

  /** With groups of at most two waves an engine the subtraction does not wrap and every try is smaller. */
  lemma NextSmaller(slots: nat, w: nat, numSe: nat)
    requires 1 <= w <= 2 * numSe <= slots < TWO32
    ensures Next(slots, w, numSe) < slots
  {
    FloorMultiple(slots - w, numSe);
  }

  /** Returning what was just allocated leaves the pool exactly as it was. */
  lemma TryUndone(p: Pool, size: nat, regionSize: nat, align: nat, o: nat)
    requires 0 < align && 0 < size && size + align <= TWO64 && Partition(p.free, p.live, regionSize, align)
    requires FirstFit(p.free, Round(size, align)) < |p.free|
    requires o !in p.live && Do(p, Alloc(size), align).live == p.live[o := Round(size, align)]
    ensures Do(Do(p, Alloc(size), align), Free(o), align) == p
  {
    hide Partition, Round, FirstFit, Release, Take;
    var n := Round(size, align);
    var i := FirstFit(p.free, n);
    RoundCoversIff(size, align);
    AllocKeepsPartition(p.free, p.live, regionSize, align, n);
    PartitionIsCanonical(p.free, p.live, regionSize, align);
    assert p.free[i].offset in p.live[o := n];
    TakeThenRelease(p.free, regionSize, align, i, n);
    assert p.live[o := n] - {o} == p.live;
  }

  lemma PartitionIsCanonical(free: seq<Block>, live: map<nat, nat>, regionSize: nat, align: nat)
    requires align > 0 && Partition(free, live, regionSize, align)
    ensures Canonical(free, regionSize, align)
  {
  }

  /** A try for `size` bytes cannot succeed: the free list has no run for it, or its buffer cannot be had. */
  ghost predicate Hopeless(free: seq<Block>, align: nat, size: nat, works: bool)
    requires align > 0
  {
    !works || forall from :: !FreeRun(free, from, Round(size, align))
  }

  /** One try: the pool's range, given back when the buffer cannot be had or mapped. */
  method TryOnce(pool: PoolAllocator, size: nat, works: bool) returns (va: Option<nat>)
    requires pool.Valid() && pool.base > 0 && 0 < size && size + pool.align <= TWO64
    modifies pool
    ensures pool.Valid()
    ensures va.None? ==> pool.freeList == old(pool.freeList) && pool.live == old(pool.live)
    ensures va.None? ==> Hopeless(pool.freeList, pool.align, size, works)
    ensures va.Some? ==> works && pool.LowestFit(old(pool.freeList), Round(size, pool.align), Ok(va.value))
    ensures va.Some? ==>
      Becomes(Pool(old(pool.freeList), old(pool.live)), Alloc(size), Pool(pool.freeList, pool.live), pool.align)
  {
    hide Partition, Round, Take, Release, FreeRun;
    var region := pool.Allocate(size);
    if region.Err? {
      return None;
    }
    if works {
      return Some(region.value);
    }
    ghost var was := Pool(old(pool.freeList), old(pool.live));
    TryUndone(was, size, pool.regionSize, pool.align, region.value - pool.base);
    var freed := pool.Deallocate(region.value, size, true);
    va := None;
  }

  /** The search from `start` comes to try `k`, and no try before it can succeed. */
  ghost predicate AllHopeless(free: seq<Block>, align: nat, d: Device, perThread: nat, w: nat, start: nat,
                              works: nat -> bool, k: nat)
    requires align > 0 && d.numSe > 0
  {
    forall j :: 0 <= j < k ==>
      var n := Slots(start, w, d.numSe, j);
      n >= 2 * d.numSe && Hopeless(free, align, AllocSize(d.gfx, perThread, n), works(j))
  }

  lemma NoneHopeless(free: seq<Block>, align: nat, d: Device, perThread: nat, w: nat, start: nat, works: nat -> bool)
    requires align > 0 && d.numSe > 0
    ensures AllHopeless(free, align, d, perThread, w, start, works, 0)
  {
  }

  lemma OneMoreHopeless(free: seq<Block>, align: nat, d: Device, perThread: nat, w: nat, start: nat,
                        works: nat -> bool, k: nat)
    requires align > 0 && d.numSe > 0 && AllHopeless(free, align, d, perThread, w, start, works, k)
    requires Slots(start, w, d.numSe, k) >= 2 * d.numSe
    requires Hopeless(free, align, AllocSize(d.gfx, perThread, Slots(start, w, d.numSe, k)), works(k))
    ensures AllHopeless(free, align, d, perThread, w, start, works, k + 1)
  {
    hide Hopeless, Slots, AllocSize;
  }

  /** The search stops at try `k`: too few slots are left, or the try can succeed. */
  ghost predicate StopsAt(free: seq<Block>, align: nat, d: Device, perThread: nat, w: nat, start: nat,
                          works: nat -> bool, k: nat)
    requires align > 0 && d.numSe > 0
  {
    var n := Slots(start, w, d.numSe, k);
    n < 2 * d.numSe || !Hopeless(free, align, AllocSize(d.gfx, perThread, n), works(k))
  }

  /** Try the pool, then the buffer and its mapping, with fewer slots after each failure. `works` says which tries get
      a mapped buffer. The first try that can succeed does, and has the pool serve one request; when none can, the
      pool is as it was. It is asked only that the search stop somewhere: that a try can succeed, or that, with every
      try failing, too few slots are left in the end. */
  method FindRegion(pool: PoolAllocator, d: Device, perThread: nat, block: (nat, nat, nat), start: nat,
                    works: nat -> bool)
    returns (r: Option<Scratch>, ghost k: nat)
    requires pool.Valid() && pool.base > 0 && pool.align <= TWO32
    requires 0 < d.numSe && 2 * d.numSe < TWO32 && start < TWO32
    requires 0 < perThread && PerWave(d.gfx, perThread) <= MaxWaveScratch(d.gfx)
    requires exists stop: nat ::
      StopsAt(pool.freeList, pool.align, d, perThread, WavesPerGroup(block), start, works, stop)
    modifies pool
    ensures pool.Valid()
    ensures AllHopeless(old(pool.freeList), pool.align, d, perThread, WavesPerGroup(block), start, works, k)
    ensures r.None? ==> Slots(start, WavesPerGroup(block), d.numSe, k) < 2 * d.numSe
    ensures r.None? ==> pool.freeList == old(pool.freeList) && pool.live == old(pool.live)
    ensures r.Some? ==> works(k) && r.value.slots == Slots(start, WavesPerGroup(block), d.numSe, k) >= 2 * d.numSe
    ensures r.Some? ==> r.value.size == AllocSize(d.gfx, perThread, r.value.slots)
    ensures r.Some? ==> r.value.tmpring == TmpringSize(d, perThread, r.value.size)
    ensures r.Some? ==> pool.LowestFit(old(pool.freeList), Round(r.value.size, pool.align), Ok(r.value.va))
    ensures r.Some? ==>
      Becomes(Pool(old(pool.freeList), old(pool.live)), Alloc(r.value.size), Pool(pool.freeList, pool.live), pool.align)
  {
    hide WavesPerGroup, AllocSize, TmpringSize, PerWave, MaxWaveScratch, Next, Hopeless, AllHopeless;
    hide Partition, Round, FreeRun, Becomes, PoolAllocator.LowestFit;
    var w := WavesPerGroup(block);
    ghost var stop: nat :| StopsAt(pool.freeList, pool.align, d, perThread, w, start, works, stop);
    NoneHopeless(pool.freeList, pool.align, d, perThread, w, start, works);
    var slots, tries := start, 0;
    var minSlots := 2 * d.numSe;
    while slots >= minSlots
      invariant slots < TWO32 && pool.Valid() && pool.freeList == old(pool.freeList) && pool.live == old(pool.live)
      invariant slots == Slots(start, w, d.numSe, tries) && tries <= stop
      invariant AllHopeless(old(pool.freeList), pool.align, d, perThread, w, start, works, tries)
      decreases stop - tries
    {
      var size := AllocSize(d.gfx, perThread, slots);
      SizeBounds(d.gfx, perThread, slots);
      // the source leaves the loop when there is nothing to allocate, which cannot happen here
      assert size > 0;
      var va := TryOnce(pool, size, works(tries));
      if va.Some? {
        return Some(Scratch(va.value, size, TmpringSize(d, perThread, size), slots)), tries;
      }
      OneMoreHopeless(old(pool.freeList), pool.align, d, perThread, w, start, works, tries);
      NextFits(slots, w, d.numSe);
      slots := Next(slots, w, d.numSe);
      tries := tries + 1;
    }
    return None, tries;
  }

  lemma NextFits(slots: nat, w: nat, numSe: nat)
    requires numSe > 0
    ensures Next(slots, w, numSe) < TWO32
  {
    FloorMultiple((slots - w) % TWO32, numSe);
  }
}
