/** The first-fit pool allocator (lib/detail/pool_allocator.cpp): its free list edited in place, and the
    partition of the region into free and live bytes that every run keeps. */
module PoolAllocator {
  import opened Util
  import opened Arith
  import opened FreeList

  // ----- free and live bytes partition the region -----

  ghost predicate InLive(live: map<nat, nat>, x: nat) {
    exists o :: o in live && InBlock(Block(o, live[o]), x)
  }

  /** Live blocks and free blocks partition the region, and the free list is canonical. */
  ghost predicate Partition(free: seq<Block>, live: map<nat, nat>, regionSize: nat, align: nat)
    requires align > 0
  {
    && Canonical(free, regionSize, align)
    && (forall o :: o in live ==> BlockFits(Block(o, live[o]), regionSize, align))
    && (forall o, p :: o in live && p in live && o < p ==> o + live[o] <= p)
    && (forall x :: 0 <= x < regionSize ==> (Covers(free, x) <==> !InLive(live, x)))
  }

  lemma FreshPartition(regionSize: nat, align: nat)
    requires align > 0 && regionSize > 0
    ensures Partition([Block(0, regionSize)], map[], regionSize, align)
  {
    assert forall x :: 0 <= x < regionSize ==> InBlock([Block(0, regionSize)][0], x);
  }

  lemma FreeIsInside(free: seq<Block>, regionSize: nat, align: nat, x: nat)
    requires align > 0 && Canonical(free, regionSize, align) && Covers(free, x)
    ensures x < regionSize
  {
  }

  /** The front of a free block lies apart from every live block. */
  lemma FreeApartFromLive(free: seq<Block>, live: map<nat, nat>, regionSize: nat, align: nat, i: nat, n: nat, o: nat)
    requires align > 0 && Partition(free, live, regionSize, align) && i < |free| && 0 < n <= free[i].size && o in live
    ensures o != free[i].offset && (o + live[o] <= free[i].offset || free[i].offset + n <= o)
  {
    var b := Block(free[i].offset, n);
    assert BlockFits(Block(o, live[o]), regionSize, align);
    assert InBlock(Block(o, live[o]), o) && InLive(live, o);
    assert InBlock(free[i], b.offset) && Covers(free, b.offset);
    assert !InBlock(free[i], o) && !InBlock(Block(o, live[o]), b.offset);
  }

  lemma LiveAfter(live: map<nat, nat>, b: Block, x: nat)
    requires b.offset !in live
    ensures InLive(live[b.offset := b.size], x) <==> InLive(live, x) || InBlock(b, x)
  {
    var live' := live[b.offset := b.size];
    if InLive(live, x) {
      var o :| o in live && InBlock(Block(o, live[o]), x);
      assert o in live' && live'[o] == live[o];
    }
    assert b.offset in live' && live'[b.offset] == b.size;
    if InLive(live', x) {
      var o :| o in live' && InBlock(Block(o, live'[o]), x);
      assert o != b.offset ==> o in live && live[o] == live'[o];
    }
  }

  /** An allocation hands out bytes that no live block has. */
  lemma AllocKeepsPartition(free: seq<Block>, live: map<nat, nat>, regionSize: nat, align: nat, n: nat)
    requires align > 0 && Partition(free, live, regionSize, align)
    requires 0 < n && n % align == 0 && FirstFit(free, n) < |free|
    ensures var i := FirstFit(free, n);
            && Partition(Take(free, i, n), live[free[i].offset := n], regionSize, align)
            && free[i].offset !in live
            && (forall o :: o in live ==> o + live[o] <= free[i].offset || free[i].offset + n <= o)
  {
    hide Covers, InLive, InBlock, Take, FirstFit, Canonical;
    var i := FirstFit(free, n);
    var b := Block(free[i].offset, n);
    TakeIsExact(free, regionSize, align, i, n);
    CanonicalFits(free, regionSize, align, i);
    forall o | o in live ensures o != b.offset && (o + live[o] <= b.offset || b.End() <= o) {
      FreeApartFromLive(free, live, regionSize, align, i, n, o);
    }
    forall x: nat | x < regionSize
      ensures Covers(Take(free, i, n), x) <==> !InLive(live[b.offset := n], x)
    {
      LiveAfter(live, b, x);
      FrontIsFree(free, i, n, x);
    }
  }

  lemma CanonicalFits(free: seq<Block>, regionSize: nat, align: nat, i: nat)
    requires align > 0 && Canonical(free, regionSize, align) && i < |free|
    ensures BlockFits(free[i], regionSize, align)
  {
  }

  lemma FrontIsFree(free: seq<Block>, i: nat, n: nat, x: nat)
    requires i < |free| && n <= free[i].size
    ensures InBlock(Block(free[i].offset, n), x) ==> Covers(free, x)
  {
    if InBlock(Block(free[i].offset, n), x) {
      assert InBlock(free[i], x);
    }
  }

  /** Freeing a live block gives exactly its bytes back. */
  lemma FreeKeepsPartition(free: seq<Block>, live: map<nat, nat>, regionSize: nat, align: nat, o: nat)
    requires align > 0 && Partition(free, live, regionSize, align) && o in live
    ensures Partition(Release(free, Block(o, live[o])), live - {o}, regionSize, align)
  {
    var b := Block(o, live[o]);
    var live' := live - {o};
    forall x: nat | InBlock(b, x) ensures !Covers(free, x) {
      assert BlockFits(b, regionSize, align);
    }
    ReleaseIsExact(free, b, regionSize, align);
    forall x | 0 <= x < regionSize ensures InLive(live', x) <==> InLive(live, x) && !InBlock(b, x) {
      if InLive(live', x) {
        var p :| p in live' && InBlock(Block(p, live'[p]), x);
        assert p in live && live[p] == live'[p] && p != o;
      }
      if InLive(live, x) && !InBlock(b, x) {
        var p :| p in live && InBlock(Block(p, live[p]), x);
        assert p in live' && live'[p] == live[p];
      }
    }
  }

  /** With nothing live the list is the one block it started as, whatever happened in between. */
  lemma NothingLive(free: seq<Block>, regionSize: nat, align: nat)
    requires align > 0 && regionSize > 0 && Partition(free, map[], regionSize, align)
    ensures free == [Block(0, regionSize)]
  {
    FreshPartition(regionSize, align);
    forall x ensures Covers(free, x) <==> Covers([Block(0, regionSize)], x) {
      if Covers(free, x) { FreeIsInside(free, regionSize, align, x); }
    }
    CanonicalIsUnique(free, [Block(0, regionSize)], regionSize, align);
  }

  /** Giving back what was just taken restores the very same list. */
  lemma TakeThenRelease(free: seq<Block>, regionSize: nat, align: nat, i: nat, n: nat)
    requires align > 0 && Canonical(free, regionSize, align) && i < |free|
    requires 0 < n <= free[i].size && n % align == 0
    ensures Release(Take(free, i, n), Block(free[i].offset, n)) == free
  {
    var b := Block(free[i].offset, n);
    TakeIsExact(free, regionSize, align, i, n);
    assert BlockFits(free[i], regionSize, align);
    ReleaseIsExact(Take(free, i, n), b, regionSize, align);
    forall x ensures Covers(Release(Take(free, i, n), b), x) <==> Covers(free, x) {
      if InBlock(b, x) { assert InBlock(free[i], x); }
    }
    CanonicalIsUnique(Release(Take(free, i, n), b), free, regionSize, align);
  }

  // ----- runs of allocations and matching frees -----

  datatype Op = Alloc(size: nat) | Free(offset: nat)

  datatype Pool = Pool(free: seq<Block>, live: map<nat, nat>)

  /** A request the source serves (or refuses), or the free of a live block with its own size. */
  predicate Allowed(p: Pool, op: Op, align: nat) {
    match op
    case Alloc(size) => 0 < size && size + align <= TWO64
    case Free(offset) => offset in p.live
  }

  function Do(p: Pool, op: Op, align: nat): Pool
    requires align > 0 && Allowed(p, op, align)
  {
    match op
    case Alloc(size) =>
      var n := Round(size, align);
      var i := FirstFit(p.free, n);
      if i == |p.free| then p else Pool(Take(p.free, i, n), p.live[p.free[i].offset := n])
    case Free(offset) => Pool(Release(p.free, Block(offset, p.live[offset])), p.live - {offset})
  }

  /** `now` is the pool after `op`, a request or free it may serve. */
  ghost predicate Becomes(was: Pool, op: Op, now: Pool, align: nat)
    requires align > 0
  {
    Allowed(was, op, align) && now == Do(was, op, align)
  }

  ghost predicate PoolRuns(p: Pool, ops: seq<Op>, q: Pool, align: nat)
    requires align > 0
    decreases |ops|
  {
    if ops == [] then p == q
    else Allowed(p, ops[0], align) && PoolRuns(Do(p, ops[0], align), ops[1..], q, align)
  }

  lemma {:induction false} RunKeepsPartition(p: Pool, ops: seq<Op>, q: Pool, regionSize: nat, align: nat)
    requires 0 < align <= TWO64 && Partition(p.free, p.live, regionSize, align) && PoolRuns(p, ops, q, align)
    ensures Partition(q.free, q.live, regionSize, align)
    decreases |ops|
  {
    hide Partition, FirstFit;
    if ops != [] {
      match ops[0] {
        case Alloc(size) =>
          RoundCoversIff(size, align);
          if FirstFit(p.free, Round(size, align)) < |p.free| {
            AllocKeepsPartition(p.free, p.live, regionSize, align, Round(size, align));
          }
        case Free(offset) => FreeKeepsPartition(p.free, p.live, regionSize, align, offset);
      }
      RunKeepsPartition(Do(p, ops[0], align), ops[1..], q, regionSize, align);
    }
  }

  /** After any run of allocations and matching frees the list is the canonical form of the free bytes, and a
      run that ends with nothing live ends where it began. */
  lemma EveryRunIsCanonical(ops: seq<Op>, q: Pool, regionSize: nat, align: nat)
    requires 0 < align <= TWO64 && regionSize > 0
    requires PoolRuns(Pool([Block(0, regionSize)], map[]), ops, q, align)
    ensures Partition(q.free, q.live, regionSize, align)
    ensures q.live == map[] ==> q.free == [Block(0, regionSize)]
  {
    FreshPartition(regionSize, align);
    RunKeepsPartition(Pool([Block(0, regionSize)], map[]), ops, q, regionSize, align);
    if q.live == map[] {
      NothingLive(q.free, regionSize, align);
    }
  }

  // ----- the allocator object -----

  class PoolAllocator {
    const base: nat
    const regionSize: nat
    const align: nat
    var freeList: seq<Block>
    ghost var live: map<nat, nat>

    ghost predicate Valid()
      reads this
    {
      && 0 < align && regionSize > 0 && base + regionSize <= TWO64 && align <= TWO64
      && Partition(freeList, live, regionSize, align)
    }

    constructor (base: nat, regionSize: nat, align: nat)
      requires regionSize > 0 && 0 < align <= TWO64 && base + regionSize <= TWO64
      ensures Valid() && this.base == base && this.regionSize == regionSize && this.align == align
      ensures freeList == [Block(0, regionSize)] && live == map[]
    {
      this.base := base;
      this.regionSize := regionSize;
      this.align := align;
      freeList := [Block(0, regionSize)];
      live := map[];
      FreshPartition(regionSize, align);
    }

    /** `canAlloc` says whether the list and the mutex get their memory. */
    static method Create(base: nat, regionSize: nat, align: nat, canAlloc: bool) returns (r: Result<PoolAllocator>)
      requires base + regionSize <= TWO64 && align < TWO64
      ensures r.Ok? <==> regionSize > 0 && PowerOfTwo(align) && base % align == 0 && canAlloc
      ensures r.Ok? ==> fresh(r.value) && r.value.Valid() && r.value.align == align && r.value.base == base &&
                        r.value.regionSize == regionSize && r.value.freeList == [Block(0, regionSize)]
      ensures r.Err? ==>
        r.error == (if regionSize > 0 && PowerOfTwo(align) && base % align == 0 then ENOMEM else EINVAL)
    {
      if regionSize == 0 || align == 0 {
        return Err(EINVAL);
      }
      if !PowerOfTwo(align) {
        return Err(EINVAL);
      }
      if base % align != 0 {
        return Err(EINVAL);
      }
      if !canAlloc {
        return Err(ENOMEM);
      }
      var p := new PoolAllocator(base, regionSize, align);
      return Ok(p);
    }

    /** Shift the tail left over element `i`. */
    method RemoveAt(i: nat)
      requires i < |freeList|
      modifies this`freeList
      ensures freeList == old(freeList)[..i] + old(freeList)[i + 1..]
    {
      var j := i;
      while j + 1 < |freeList|
        invariant i <= j < |freeList| == |old(freeList)|
        invariant forall k :: 0 <= k < i ==> freeList[k] == old(freeList)[k]
        invariant forall k :: i <= k < j ==> freeList[k] == old(freeList)[k + 1]
        invariant forall k :: j <= k < |freeList| ==> freeList[k] == old(freeList)[k]
      {
        freeList := freeList[j := freeList[j + 1]];
        j := j + 1;
      }
      freeList := freeList[..|freeList| - 1];
    }

    /** Append an empty slot, shift the tail right and write `b` at `pos`. */
    method InsertAt(pos: nat, b: Block)
      requires pos <= |freeList|
      modifies this`freeList
      ensures freeList == old(freeList)[..pos] + [b] + old(freeList)[pos..]
    {
      freeList := freeList + [Block(0, 0)];
      var i := |freeList| - 1;
      while i > pos
        invariant pos <= i < |freeList| == |old(freeList)| + 1
        invariant forall k :: 0 <= k < i ==> freeList[k] == old(freeList)[k]
        invariant forall k :: i < k < |freeList| ==> freeList[k] == old(freeList)[k - 1]
      {
        freeList := freeList[i := freeList[i - 1]];
        i := i - 1;
      }
      freeList := freeList[pos := b];
    }

    /** What an allocation of `n` > 0 rounded bytes may answer: the lowest run that fits, or ENOMEM only when
        there is none. */
    ghost predicate LowestFit(free: seq<Block>, n: nat, r: Result<nat>) {
      match r
      case Ok(p) =>
        base <= p && FreeRun(free, p - base, n) && forall from :: FreeRun(free, from, n) ==> p - base <= from
      case Err(e) => e == ENOMEM && forall from :: !FreeRun(free, from, n)
    }

    /** First fit. A request whose rounding wraps past 2^64 is served with zero bytes. */
    method Allocate(size: nat) returns (r: Result<nat>)
      requires Valid() && size < TWO64
      modifies this
      ensures Valid()
      ensures size == 0 ==> r == Err(EINVAL)
      ensures 0 < size && size + align <= TWO64 ==> LowestFit(old(freeList), Round(size, align), r)
      ensures 0 < size && size + align <= TWO64 ==>
        Becomes(Pool(old(freeList), old(live)), Alloc(size), Pool(freeList, live), align)
      ensures 0 < size && r.Ok? && size + align <= TWO64 ==>
        r.value - base !in old(live) && live == old(live)[r.value - base := Round(size, align)]
      ensures r.Err? || size + align > TWO64 ==> freeList == old(freeList) && live == old(live)
      ensures size + align > TWO64 ==>
        r == if old(freeList) == [] then Err(ENOMEM) else Ok(base + old(freeList)[0].offset)
    {
      hide Partition, FreeRun, Canonical;
      if size == 0 {
        return Err(EINVAL);
      }
      var rounded := Round(size, align);
      RoundCoversIff(size, align);
      if rounded > 0 {
        FirstFitIsLowestHere(freeList, rounded);
      }
      var i := 0;
      while i < |freeList|
        invariant i <= FirstFit(freeList, rounded)
        invariant freeList == old(freeList) && live == old(live)
      {
        var blk := freeList[i];
        if blk.size < rounded {
          i := i + 1;
          continue;
        }
        var offset := blk.offset;
        if rounded > 0 {
          AllocKeepsPartition(freeList, live, regionSize, align, rounded);
          live := live[offset := rounded];
        } else {
          NoEmptyBlock(freeList, i);
        }
        if blk.size == rounded {
          RemoveAt(i);
        } else {
          freeList := freeList[i := Block(blk.offset + rounded, blk.size - rounded)];
        }
        assert freeList == Take(old(freeList), i, rounded);
        assert rounded == 0 ==> freeList == old(freeList);
        return Ok(base + offset);
      }
      return Err(ENOMEM);
    }

    lemma NoEmptyBlock(free: seq<Block>, i: nat)
      requires align > 0 && Partition(free, live, regionSize, align) && i < |free|
      ensures free[i].size > 0
    {
      assert BlockFits(free[i], regionSize, align);
    }

    lemma FirstFitIsLowestHere(free: seq<Block>, n: nat)
      requires align > 0 && Partition(free, live, regionSize, align) && n > 0
      ensures var i := FirstFit(free, n);
              LowestFit(free, n, if i == |free| then Err(ENOMEM) else Ok(base + free[i].offset))
    {
      FirstFitIsLowest(free, regionSize, align, n);
    }

    lemma MatchesInside(ptr: nat, size: nat)
      requires Valid()
      ensures Matches(live, ptr, size) ==> ptr < base + regionSize
    {
      if Matches(live, ptr, size) {
        assert BlockFits(Block(ptr - base, live[ptr - base]), regionSize, align);
      }
    }

    /** Sorted insert and two-way coalescing. `canGrow` says whether the list can get its extra slot. */
    method Deallocate(ptr: nat, size: nat, canGrow: bool) returns (r: Result<()>)
      requires Valid() && size < TWO64
      modifies this
      ensures ptr == 0 || size == 0 ==> r == Ok(()) && freeList == old(freeList) && live == old(live)
      ensures ptr != 0 && size != 0 && !(base <= ptr < base + regionSize) ==>
        r == Err(EINVAL) && freeList == old(freeList) && live == old(live)
      ensures ptr != 0 && size != 0 && base <= ptr < base + regionSize && !canGrow ==>
        r == Err(ENOMEM) && freeList == old(freeList) && live == old(live)
      ensures ptr != 0 && size != 0 && base <= ptr < base + regionSize && canGrow ==>
        r == Ok(()) && freeList == Release(old(freeList), Block(ptr - base, Round(size, align)))
      ensures Matches(old(live), ptr, size) ==> Valid()
      ensures Matches(old(live), ptr, size) && ptr != 0 && canGrow ==>
        Becomes(Pool(old(freeList), old(live)), Free(ptr - base), Pool(freeList, live), align)
    {
      hide Partition, Round, Release;
      MatchesInside(ptr, size);
      if ptr == 0 || size == 0 {
        return Ok(());
      }
      if ptr < base || ptr >= base + regionSize {
        return Err(EINVAL);
      }
      var offset := ptr - base;
      var rounded := Round(size, align);
      if Matches(live, ptr, size) {
        FreeKeepsPartition(freeList, live, regionSize, align, offset);
        if canGrow {
          live := live - {offset};
        }
      }
      var grown := InsertFree(Block(offset, rounded), canGrow);
      return if grown then Ok(()) else Err(ENOMEM);
    }

    /** Find the insertion point, insert, and coalesce both ways. */
    method InsertFree(b: Block, canGrow: bool) returns (grown: bool)
      modifies this`freeList
      ensures grown == canGrow
      ensures freeList == if canGrow then Release(old(freeList), b) else old(freeList)
    {
      var pos := 0;
      while pos < |freeList| && freeList[pos].offset < b.offset
        invariant pos <= InsertPos(freeList, b.offset)
        invariant freeList == old(freeList)
      {
        pos := pos + 1;
      }
      assert pos == InsertPos(freeList, b.offset);
      if !canGrow {
        return false;
      }
      InsertAt(pos, b);
      CoalesceRight(pos);
      CoalesceLeft(pos);
      return true;
    }

    method CoalesceRight(pos: nat)
      requires pos < |freeList|
      modifies this`freeList
      ensures freeList == MergeRight(old(freeList), pos)
    {
      if pos + 1 < |freeList| && freeList[pos].offset + freeList[pos].size == freeList[pos + 1].offset {
        freeList := freeList[pos := Block(freeList[pos].offset, freeList[pos].size + freeList[pos + 1].size)];
        RemoveAt(pos + 1);
      }
    }

    method CoalesceLeft(pos: nat)
      requires pos < |freeList|
      modifies this`freeList
      ensures freeList == MergeLeft(old(freeList), pos)
    {
      if pos > 0 && freeList[pos - 1].offset + freeList[pos - 1].size == freeList[pos].offset {
        freeList := freeList[pos - 1 := Block(freeList[pos - 1].offset, freeList[pos - 1].size + freeList[pos].size)];
        RemoveAt(pos);
      }
    }

    /** The caller returns a block it owns, with the size it asked for. */
    ghost predicate Matches(live: map<nat, nat>, ptr: nat, size: nat)
      requires align > 0
    {
      size > 0 && base <= ptr && ptr - base in live && live[ptr - base] == Round(size, align)
    }
  }
}
