/** The free list of the pool allocator as a value: what first fit and coalescing do to it, and why the list is
    the one canonical form of the set of free bytes. */
module FreeList {
  import opened Arith

  datatype Block = Block(offset: nat, size: nat) {
    function End(): nat { offset + size }
  }

  predicate InBlock(b: Block, x: nat) { b.offset <= x < b.End() }

  /** Byte `x` is free. */
  ghost predicate Covers(bs: seq<Block>, x: nat) {
    exists i :: 0 <= i < |bs| && InBlock(bs[i], x)
  }

  /** Sorted, disjoint and with a gap between any two blocks; inside the region and aligned. */
  ghost predicate Canonical(bs: seq<Block>, regionSize: nat, align: nat)
    requires align > 0
  {
    && (forall i :: 0 <= i < |bs| ==> BlockFits(bs[i], regionSize, align))
    && (forall i, j :: 0 <= i < j < |bs| ==> bs[i].End() < bs[j].offset)
  }

  predicate BlockFits(b: Block, regionSize: nat, align: nat)
    requires align > 0
  {
    b.size > 0 && b.offset % align == 0 && b.End() <= regionSize
  }

  /** Every byte of [from, from + n) is free. */
  ghost predicate FreeRun(bs: seq<Block>, from: nat, n: nat) {
    forall x :: from <= x < from + n ==> Covers(bs, x)
  }

  // ----- first fit -----

  /** The index of the first block of at least `n` bytes, or the length of the list. */
  function FirstFit(bs: seq<Block>, n: nat): (i: nat)
    ensures i <= |bs|
    ensures i < |bs| ==> n <= bs[i].size
    ensures forall k :: 0 <= k < i ==> bs[k].size < n
  {
    if bs == [] then 0 else if n <= bs[0].size then 0 else 1 + FirstFit(bs[1..], n)
  }

  /** Take `n` bytes from the front of block `i`. */
  function Take(bs: seq<Block>, i: nat, n: nat): seq<Block>
    requires i < |bs| && n <= bs[i].size
  {
    if bs[i].size == n then bs[..i] + bs[i + 1..]
    else bs[i := Block(bs[i].offset + n, bs[i].size - n)]
  }

  /** A run of free bytes lies inside one block, because blocks never touch. */
  lemma RunInOneBlock(bs: seq<Block>, regionSize: nat, align: nat, from: nat, n: nat) returns (j: nat)
    requires align > 0 && Canonical(bs, regionSize, align) && n > 0 && FreeRun(bs, from, n)
    ensures j < |bs| && bs[j].offset <= from && from + n <= bs[j].End()
  {
    assert Covers(bs, from);
    j :| 0 <= j < |bs| && InBlock(bs[j], from);
    EndIsNotFree(bs, regionSize, align, j);
  }

  /** The byte after a block is not free. */
  lemma EndIsNotFree(bs: seq<Block>, regionSize: nat, align: nat, j: nat)
    requires align > 0 && Canonical(bs, regionSize, align) && j < |bs|
    ensures !Covers(bs, bs[j].End())
  {
  }

  /** First fit fails only when no free run of `n` bytes exists, and otherwise finds the lowest one. */
  lemma FirstFitIsLowest(bs: seq<Block>, regionSize: nat, align: nat, n: nat)
    requires align > 0 && Canonical(bs, regionSize, align) && n > 0
    ensures var i := FirstFit(bs, n);
            if i == |bs| then forall from :: !FreeRun(bs, from, n)
            else FreeRun(bs, bs[i].offset, n) && forall from :: FreeRun(bs, from, n) ==> bs[i].offset <= from
  {
    var i := FirstFit(bs, n);
    forall from | FreeRun(bs, from, n) ensures i < |bs| && bs[i].offset <= from {
      var j := RunInOneBlock(bs, regionSize, align, from, n);
      assert i <= j;
    }
    if i < |bs| {
      forall x | bs[i].offset <= x < bs[i].offset + n ensures Covers(bs, x) {
        assert InBlock(bs[i], x);
      }
    }
  }

  lemma TakeIsCanonical(bs: seq<Block>, regionSize: nat, align: nat, i: nat, n: nat)
    requires align > 0 && Canonical(bs, regionSize, align) && i < |bs| && 0 < n <= bs[i].size && n % align == 0
    ensures Canonical(Take(bs, i, n), regionSize, align)
  {
    var ts := Take(bs, i, n);
    if bs[i].size == n {
      assert forall k :: 0 <= k < |ts| ==> ts[k] == bs[if k < i then k else k + 1];
    } else {
      SumOfMultiples(bs[i].offset, n, align);
      assert forall k :: 0 <= k < |ts| && k != i ==> ts[k] == bs[k];
      assert ts[i].End() == bs[i].End() && bs[i].offset < ts[i].offset;
    }
  }

  /** Taking keeps the list canonical and removes exactly the bytes taken. */
  lemma TakeIsExact(bs: seq<Block>, regionSize: nat, align: nat, i: nat, n: nat)
    requires align > 0 && Canonical(bs, regionSize, align) && i < |bs| && 0 < n <= bs[i].size && n % align == 0
    ensures Canonical(Take(bs, i, n), regionSize, align)
    ensures forall x :: Covers(Take(bs, i, n), x) <==> Covers(bs, x) && !InBlock(Block(bs[i].offset, n), x)
  {
    hide Covers, Take, Canonical, InBlock;
    TakeIsCanonical(bs, regionSize, align, i, n);
    forall x ensures Covers(Take(bs, i, n), x) <==> Covers(bs, x) && !InBlock(Block(bs[i].offset, n), x) {
      TakeCover(bs, regionSize, align, i, n, x);
    }
  }

  lemma TakeCover(bs: seq<Block>, regionSize: nat, align: nat, i: nat, n: nat, x: nat)
    requires align > 0 && Canonical(bs, regionSize, align) && i < |bs| && 0 < n <= bs[i].size
    ensures Covers(Take(bs, i, n), x) <==> Covers(bs, x) && !InBlock(Block(bs[i].offset, n), x)
  {
    hide BlockFits;
    var ts := Take(bs, i, n);
    if bs[i].size == n {
      TakeWholeCover(bs, i, x);
      if InBlock(bs[i], x) {
        forall k | 0 <= k < |ts| ensures !InBlock(ts[k], x) {
          assert ts[k] == bs[if k < i then k else k + 1];
        }
      }
    } else if Covers(ts, x) {
      var k :| 0 <= k < |ts| && InBlock(ts[k], x);
      assert k != i ==> ts[k] == bs[k];
      assert InBlock(bs[k], x);
    } else if Covers(bs, x) {
      var k :| 0 <= k < |bs| && InBlock(bs[k], x);
      assert !InBlock(ts[k], x);
    }
  }

  lemma TakeWholeCover(bs: seq<Block>, i: nat, x: nat)
    requires i < |bs|
    ensures Covers(bs, x) <==> Covers(bs[..i] + bs[i + 1..], x) || InBlock(bs[i], x)
  {
    var ts := bs[..i] + bs[i + 1..];
    if Covers(ts, x) {
      var k :| 0 <= k < |ts| && InBlock(ts[k], x);
      assert InBlock(bs[if k < i then k else k + 1], x);
    }
    if Covers(bs, x) {
      var k :| 0 <= k < |bs| && InBlock(bs[k], x);
      assert k != i ==> InBlock(ts[if k < i then k else k - 1], x);
    }
  }

  // ----- coalescing -----

  /** The number of leading blocks that start below `offset`. */
  function InsertPos(bs: seq<Block>, offset: nat): (i: nat)
    ensures i <= |bs|
    ensures i < |bs| ==> offset <= bs[i].offset
    ensures forall k :: 0 <= k < i ==> bs[k].offset < offset
  {
    if bs == [] then 0 else if offset <= bs[0].offset then 0 else 1 + InsertPos(bs[1..], offset)
  }

  function MergeRight(bs: seq<Block>, pos: nat): (ms: seq<Block>)
    requires pos < |bs|
    ensures pos < |ms|
  {
    if pos + 1 < |bs| && bs[pos].End() == bs[pos + 1].offset
    then bs[..pos] + [Block(bs[pos].offset, bs[pos].size + bs[pos + 1].size)] + bs[pos + 2..]
    else bs
  }

  function MergeLeft(bs: seq<Block>, pos: nat): seq<Block>
    requires pos < |bs|
  {
    if pos > 0 && bs[pos - 1].End() == bs[pos].offset
    then bs[..pos - 1] + [Block(bs[pos - 1].offset, bs[pos - 1].size + bs[pos].size)] + bs[pos + 1..]
    else bs
  }

  /** Sorted insert, then coalescing with the right and with the left neighbour. */
  function Release(bs: seq<Block>, b: Block): seq<Block> {
    var pos := InsertPos(bs, b.offset);
    MergeLeft(MergeRight(bs[..pos] + [b] + bs[pos..], pos), pos)
  }

  /** Sorted and disjoint: neighbours may touch. */
  ghost predicate Sorted(bs: seq<Block>, regionSize: nat, align: nat)
    requires align > 0
  {
    && (forall i :: 0 <= i < |bs| ==> BlockFits(bs[i], regionSize, align))
    && (forall i, j :: 0 <= i < j < |bs| ==> bs[i].End() <= bs[j].offset)
  }

  /** Two lists cover the same bytes. */
  ghost predicate SameCover(a: seq<Block>, b: seq<Block>) {
    forall x :: Covers(a, x) <==> Covers(b, x)
  }

  lemma CoverMerged(pre: seq<Block>, a: Block, b: Block, post: seq<Block>)
    requires a.End() == b.offset
    ensures SameCover(pre + [Block(a.offset, a.size + b.size)] + post, pre + [a, b] + post)
  {
    var m, s := pre + [Block(a.offset, a.size + b.size)] + post, pre + [a, b] + post;
    forall x ensures Covers(m, x) <==> Covers(s, x) {
      if Covers(m, x) {
        var k :| 0 <= k < |m| && InBlock(m[k], x);
        if k < |pre| { assert InBlock(s[k], x); }
        else if k > |pre| { assert InBlock(s[k + 1], x); }
        else { assert InBlock(s[k], x) || InBlock(s[k + 1], x); }
      }
      if Covers(s, x) {
        var k :| 0 <= k < |s| && InBlock(s[k], x);
        if k < |pre| { assert InBlock(m[k], x); }
        else if k > |pre| + 1 { assert InBlock(m[k - 1], x); }
        else { assert InBlock(m[|pre|], x); }
      }
    }
  }

  /** Blocks other than the one at `pos` never touch each other. */
  ghost predicate GapsExcept(bs: seq<Block>, pos: nat) {
    forall i, j :: 0 <= i < j < |bs| && i != pos && j != pos ==> bs[i].End() < bs[j].offset
  }

  /** No block touches its left neighbour, except perhaps the one at `pos`. */
  ghost predicate GapsExceptLeft(bs: seq<Block>, pos: nat) {
    forall i, j :: 0 <= i < j < |bs| && j != pos ==> bs[i].End() < bs[j].offset
  }

  lemma MergeRightIsExact(bs: seq<Block>, pos: nat, regionSize: nat, align: nat)
    requires align > 0 && pos < |bs| && Sorted(bs, regionSize, align) && GapsExcept(bs, pos)
    ensures pos < |MergeRight(bs, pos)| && SameCover(MergeRight(bs, pos), bs)
    ensures Sorted(MergeRight(bs, pos), regionSize, align) && GapsExceptLeft(MergeRight(bs, pos), pos)
  {
    hide SameCover, BlockFits;
    if pos + 1 < |bs| && bs[pos].End() == bs[pos + 1].offset {
      MergedAt(bs, pos, regionSize, align);
      MergedRightGaps(bs, pos);
    } else {
      SameCoverReflexive(bs);
      forall j | pos < j < |bs| ensures bs[pos].End() < bs[j].offset {
        assert bs[pos].End() < bs[pos + 1].offset;
        assert j > pos + 1 ==> bs[pos + 1].End() < bs[j].offset;
      }
    }
  }

  lemma MergedElement(bs: seq<Block>, pos: nat, k: nat)
    requires pos + 1 < |bs| && k < |bs| - 1 && bs[pos].End() == bs[pos + 1].offset
    ensures |MergeRight(bs, pos)| == |bs| - 1
    ensures MergeRight(bs, pos)[k] ==
            if k == pos then Block(bs[pos].offset, bs[pos].size + bs[pos + 1].size)
            else bs[if k < pos then k else k + 1]
  {
  }

  lemma MergedRightGaps(bs: seq<Block>, pos: nat)
    requires pos + 1 < |bs| && GapsExcept(bs, pos) && bs[pos].End() == bs[pos + 1].offset
    ensures GapsExceptLeft(MergeRight(bs, pos), pos)
  {
    hide MergeRight;
    MergedElement(bs, pos, 0);
    var ms := MergeRight(bs, pos);
    forall i, j | 0 <= i < j < |ms| && j != pos ensures ms[i].End() < ms[j].offset {
      MergedElement(bs, pos, i);
      MergedElement(bs, pos, j);
      var i', j' := if i < pos then i else i + 1, if j < pos then j else j + 1;
      assert ms[j] == bs[j'] && ms[i].End() == bs[i'].End();
    }
  }

  /** Replacing two touching neighbours by one block covers the same bytes and stays sorted. */
  lemma MergedAt(bs: seq<Block>, pos: nat, regionSize: nat, align: nat)
    requires align > 0 && pos + 1 < |bs| && Sorted(bs, regionSize, align) && bs[pos].End() == bs[pos + 1].offset
    ensures Sorted(MergeRight(bs, pos), regionSize, align) && SameCover(MergeRight(bs, pos), bs)
  {
    hide MergeRight, SameCover, BlockFits;
    MergedCover(bs, pos);
    MergedElement(bs, pos, 0);
    var ms := MergeRight(bs, pos);
    forall k | 0 <= k < |ms| ensures BlockFits(ms[k], regionSize, align) {
      MergedFits(bs, pos, regionSize, align, k);
    }
    forall i, j | 0 <= i < j < |ms| ensures ms[i].End() <= ms[j].offset {
      MergedElement(bs, pos, i);
      MergedElement(bs, pos, j);
    }
  }

  lemma MergedCover(bs: seq<Block>, pos: nat)
    requires pos + 1 < |bs| && bs[pos].End() == bs[pos + 1].offset
    ensures SameCover(MergeRight(bs, pos), bs)
  {
    hide SameCover;
    assert bs == bs[..pos] + [bs[pos], bs[pos + 1]] + bs[pos + 2..];
    CoverMerged(bs[..pos], bs[pos], bs[pos + 1], bs[pos + 2..]);
  }

  lemma MergedFits(bs: seq<Block>, pos: nat, regionSize: nat, align: nat, k: nat)
    requires align > 0 && pos + 1 < |bs| && Sorted(bs, regionSize, align) && bs[pos].End() == bs[pos + 1].offset
    requires k < |MergeRight(bs, pos)|
    ensures BlockFits(MergeRight(bs, pos)[k], regionSize, align)
  {
    hide MergeRight;
    MergedElement(bs, pos, 0);
    MergedElement(bs, pos, k);
    assert BlockFits(bs[k], regionSize, align) && BlockFits(bs[k + 1], regionSize, align);
  }

  lemma MergeLeftIsExact(bs: seq<Block>, pos: nat, regionSize: nat, align: nat)
    requires align > 0 && pos < |bs| && Sorted(bs, regionSize, align) && GapsExceptLeft(bs, pos)
    ensures Canonical(MergeLeft(bs, pos), regionSize, align) && SameCover(MergeLeft(bs, pos), bs)
  {
    hide SameCover, BlockFits;
    if pos > 0 && bs[pos - 1].End() == bs[pos].offset {
      MergedAt(bs, pos - 1, regionSize, align);
      MergedGaps(bs, pos);
    } else {
      SameCoverReflexive(bs);
      forall i | 0 <= i < pos ensures bs[i].End() < bs[pos].offset {
        assert i < pos - 1 ==> bs[i].End() < bs[pos - 1].offset;
      }
    }
  }

  lemma SameCoverReflexive(bs: seq<Block>)
    ensures SameCover(bs, bs)
  {
  }

  lemma MergedGaps(bs: seq<Block>, pos: nat)
    requires 0 < pos < |bs| && GapsExceptLeft(bs, pos) && bs[pos - 1].End() == bs[pos].offset
    ensures var ms := MergeRight(bs, pos - 1); forall i, j :: 0 <= i < j < |ms| ==> ms[i].End() < ms[j].offset
  {
    hide MergeRight;
    MergedElement(bs, pos - 1, 0);
    var ms := MergeRight(bs, pos - 1);
    forall i, j | 0 <= i < j < |ms| ensures ms[i].End() < ms[j].offset {
      MergedElement(bs, pos - 1, i);
      MergedElement(bs, pos - 1, j);
      var i', j' := if i < pos - 1 then i else i + 1, if j < pos then j else j + 1;
      assert ms[i].End() == bs[i'].End() && ms[j].offset == bs[j'].offset;
    }
  }

  /** A block none of whose bytes is free lies between its neighbours. */
  lemma InsertPosSplits(bs: seq<Block>, b: Block, regionSize: nat, align: nat)
    requires align > 0 && Canonical(bs, regionSize, align) && b.size > 0
    requires forall x :: InBlock(b, x) ==> !Covers(bs, x)
    ensures forall k :: 0 <= k < |bs| ==>
              if k < InsertPos(bs, b.offset) then bs[k].End() <= b.offset else b.End() <= bs[k].offset
  {
    forall k | 0 <= k < |bs|
      ensures if k < InsertPos(bs, b.offset) then bs[k].End() <= b.offset else b.End() <= bs[k].offset
    {
      assert Covers(bs, bs[k].offset) by { assert InBlock(bs[k], bs[k].offset); }
      assert !InBlock(bs[k], b.offset) by { assert InBlock(b, b.offset); }
      if k >= InsertPos(bs, b.offset) {
        assert bs[InsertPos(bs, b.offset)].offset <= bs[k].offset;
      }
    }
  }

  lemma InsertIsSorted(bs: seq<Block>, b: Block, pos: nat, regionSize: nat, align: nat)
    requires align > 0 && Canonical(bs, regionSize, align) && BlockFits(b, regionSize, align) && pos <= |bs|
    requires forall k :: 0 <= k < |bs| ==> if k < pos then bs[k].End() <= b.offset else b.End() <= bs[k].offset
    ensures Sorted(bs[..pos] + [b] + bs[pos..], regionSize, align)
    ensures GapsExcept(bs[..pos] + [b] + bs[pos..], pos)
  {
    var ins := bs[..pos] + [b] + bs[pos..];
    forall k | 0 <= k < |ins| ensures BlockFits(ins[k], regionSize, align) {
      assert ins[k] == if k < pos then bs[k] else if k == pos then b else bs[k - 1];
    }
    forall i, j | 0 <= i < j < |ins|
      ensures ins[i].End() <= ins[j].offset && (i != pos && j != pos ==> ins[i].End() < ins[j].offset)
    {
      assert ins[i] == if i < pos then bs[i] else if i == pos then b else bs[i - 1];
      assert ins[j] == if j < pos then bs[j] else if j == pos then b else bs[j - 1];
    }
  }

  lemma InsertCover(bs: seq<Block>, b: Block, pos: nat)
    requires pos <= |bs|
    ensures forall x :: Covers(bs[..pos] + [b] + bs[pos..], x) <==> Covers(bs, x) || InBlock(b, x)
  {
    var ins := bs[..pos] + [b] + bs[pos..];
    assert ins[pos] == b;
    forall x ensures Covers(ins, x) <==> Covers(bs, x) || InBlock(b, x) {
      if Covers(bs, x) {
        var k :| 0 <= k < |bs| && InBlock(bs[k], x);
        assert InBlock(ins[if k < pos then k else k + 1], x);
      }
      if Covers(ins, x) {
        var k :| 0 <= k < |ins| && InBlock(ins[k], x);
        assert k != pos ==> InBlock(bs[if k < pos then k else k - 1], x);
      }
    }
  }

  /** Releasing a block none of whose bytes is free keeps the list canonical and adds exactly its bytes. */
  lemma ReleaseIsExact(bs: seq<Block>, b: Block, regionSize: nat, align: nat)
    requires align > 0 && Canonical(bs, regionSize, align) && BlockFits(b, regionSize, align)
    requires forall x :: InBlock(b, x) ==> !Covers(bs, x)
    ensures Canonical(Release(bs, b), regionSize, align)
    ensures forall x :: Covers(Release(bs, b), x) <==> Covers(bs, x) || InBlock(b, x)
  {
    var pos := InsertPos(bs, b.offset);
    var ins := bs[..pos] + [b] + bs[pos..];
    InsertPosSplits(bs, b, regionSize, align);
    InsertIsSorted(bs, b, pos, regionSize, align);
    InsertCover(bs, b, pos);
    hide Sorted, Canonical, GapsExcept, GapsExceptLeft, Covers;
    MergeRightIsExact(ins, pos, regionSize, align);
    MergeLeftIsExact(MergeRight(ins, pos), pos, regionSize, align);
  }

  // ----- the canonical form is unique -----

  lemma FirstBlockSame(a: seq<Block>, b: seq<Block>, regionSize: nat, align: nat)
    requires align > 0 && Canonical(a, regionSize, align) && Canonical(b, regionSize, align) && SameCover(a, b)
    requires a != []
    ensures b != [] && b[0].offset <= a[0].offset && (b[0].offset == a[0].offset ==> b[0].End() <= a[0].End())
  {
    assert InBlock(a[0], a[0].offset);
    assert Covers(a, a[0].offset);
    var k :| 0 <= k < |b| && InBlock(b[k], a[0].offset);
    assert k > 0 ==> b[0].End() < b[k].offset;
    EndIsNotFree(a, regionSize, align, 0);
    assert !InBlock(b[0], a[0].End());
  }

  lemma TailCover(a: seq<Block>, regionSize: nat, align: nat, x: nat)
    requires align > 0 && Canonical(a, regionSize, align) && a != []
    ensures Covers(a[1..], x) <==> Covers(a, x) && !InBlock(a[0], x)
  {
    if Covers(a[1..], x) {
      var k :| 0 <= k < |a[1..]| && InBlock(a[1..][k], x);
      assert InBlock(a[k + 1], x) && a[0].End() < a[k + 1].offset;
    }
    if Covers(a, x) && !InBlock(a[0], x) {
      var k :| 0 <= k < |a| && InBlock(a[k], x);
      assert InBlock(a[1..][k - 1], x);
    }
  }

  /** Two canonical lists that cover the same bytes are the same list. */
  lemma {:induction false} CanonicalIsUnique(a: seq<Block>, b: seq<Block>, regionSize: nat, align: nat)
    requires align > 0 && Canonical(a, regionSize, align) && Canonical(b, regionSize, align) && SameCover(a, b)
    ensures a == b
  {
    if a == [] {
      if b != [] { FirstBlockSame(b, a, regionSize, align); }
    } else {
      FirstBlockSame(a, b, regionSize, align);
      FirstBlockSame(b, a, regionSize, align);
      assert a[0] == b[0];
      forall x ensures Covers(a[1..], x) <==> Covers(b[1..], x) {
        TailCover(a, regionSize, align, x);
        TailCover(b, regionSize, align, x);
      }
      CanonicalIsUnique(a[1..], b[1..], regionSize, align);
    }
  }
}
