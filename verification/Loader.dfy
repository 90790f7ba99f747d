/** Staging an executable's image (lib/loader.cpp:70-161, lib/detail/elf.cpp:262-293): the extent of its segments, the
    copies, and the search for its relocation table. */
module Loader {
  import opened Arith
  import opened Bytes
  import opened Relocation
  import opened Util

  const PT_LOAD: nat := 1
  const PT_DYNAMIC: nat := 2
  const DT_NULL: nat := 0
  const DT_RELA: nat := 7
  const DT_RELASZ: nat := 8

  datatype Phdr = Phdr(kind: nat, offset: Word64, vaddr: Word64, filesz: Word64, memsz: Word64, align: Word64)

  predicate IsLoad(ph: seq<Phdr>, i: nat) { i < |ph| && ph[i].kind == PT_LOAD }

  // ----- the extent of the segments -----

  datatype Extent = Extent(lo: Word64, hi: Word64, align: Word64)

  /** Segment `i` ends past the 64-bit address space. */
  predicate Overflows(ph: seq<Phdr>, i: nat) { IsLoad(ph, i) && ph[i].memsz > TWO64 - 1 - ph[i].vaddr }

  /** `e` is the tightest range that holds the first `n` loadable segments, with their largest alignment. */
  ghost predicate Spans(ph: seq<Phdr>, n: nat, e: Extent)
    requires n <= |ph|
  {
    && (forall i: nat :: i < n && IsLoad(ph, i) ==>
          e.lo <= ph[i].vaddr && ph[i].vaddr + ph[i].memsz <= e.hi && ph[i].align <= e.align)
    && (e.lo == TWO64 - 1 || exists i: nat :: i < n && IsLoad(ph, i) && ph[i].vaddr == e.lo)
    && (e.hi == 0 || exists i: nat :: i < n && IsLoad(ph, i) && ph[i].vaddr + ph[i].memsz == e.hi)
    && e.align > 0 && (e.align == 1 || exists i: nat :: i < n && IsLoad(ph, i) && ph[i].align == e.align)
  }

  method LoadExtent(ph: seq<Phdr>) returns (r: Result<Extent>)
    ensures r == Err(ERANGE) <==> exists i: nat :: Overflows(ph, i)
    ensures r.Ok? ==> Spans(ph, |ph|, r.value) && r.value.lo < r.value.hi
    ensures r.Err? && r.error != ERANGE ==>
      r.error == ENOEXEC && exists e: Extent :: Spans(ph, |ph|, e) && e.lo >= e.hi
  {
    var lo: Word64, hi: Word64, maxAlign: Word64 := TWO64 - 1, 0, 1;
    for i := 0 to |ph|
      invariant Spans(ph, i, Extent(lo, hi, maxAlign))
      invariant forall j: nat :: j < i ==> !Overflows(ph, j)
    {
      if ph[i].kind == PT_LOAD {
        assert IsLoad(ph, i);
        lo := Min(lo, ph[i].vaddr);
        if ph[i].memsz > TWO64 - 1 - ph[i].vaddr {
          assert Overflows(ph, i);
          return Err(ERANGE);
        }
        hi := Max(hi, ph[i].vaddr + ph[i].memsz);
        maxAlign := Max(maxAlign, ph[i].align);
      }
    }
    if lo >= hi {
      assert Spans(ph, |ph|, Extent(lo, hi, maxAlign));
      return Err(ENOEXEC);
    }
    return Ok(Extent(lo, hi, maxAlign));
  }

  // ----- the copies -----

  /** The file range of a segment, if the file reaches that far. */
  predicate InFile(p: Phdr, file: seq<Byte>) { p.filesz <= |file| && p.offset <= |file| - p.filesz }

  predicate Copies(p: Phdr) { p.kind == PT_LOAD && p.filesz != 0 }

  /** Byte `k` of the image lies in segment `i`'s file bytes. */
  predicate FromSegment(ph: seq<Phdr>, lo: nat, i: nat, k: nat) {
    i < |ph| && Copies(ph[i]) && lo <= ph[i].vaddr && ph[i].vaddr - lo <= k < ph[i].vaddr - lo + ph[i].filesz
  }

  /** Byte `k` after the first `n` segments: the last that covers it says, and zero when none does. */
  function StagedByte(ph: seq<Phdr>, file: seq<Byte>, lo: nat, n: nat, k: nat): Byte
    requires n <= |ph| && forall i: nat :: i < n && Copies(ph[i]) ==> InFile(ph[i], file)
  {
    if n == 0 then 0
    else if FromSegment(ph, lo, n - 1, k) then
      assert InFile(ph[n - 1], file);
      file[ph[n - 1].offset + (k - (ph[n - 1].vaddr - lo))]
    else StagedByte(ph, file, lo, n - 1, k)
  }

  /** Segment `i` cannot be staged: its file bytes are missing, or reach past the image. */
  predicate Unstageable(ph: seq<Phdr>, file: seq<Byte>, lo: nat, size: nat, i: nat) {
    i < |ph| && Copies(ph[i]) && lo <= ph[i].vaddr &&
    (!InFile(ph[i], file) || ph[i].vaddr - lo + ph[i].filesz > size)
  }

  method CopySegments(staging: array<Byte>, ph: seq<Phdr>, file: seq<Byte>, lo: nat) returns (r: Result<()>)
    requires forall k :: 0 <= k < staging.Length ==> staging[k] == 0
    requires forall i: nat :: i < |ph| && Copies(ph[i]) ==> lo <= ph[i].vaddr <= lo + staging.Length
    requires staging.Length < TWO32 && |file| < TWO64 - TWO32
    modifies staging
    ensures r == Err(ERANGE) || r == Ok(())
    ensures r.Err? <==> exists i: nat :: Unstageable(ph, file, lo, staging.Length, i)
    ensures r.Ok? ==> (forall i: nat :: i < |ph| && Copies(ph[i]) ==> InFile(ph[i], file)) &&
                      forall k :: 0 <= k < staging.Length ==> staging[k] == StagedByte(ph, file, lo, |ph|, k)
  {
    for i := 0 to |ph|
      invariant forall j: nat :: j < i ==> !Unstageable(ph, file, lo, staging.Length, j)
      invariant forall j: nat :: j < i && Copies(ph[j]) ==> InFile(ph[j], file)
      invariant forall k :: 0 <= k < staging.Length ==> staging[k] == StagedByte(ph, file, lo, i, k)
    {
      var p := ph[i];
      if p.kind != PT_LOAD || p.filesz == 0 {
        continue;
      }
      if p.filesz > |file| || p.offset > |file| - p.filesz {
        assert Unstageable(ph, file, lo, staging.Length, i);
        return Err(ERANGE);
      }
      var offset := p.vaddr - lo;
      if (offset + p.filesz) % TWO64 > staging.Length {
        assert Unstageable(ph, file, lo, staging.Length, i);
        return Err(ERANGE);
      }
      ghost var before := staging[..];
      for k := 0 to p.filesz
        invariant forall j :: 0 <= j < staging.Length ==>
          staging[j] == if offset <= j < offset + k then file[p.offset + (j - offset)] else before[j]
      {
        staging[offset + k] := file[p.offset + k];
      }
      forall k | 0 <= k < staging.Length ensures staging[k] == StagedByte(ph, file, lo, i + 1, k) {
        assert before[k] == StagedByte(ph, file, lo, i, k);
      }
    }
    return Ok(());
  }

  // ----- the relocation table -----

  /** A dynamic section is pairs of 64-bit numbers, tag and value. */
  function DynCount(data: seq<Byte>): nat { |data| / 16 }

  function Tag(data: seq<Byte>, i: nat): nat requires i < DynCount(data) { U64(data, 16 * i) }

  function DynValue(data: seq<Byte>, i: nat): nat requires i < DynCount(data) { U64(data, 16 * i + 8) }

  /** Where the section ends: at its first DT_NULL, or with its bytes. */
  function DynEnd(data: seq<Byte>, from: nat): (n: nat)
    requires from <= DynCount(data)
    ensures from <= n <= DynCount(data) && (n < DynCount(data) ==> Tag(data, n) == DT_NULL)
    ensures forall i :: from <= i < n ==> Tag(data, i) != DT_NULL
    decreases DynCount(data) - from
  {
    if from == DynCount(data) || Tag(data, from) == DT_NULL then from else DynEnd(data, from + 1)
  }

  /** The value of the last of the first `n` pairs that has the tag; 0 when none has. */
  function LastValue(data: seq<Byte>, n: nat, tag: nat): nat
    requires n <= DynCount(data)
  {
    if n == 0 then 0 else if Tag(data, n - 1) == tag then DynValue(data, n - 1) else LastValue(data, n - 1, tag)
  }

  // ----- the same in the section's 64-bit numbers -----

  /** Pair `k` comes before the first pair whose tag is 0. */
  ghost predicate Live(data: seq<Byte>, k: nat) {
    16 * k + 16 <= |data| && forall j: nat :: j <= k ==> U64(data, 16 * j) != 0
  }

  ghost predicate Tagged(data: seq<Byte>, k: nat, tag: nat) { Live(data, k) && U64(data, 16 * k) == tag }

  /** The section gives a tag this value: that of the last such pair, or 0 without one. */
  ghost predicate Says(data: seq<Byte>, tag: nat, v: nat) {
    if exists k: nat :: Tagged(data, k, tag) then
      exists k: nat :: Tagged(data, k, tag) && v == U64(data, 16 * k + 8) &&
        forall j: nat :: Tagged(data, j, tag) ==> j <= k
    else v == 0
  }

  lemma LiveIff(data: seq<Byte>, k: nat)
    ensures Live(data, k) <==> k < DynEnd(data, 0)
  {
    hide U64;
    var n := DynEnd(data, 0);
    if n < DynCount(data) {
      assert Tag(data, n) == DT_NULL && U64(data, 16 * n) == 0;
    }
    forall j: nat | j <= k < n ensures U64(data, 16 * j) != 0 {
      assert Tag(data, j) != DT_NULL;
    }
  }

  lemma {:induction false} LastValueIs(data: seq<Byte>, n: nat, tag: nat) returns (k: nat)
    requires n <= DynCount(data)
    ensures k <= n && forall j: nat :: k < j < n ==> U64(data, 16 * j) != tag
    ensures if k < n then U64(data, 16 * k) == tag && LastValue(data, n, tag) == U64(data, 16 * k + 8)
            else LastValue(data, n, tag) == 0 && forall j: nat :: j < n ==> U64(data, 16 * j) != tag
  {
    hide U64;
    if n == 0 {
      k := 0;
    } else if Tag(data, n - 1) == tag {
      k := n - 1;
    } else {
      k := LastValueIs(data, n - 1, tag);
      k := if k == n - 1 then n else k;
    }
  }

  lemma LastValueSays(data: seq<Byte>, tag: nat)
    ensures Says(data, tag, LastValue(data, DynEnd(data, 0), tag))
  {
    hide U64, Live;
    var n := DynEnd(data, 0);
    forall j: nat ensures Live(data, j) <==> j < n {
      LiveIff(data, j);
    }
    var k := LastValueIs(data, n, tag);
    assert k < n ==> Tagged(data, k, tag);
  }

  method FindRela(data: seq<Byte>) returns (ptr: nat, size: nat)
    ensures Says(data, 7, ptr) && Says(data, 8, size)
    ensures ptr == LastValue(data, DynEnd(data, 0), DT_RELA) && size == LastValue(data, DynEnd(data, 0), DT_RELASZ)
  {
    hide U64, Says;
    LastValueSays(data, 7);
    LastValueSays(data, 8);
    ptr, size := 0, 0;
    var i := 0;
    while i < |data| / 16
      invariant i <= DynEnd(data, 0)
      invariant ptr == LastValue(data, i, DT_RELA) && size == LastValue(data, i, DT_RELASZ)
    {
      if Tag(data, i) == DT_NULL {
        break;
      }
      if Tag(data, i) == DT_RELA {
        ptr := DynValue(data, i);
      } else if Tag(data, i) == DT_RELASZ {
        size := DynValue(data, i);
      }
      i := i + 1;
    }
    assert i == DynEnd(data, 0);
  }

  /** The first dynamic segment from `i` on, or the number of segments. */
  function FirstDynamic(ph: seq<Phdr>, i: nat): (n: nat)
    requires i <= |ph|
    ensures i <= n <= |ph| && (n < |ph| ==> ph[n].kind == PT_DYNAMIC)
    ensures forall j :: i <= j < n ==> ph[j].kind != PT_DYNAMIC
    decreases |ph| - i
  {
    if i == |ph| || ph[i].kind == PT_DYNAMIC then i else FirstDynamic(ph, i + 1)
  }

  /** What the dynamic segment says: nothing to apply, a table, or bytes that are not there. */
  datatype Table = Missing | NoTable | TableAt(ptr: nat, size: nat)

  function TableOf(ph: seq<Phdr>, file: seq<Byte>): Table {
    var i := FirstDynamic(ph, 0);
    if i == |ph| then NoTable
    else if !InFile(ph[i], file) then Missing
    else
      var data := file[ph[i].offset..ph[i].offset + ph[i].filesz];
      var ptr, size := LastValue(data, DynEnd(data, 0), DT_RELA), LastValue(data, DynEnd(data, 0), DT_RELASZ);
      if ptr == 0 || size == 0 then NoTable else TableAt(ptr, size)
  }

  /** Header `i` is the first of type PT_DYNAMIC. */
  predicate IsDynamic(ph: seq<Phdr>, i: nat) {
    i < |ph| && ph[i].kind == 2 && forall j :: 0 <= j < i ==> ph[j].kind != 2
  }

  /** The bytes of a header's segment. */
  function Segment(p: Phdr, file: seq<Byte>): seq<Byte>
    requires p.offset + p.filesz <= |file|
  {
    file[p.offset..p.offset + p.filesz]
  }

  /** What the first dynamic segment's 64-bit numbers say of the table. */
  lemma TableSays(ph: seq<Phdr>, file: seq<Byte>)
    ensures match TableOf(ph, file)
      case Missing => exists i: nat :: IsDynamic(ph, i) && |file| < ph[i].offset + ph[i].filesz
      case TableAt(ptr, size) =>
        ptr != 0 && size != 0 &&
        exists i: nat :: (IsDynamic(ph, i) && ph[i].offset + ph[i].filesz <= |file| &&
                          Says(Segment(ph[i], file), 7, ptr) && Says(Segment(ph[i], file), 8, size))
      case NoTable =>
        forall i: nat :: IsDynamic(ph, i) ==>
          (ph[i].offset + ph[i].filesz <= |file| &&
           (Says(Segment(ph[i], file), 7, 0) || Says(Segment(ph[i], file), 8, 0)))
  {
    hide U64, Says, LastValue, DynEnd;
    var i := FirstDynamic(ph, 0);
    if i < |ph| && InFile(ph[i], file) {
      assert IsDynamic(ph, i) && forall j: nat :: IsDynamic(ph, j) ==> j == i;
      LastValueSays(Segment(ph[i], file), 7);
      LastValueSays(Segment(ph[i], file), 8);
    }
    assert i < |ph| ==> IsDynamic(ph, i);
  }

  /** The table lies inside the image. */
  predicate TableFits(t: Table, lo: nat, size: nat) {
    t.NoTable? || (t.TableAt? && lo <= t.ptr && t.ptr - lo <= size && t.size <= size - (t.ptr - lo))
  }

  // ----- the whole load -----

  function Footprint(e: Extent, pageSize: nat): nat
    requires e.lo < e.hi && pageSize > 0
  {
    Round(e.hi - e.lo, Max(e.align, pageSize))
  }

  /** The image holds all segments and is whole pages, aligned as the strictest segment asks; a size that would wrap
      2^64 becomes zero, which is refused. */
  lemma FootprintCovers(e: Extent, pageSize: nat)
    requires e.lo < e.hi && PowerOfTwo(pageSize) && PowerOfTwo(e.align) && pageSize < TWO64
    ensures var size := Footprint(e, pageSize);
      size == 0 || (e.hi - e.lo <= size && size % pageSize == 0 && size % e.align == 0)
    ensures e.hi - e.lo + Max(e.align, pageSize) <= TWO64 ==> 0 < Footprint(e, pageSize)
  {
    hide Round, PowerOfTwo;
    var a := Max(e.align, pageSize);
    PowerDivides(pageSize, a);
    PowerDivides(e.align, a);
    RoundCoversIff(e.hi - e.lo, a);
    if Footprint(e, pageSize) > 0 {
      ModMod(Footprint(e, pageSize), a, pageSize);
      ModMod(Footprint(e, pageSize), a, e.align);
    }
  }

  function Staged(ph: seq<Phdr>, file: seq<Byte>, lo: nat, size: nat): (img: seq<Byte>)
    requires forall i: nat :: i < |ph| && Copies(ph[i]) ==> InFile(ph[i], file)
    ensures |img| == size && forall k :: 0 <= k < size ==> img[k] == StagedByte(ph, file, lo, |ph|, k)
  {
    seq(size, k requires 0 <= k < size => StagedByte(ph, file, lo, |ph|, k))
  }

  /** The image with its table, if it has one, applied for `base`. */
  function Applied(img: seq<Byte>, t: Table, lo: nat, base: nat): Option<seq<Byte>>
    requires TableFits(t, lo, |img|)
  {
    if t.NoTable? then Some(img) else Relocate(img, t.ptr - lo, t.size / ENTRY, lo, (base - lo) % TWO64)
  }

  /** Why a load fails, in the order the source finds out; None when it does not. */
  ghost function Verdict(ph: seq<Phdr>, file: seq<Byte>, e: Extent, pageSize: nat): Option<Errno>
    requires pageSize > 0
  {
    if exists i: nat :: Overflows(ph, i) then Some(ERANGE)
    else if e.lo >= e.hi then Some(ENOEXEC)
    else
      var size := Footprint(e, pageSize);
      if size >= TWO32 then Some(EFBIG)
      else if size == 0 then Some(EINVAL)
      else if exists i: nat :: Unstageable(ph, file, e.lo, size, i) then Some(ERANGE)
      else if !TableFits(TableOf(ph, file), e.lo, size) then Some(ERANGE)
      else None
  }

  /** Every segment copied is in the file, and the table in the image. */
  ghost predicate StagesWell(ph: seq<Phdr>, file: seq<Byte>, e: Extent, pageSize: nat)
    requires pageSize > 0
  {
    && e.lo < e.hi
    && (forall i: nat :: i < |ph| && Copies(ph[i]) ==> InFile(ph[i], file))
    && TableFits(TableOf(ph, file), e.lo, Footprint(e, pageSize))
  }

  /** The image a load leaves: zeros under the segments' bytes, its relocations applied for `base`; nothing when the
      bound check on a relocation offset wraps. */
  ghost function Image(ph: seq<Phdr>, file: seq<Byte>, e: Extent, pageSize: nat, base: nat): Option<seq<Byte>>
    requires pageSize > 0 && StagesWell(ph, file, e, pageSize)
  {
    Applied(Staged(ph, file, e.lo, Footprint(e, pageSize)), TableOf(ph, file), e.lo, base)
  }

  lemma SegmentsStart(ph: seq<Phdr>, e: Extent, pageSize: nat)
    requires 0 < pageSize < TWO64 && Spans(ph, |ph|, e) && e.lo < e.hi && 0 < Footprint(e, pageSize)
    ensures forall i: nat :: i < |ph| && Copies(ph[i]) ==> e.lo <= ph[i].vaddr <= e.lo + Footprint(e, pageSize)
  {
    hide Round;
    RoundCoversIff(e.hi - e.lo, Max(e.align, pageSize));
    forall i: nat | i < |ph| && Copies(ph[i]) ensures e.lo <= ph[i].vaddr <= e.lo + Footprint(e, pageSize) {
      assert IsLoad(ph, i);
    }
  }

  /** There is one tightest range. */
  lemma SpansUnique(ph: seq<Phdr>, n: nat, e: Extent, e': Extent)
    requires n <= |ph| && Spans(ph, n, e) && Spans(ph, n, e')
    ensures e == e'
  {
    hide IsLoad;
    if e.lo != TWO64 - 1 {
      var i: nat :| i < n && IsLoad(ph, i) && ph[i].vaddr == e.lo;
    }
    if e'.lo != TWO64 - 1 {
      var i: nat :| i < n && IsLoad(ph, i) && ph[i].vaddr == e'.lo;
    }
  }

  /** How a load ends: with an image and the extent it was staged for, with an error, or at a relocation entry whose
      copy leaves the image. */
  datatype Outcome = Ready(img: array<Byte>, extent: Extent) | Failed(error: Errno) | Outside(entry: nat)

  /** Alignments are powers of two, or absent. */
  predicate Aligned(ph: seq<Phdr>, pageSize: nat) {
    PowerOfTwo(pageSize) && forall i: nat :: i < |ph| && IsLoad(ph, i) ==> ph[i].align == 0 || PowerOfTwo(ph[i].align)
  }

  /** Stage the image for `base`. */
  method Load(ph: seq<Phdr>, file: seq<Byte>, pageSize: nat, base: nat) returns (r: Outcome)
    requires 0 < pageSize < TWO64 && |file| < TWO64 - TWO32 && Aligned(ph, pageSize)
    ensures r.Ready? ==> Spans(ph, |ph|, r.extent) && Verdict(ph, file, r.extent, pageSize).None?
    ensures r.Ready? ==> StagesWell(ph, file, r.extent, pageSize) &&
                         Some(r.img[..]) == Image(ph, file, r.extent, pageSize, base)
    ensures r.Failed? ==> forall e: Extent :: Spans(ph, |ph|, e) ==> Verdict(ph, file, e, pageSize) == Some(r.error)
    ensures r.Outside? ==> forall e: Extent :: Spans(ph, |ph|, e) ==>
              Verdict(ph, file, e, pageSize).None? && StagesWell(ph, file, e, pageSize) &&
              Image(ph, file, e, pageSize, base).None?
  {
    hide Spans, Round, TableOf, Relocate, StagedByte, Aligned;
    var extent := LoadExtent(ph);
    OneVerdict(ph);
    if extent.Err? {
      return Failed(extent.error);
    }
    var e := extent.value;
    var size := Round(e.hi - e.lo, Max(e.align, pageSize));
    if size > TWO32 - 1 {
      return Failed(EFBIG);
    }
    // a mapping of no bytes is refused
    if size == 0 {
      return Failed(EINVAL);
    }
    SegmentsStart(ph, e, pageSize);
    var staging := new Byte[size](_ => 0);
    var copied := CopySegments(staging, ph, file, e.lo);
    if copied.Err? {
      return Failed(copied.error);
    }
    assert staging[..] == Staged(ph, file, e.lo, size);
    var applied := ApplyTable(staging, ph, file, e.lo, base);
    match applied
    case Ok(None) => return Ready(staging, e);
    case Ok(Some(i)) => return Outside(i);
    case Err(error) => return Failed(error);
  }

  lemma OneVerdict(ph: seq<Phdr>)
    ensures forall e: Extent, e': Extent :: Spans(ph, |ph|, e) && Spans(ph, |ph|, e') ==> e == e'
  {
    forall e: Extent, e': Extent | Spans(ph, |ph|, e) && Spans(ph, |ph|, e') ensures e == e' {
      SpansUnique(ph, |ph|, e, e');
    }
  }

  /** Find the table of the first dynamic segment and apply it; the answer is an entry whose copy leaves the image. */
  method ApplyTable(staging: array<Byte>, ph: seq<Phdr>, file: seq<Byte>, lo: nat, base: nat)
    returns (r: Result<Option<nat>>)
    requires staging.Length < TWO32
    modifies staging
    ensures r.Ok? <==> TableFits(TableOf(ph, file), lo, staging.Length)
    ensures r.Err? ==> r.error == ERANGE
    ensures r.Ok? && r.value.None? ==> Some(staging[..]) == Applied(old(staging[..]), TableOf(ph, file), lo, base)
    ensures r.Ok? && r.value.Some? ==> Applied(old(staging[..]), TableOf(ph, file), lo, base).None?
  {
    hide Relocate, LastValue, DynEnd, Says;
    var size := staging.Length;
    for i := 0 to |ph|
      invariant FirstDynamic(ph, 0) >= i
      invariant staging[..] == old(staging[..])
    {
      if ph[i].kind != PT_DYNAMIC {
        continue;
      }
      assert FirstDynamic(ph, 0) == i;
      if ph[i].filesz > |file| || ph[i].offset > |file| - ph[i].filesz {
        return Err(ERANGE);
      }
      var relaPtr, relaSize := FindRela(file[ph[i].offset..ph[i].offset + ph[i].filesz]);
      if relaPtr != 0 && relaSize != 0 {
        if relaPtr < lo || relaPtr - lo > size || relaSize > size - (relaPtr - lo) {
          return Err(ERANGE);
        }
        var outside := ApplyRelocations(staging, relaPtr - lo, relaSize / ENTRY, lo, (base - lo) % TWO64);
        return Ok(outside);
      }
      return Ok(None);
    }
    return Ok(None);
  }

  // ----- what a loaded image is -----

  /** The table's entries, as a count; none without a table. */
  function Entries(t: Table): nat { if t.TableAt? then t.size / ENTRY else 0 }

  function TableStart(t: Table, lo: nat): nat { if t.TableAt? && lo <= t.ptr then t.ptr - lo else 0 }

  /** The table's slots keep apart in the staged image. */
  ghost predicate Tidy(ph: seq<Phdr>, file: seq<Byte>, e: Extent, pageSize: nat)
    requires pageSize > 0 && StagesWell(ph, file, e, pageSize)
  {
    var t := TableOf(ph, file);
    Apart(Staged(ph, file, e.lo, Footprint(e, pageSize)), TableStart(t, e.lo), Entries(t), e.lo)
  }

  /** With the table out of every slot's way, a load stays inside the image exactly when no entry of the staged image
      wraps. */
  lemma LoadsInsideIff(ph: seq<Phdr>, file: seq<Byte>, e: Extent, pageSize: nat, base: nat)
    requires pageSize > 0 && StagesWell(ph, file, e, pageSize)
    requires var t := TableOf(ph, file);
      OffTable(Staged(ph, file, e.lo, Footprint(e, pageSize)), TableStart(t, e.lo), Entries(t), e.lo)
    ensures var t := TableOf(ph, file);
      Image(ph, file, e, pageSize, base).Some? <==>
      NoneWraps(Staged(ph, file, e.lo, Footprint(e, pageSize)), TableStart(t, e.lo), Entries(t), e.lo)
  {
    hide Round, TableOf, EntryAt, Relocate, OffTable, StagedByte, Wraps;
    var t := TableOf(ph, file);
    if t.TableAt? {
      StaysInsideIff(Staged(ph, file, e.lo, Footprint(e, pageSize)), t.ptr - e.lo, Entries(t), e.lo,
                     (base - e.lo) % TWO64);
    }
  }

  /** A tidy image loads at every base. Byte by byte it is the last segment's file byte, or zero, outside the slots, and
      the rebased value inside; two bases give images that differ in the slots alone, each by the difference of the
      bases. */
  lemma LoadedImage(ph: seq<Phdr>, file: seq<Byte>, e: Extent, pageSize: nat, base: nat, base': nat, k: nat)
    requires pageSize > 0 && StagesWell(ph, file, e, pageSize) && Tidy(ph, file, e, pageSize)
    requires k < Footprint(e, pageSize)
    ensures Image(ph, file, e, pageSize, base).Some? && Image(ph, file, e, pageSize, base').Some?
    ensures var t := TableOf(ph, file);
      var img := Staged(ph, file, e.lo, Footprint(e, pageSize));
      var a, b := Image(ph, file, e, pageSize, base).value, Image(ph, file, e, pageSize, base').value;
      && |a| == |b| == |img|
      && Rebased(img, a, TableStart(t, e.lo), Entries(t), e.lo, (base - e.lo) % TWO64, k)
      && ((forall i: nat :: i < Entries(t) ==> !InSlot(img, TableStart(t, e.lo), e.lo, i, k)) ==>
            a[k] == b[k] == StagedByte(ph, file, e.lo, |ph|, k))
      && (forall i: nat :: i < Entries(t) && Active(EntryAt(img, TableStart(t, e.lo), i), e.lo, |img|) ==>
            var off := EntryAt(img, TableStart(t, e.lo), i).offset - e.lo;
            (U64(b, off) - U64(a, off)) % TWO64 == (base' - base) % TWO64)
  {
    hide Round, Footprint, TableOf, EntryAt, U64, Relocate, Apart, InSlot, StagedByte, Active, Target, ToBytes;
    var t := TableOf(ph, file);
    var img := Staged(ph, file, e.lo, Footprint(e, pageSize));
    if t.TableAt? {
      RelocateIsRebase(img, t.ptr - e.lo, Entries(t), Entries(t), e.lo, (base - e.lo) % TWO64);
      RelocateIsRebase(img, t.ptr - e.lo, Entries(t), Entries(t), e.lo, (base' - e.lo) % TWO64);
      LoadIsPureRebase(img, t.ptr - e.lo, Entries(t), e.lo, base, base');
      var b := Image(ph, file, e, pageSize, base').value;
      assert Rebased(img, b, t.ptr - e.lo, Entries(t), e.lo, (base' - e.lo) % TWO64, k);
    }
  }
}
