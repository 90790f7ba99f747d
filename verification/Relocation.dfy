/** Applying the relocation table of a staged image in place (lib/loader.cpp:110-161), and what the loop leaves: the
    image rebased, slot by slot. */
module Relocation {
  import opened Arith
  import opened Bytes
  import opened Util

  const RELATIVE64: nat := 13
  const ENTRY: nat := 24

  /** One RELA entry; its type is the low half of its info word. */
  datatype Rela = Rela(offset: nat, info: nat, addend: nat) {
    predicate Relative() { info % TWO32 == RELATIVE64 }
  }

  function EntryAt(img: seq<Byte>, tab: nat, i: nat): (r: Rela)
    requires tab + ENTRY * (i + 1) <= |img|
    ensures r.offset < TWO64
  {
    var at := tab + ENTRY * i;
    Rela(U64(img, at), U64(img, at + 8), U64(img, at + 16))
  }

  /** The entry names a slot inside the image. */
  predicate Active(r: Rela, lo: nat, size: nat) { r.Relative() && lo <= r.offset && r.offset - lo + 8 <= size }

  /** The bound check of the loop is made in 64 bits and passes for an offset in the last eight bytes below 2^64. */
  predicate Wraps(r: Rela, lo: nat) { r.Relative() && lo <= r.offset && r.offset - lo + 8 >= TWO64 }

  /** The loop's own check: the entry is RELATIVE64, not below the image, and its end, in 64 bits, not past it. */
  predicate Passes(r: Rela, lo: nat, size: nat) {
    r.Relative() && lo <= r.offset && (r.offset - lo + 8) % TWO64 <= size
  }

  /** The check lets a slot outside the image through exactly when it wraps. */
  lemma PassesOutsideIff(r: Rela, lo: nat, size: nat)
    requires r.offset < TWO64 && 7 <= size < TWO32
    ensures Passes(r, lo, size) && !Active(r, lo, size) <==> Wraps(r, lo)
  {
    if r.Relative() && lo <= r.offset {
      EndIn64Bits(r.offset - lo);
    }
  }

  lemma EndIn64Bits(off: nat)
    requires off < TWO64
    ensures (off + 8) % TWO64 == if off + 8 < TWO64 then off + 8 else off + 8 - TWO64
  {
    var end := off + 8;
    DivModUnique(end, TWO64, if end < TWO64 then 0 else 1, if end < TWO64 then end else end - TWO64);
  }

  /** An entry for the last byte of the address space passes the check of a one-page image at zero, and its slot lies
      outside. */
  lemma LastByteWraps()
    ensures var r := Rela(TWO64 - 1, RELATIVE64, 0); Passes(r, 0, 0x1000) && Wraps(r, 0) && !Active(r, 0, 0x1000)
  {
    PassesOutsideIff(Rela(TWO64 - 1, RELATIVE64, 0), 0, 0x1000);
  }

  function Target(r: Rela, bias: nat): nat { (bias + r.addend) % TWO64 }

  /** One turn of the loop, the entry being read from the image as it then is. */
  function Turn(img: seq<Byte>, r: Rela, lo: nat, bias: nat): (out: seq<Byte>)
    ensures |out| == |img|
  {
    if Active(r, lo, |img|) then Put64(img, r.offset - lo, Target(r, bias)) else img
  }

  /** The image after the first `n` entries; nothing once an entry has been let through whose slot lies outside. */
  function Relocate(img: seq<Byte>, tab: nat, n: nat, lo: nat, bias: nat): (out: Option<seq<Byte>>)
    requires tab + ENTRY * n <= |img|
    ensures out.Some? ==> |out.value| == |img|
  {
    if n == 0 then Some(img)
    else
      match Relocate(img, tab, n - 1, lo, bias)
      case None => None
      case Some(m) =>
        var r := EntryAt(m, tab, n - 1);
        if Wraps(r, lo) then None else Some(Turn(m, r, lo, bias))
  }

  /** Patch the staged image in place, reading the table from it. The answer is the first entry whose copy would leave
      the image, with the image as it is then; none when all copies stay inside. */
  method ApplyRelocations(staging: array<Byte>, tab: nat, n: nat, lo: nat, bias: nat) returns (outside: Option<nat>)
    requires tab + ENTRY * n <= staging.Length < TWO32
    modifies staging
    ensures outside.None? <==> Relocate(old(staging[..]), tab, n, lo, bias).Some?
    ensures outside.None? ==> Some(staging[..]) == Relocate(old(staging[..]), tab, n, lo, bias)
    ensures outside.Some? ==> outside.value < n
    ensures outside.Some? ==> Some(staging[..]) == Relocate(old(staging[..]), tab, outside.value, lo, bias)
    ensures outside.Some? ==> Wraps(EntryAt(staging[..], tab, outside.value), lo)
  {
    hide EntryAt, U64, ToBytes, Put64, Turn, Wraps;
    for i := 0 to n
      invariant Relocate(old(staging[..]), tab, i, lo, bias) == Some(staging[..])
    {
      var r := EntryAt(staging[..], tab, i);
      var inside := PatchOne(staging, r, lo, bias);
      if !inside {
        StaysFailed(old(staging[..]), tab, i + 1, n, lo, bias);
        return Some(i);
      }
    }
    return None;
  }

  lemma {:induction false} StaysFailed(img: seq<Byte>, tab: nat, i: nat, n: nat, lo: nat, bias: nat)
    requires i <= n && tab + ENTRY * n <= |img| && Relocate(img, tab, i, lo, bias).None?
    ensures Relocate(img, tab, n, lo, bias).None?
  {
    if i < n {
      StaysFailed(img, tab, i, n - 1, lo, bias);
    }
  }

  /** The body of the loop: skip what is not RELATIVE64 or below the image, check the bound, copy eight bytes. */
  method PatchOne(staging: array<Byte>, r: Rela, lo: nat, bias: nat) returns (inside: bool)
    requires 7 <= staging.Length < TWO32 && r.offset < TWO64
    modifies staging
    ensures inside <==> !Wraps(r, lo)
    ensures staging[..] == if inside then Turn(old(staging[..]), r, lo, bias) else old(staging[..])
  {
    hide Put64, Passes;
    if r.info % TWO32 == RELATIVE64 {
      var value := (bias + r.addend) % TWO64;
      if r.offset < lo {
        return true;
      }
      var off := r.offset - lo;
      EndIn64Bits(off);
      if (off + 8) % TWO64 <= staging.Length {
        if off + 8 > staging.Length {
          // here the source writes outside the image
          return false;
        }
        CopyIn(staging, off, value);
      }
    }
    return true;
  }

  method CopyIn(staging: array<Byte>, off: nat, value: nat)
    requires off + 8 <= staging.Length
    modifies staging
    ensures staging[..] == Put64(old(staging[..]), off, value)
  {
    hide ToBytes;
    var bytes := ToBytes(value, 8);
    for k := 0 to 8
      invariant staging[..] == old(staging[..off]) + bytes[..k] + old(staging[off + k..])
    {
      staging[off + k] := bytes[k];
    }
    assert bytes[..8] == bytes;
  }

  // ----- a table whose slots keep apart -----

  /** Byte `k` belongs to the slot of entry `i`. */
  predicate InSlot(img: seq<Byte>, tab: nat, lo: nat, i: nat, k: nat)
    requires tab + ENTRY * (i + 1) <= |img|
  {
    var r := EntryAt(img, tab, i);
    Active(r, lo, |img|) && r.offset - lo <= k < r.offset - lo + 8
  }

  /** No slot touches the table. */
  ghost predicate OffTable(img: seq<Byte>, tab: nat, n: nat, lo: nat)
    requires tab + ENTRY * n <= |img|
  {
    forall i: nat, k: nat :: i < n && InSlot(img, tab, lo, i, k) ==> k < tab || tab + ENTRY * n <= k
  }

  /** No entry wraps. */
  ghost predicate NoneWraps(img: seq<Byte>, tab: nat, n: nat, lo: nat)
    requires tab + ENTRY * n <= |img|
  {
    forall i: nat :: i < n ==> !Wraps(EntryAt(img, tab, i), lo)
  }

  /** No entry wraps, no slot touches the table, and no two slots share a byte. */
  ghost predicate Apart(img: seq<Byte>, tab: nat, n: nat, lo: nat)
    requires tab + ENTRY * n <= |img|
  {
    && NoneWraps(img, tab, n, lo) && OffTable(img, tab, n, lo)
    && (forall i: nat, j: nat, k: nat ::
          i < n && j < n && InSlot(img, tab, lo, i, k) && InSlot(img, tab, lo, j, k) ==> i == j)
  }

  lemma SameEntry(a: seq<Byte>, b: seq<Byte>, tab: nat, n: nat, i: nat)
    requires |a| == |b| && tab + ENTRY * n <= |a| && i < n
    requires forall k :: tab <= k < tab + ENTRY * n ==> a[k] == b[k]
    ensures EntryAt(a, tab, i) == EntryAt(b, tab, i)
  {
    hide FromBytes;
    var at := tab + ENTRY * i;
    assert a[at..at + 8] == b[at..at + 8];
    assert a[at + 8..at + 16] == b[at + 8..at + 16];
    assert a[at + 16..at + 24] == b[at + 16..at + 24];
  }

  /** With the table out of every slot's way, all copies stay inside the image if and only if no entry of the staged
      image wraps; shared slots do not matter. */
  lemma StaysInsideIff(img: seq<Byte>, tab: nat, n: nat, lo: nat, bias: nat)
    requires tab + ENTRY * n <= |img| && OffTable(img, tab, n, lo)
    ensures Relocate(img, tab, n, lo, bias).Some? <==> NoneWraps(img, tab, n, lo)
  {
    StaysInside(img, tab, n, n, lo, bias);
  }

  lemma {:induction false} StaysInside(img: seq<Byte>, tab: nat, total: nat, n: nat, lo: nat, bias: nat)
    requires n <= total && tab + ENTRY * total <= |img| && OffTable(img, tab, total, lo)
    ensures Relocate(img, tab, n, lo, bias).Some? <==> NoneWraps(img, tab, n, lo)
    ensures Relocate(img, tab, n, lo, bias).Some? ==>
      forall k: nat :: tab <= k < tab + ENTRY * total ==> Relocate(img, tab, n, lo, bias).value[k] == img[k]
    decreases n
  {
    hide EntryAt, ToBytes, Put64, Wraps, Target;
    if n > 0 {
      StaysInside(img, tab, total, n - 1, lo, bias);
      if Relocate(img, tab, n - 1, lo, bias).Some? {
        var m := Relocate(img, tab, n - 1, lo, bias).value;
        SameEntry(img, m, tab, total, n - 1);
        var out := Turn(m, EntryAt(img, tab, n - 1), lo, bias);
        forall k: nat | tab <= k < tab + ENTRY * total ensures out[k] == m[k] {
          assert !InSlot(img, tab, lo, n - 1, k);
        }
      }
    }
  }

  /** What the first `n` entries make of byte `k`, told from the image they started from. */
  ghost predicate Rebased(img: seq<Byte>, out: seq<Byte>, tab: nat, n: nat, lo: nat, bias: nat, k: nat)
    requires tab + ENTRY * n <= |img| == |out| && k < |img|
  {
    && (forall i: nat :: i < n && InSlot(img, tab, lo, i, k) ==>
          var r := EntryAt(img, tab, i); out[k] == ToBytes(Target(r, bias), 8)[k - (r.offset - lo)])
    && ((forall i: nat :: i < n ==> !InSlot(img, tab, lo, i, k)) ==> out[k] == img[k])
  }

  /** One entry more, seen from one byte. */
  lemma OneMoreEntry(img: seq<Byte>, m: seq<Byte>, tab: nat, total: nat, n: nat, lo: nat, bias: nat, k: nat)
    requires 0 < n <= total && tab + ENTRY * total <= |img| == |m| && k < |img|
    requires Apart(img, tab, total, lo) && Rebased(img, m, tab, n - 1, lo, bias, k)
    ensures Rebased(img, Turn(m, EntryAt(img, tab, n - 1), lo, bias), tab, n, lo, bias, k)
  {
    hide EntryAt, ToBytes, Target;
    var r := EntryAt(img, tab, n - 1);
    var out := Turn(m, r, lo, bias);
    assert InSlot(img, tab, lo, n - 1, k) ==> out[k] == ToBytes(Target(r, bias), 8)[k - (r.offset - lo)];
    assert !InSlot(img, tab, lo, n - 1, k) ==> out[k] == m[k];
  }

  /** When the slots keep apart the order of the table does not matter: every slot gets its rebased value and every
      other byte, the table's included, stays as it was. */
  lemma {:induction false} RelocateIsRebase(img: seq<Byte>, tab: nat, total: nat, n: nat, lo: nat, bias: nat)
    requires n <= total && tab + ENTRY * total <= |img| && Apart(img, tab, total, lo)
    ensures Relocate(img, tab, n, lo, bias).Some?
    ensures forall k: nat :: k < |img| ==> Rebased(img, Relocate(img, tab, n, lo, bias).value, tab, n, lo, bias, k)
    decreases n
  {
    hide EntryAt, ToBytes, Put64, Turn, Rebased, InSlot, Target, Active, Wraps;
    if n == 0 {
      NothingRebased(img, tab, lo, bias);
    } else {
      RelocateIsRebase(img, tab, total, n - 1, lo, bias);
      var m := Relocate(img, tab, n - 1, lo, bias).value;
      TableUntouched(img, m, tab, total, n - 1, lo, bias);
      SameEntry(img, m, tab, total, n - 1);
      var out := Turn(m, EntryAt(img, tab, n - 1), lo, bias);
      forall k: nat | k < |img| ensures Rebased(img, out, tab, n, lo, bias, k) {
        OneMoreEntry(img, m, tab, total, n, lo, bias, k);
      }
    }
  }

  lemma NothingRebased(img: seq<Byte>, tab: nat, lo: nat, bias: nat)
    requires tab <= |img|
    ensures forall k: nat :: k < |img| ==> Rebased(img, img, tab, 0, lo, bias, k)
  {
  }

  lemma TableUntouched(img: seq<Byte>, m: seq<Byte>, tab: nat, total: nat, n: nat, lo: nat, bias: nat)
    requires n <= total && tab + ENTRY * total <= |img| == |m| && Apart(img, tab, total, lo)
    requires forall k: nat :: k < |img| ==> Rebased(img, m, tab, n, lo, bias, k)
    ensures forall k: nat :: tab <= k < tab + ENTRY * total ==> m[k] == img[k]
  {
    hide EntryAt, ToBytes, Target, InSlot;
    forall k: nat | tab <= k < tab + ENTRY * total ensures m[k] == img[k] {
      assert Rebased(img, m, tab, n, lo, bias, k);
    }
  }

  /** Each slot then reads as base - lo + addend, modulo 2^64. */
  lemma SlotHolds(img: seq<Byte>, tab: nat, n: nat, lo: nat, base: nat, i: nat)
    requires tab + ENTRY * n <= |img| && Apart(img, tab, n, lo) && i < n && Active(EntryAt(img, tab, i), lo, |img|)
    ensures Relocate(img, tab, n, lo, (base - lo) % TWO64).Some?
    ensures var r := EntryAt(img, tab, i);
            U64(Relocate(img, tab, n, lo, (base - lo) % TWO64).value, r.offset - lo) == (base - lo + r.addend) % TWO64
  {
    hide EntryAt, ToBytes, FromBytes, Put64, Relocate, Apart;
    var bias := (base - lo) % TWO64;
    RelocateIsRebase(img, tab, n, n, lo, bias);
    var out, r := Relocate(img, tab, n, lo, bias).value, EntryAt(img, tab, i);
    var off, v := r.offset - lo, Target(r, bias);
    forall k: nat | off <= k < off + 8 ensures out[k] == ToBytes(v, 8)[k - off] {
      assert Rebased(img, out, tab, n, lo, bias, k) && InSlot(img, tab, lo, i, k);
    }
    assert out[off..off + 8] == ToBytes(v, 8) == Put64(img, off, v)[off..off + 8];
    ReadBack(img, off, v);
    ModSum(base - lo, r.addend, TWO64);
  }

  /** In the table's own 64-bit numbers: an entry is three of them. Where the second one's low half is 13, the slot that
      the first names reads as base - lo plus the third, modulo 2^64. */
  lemma SlotFromBytes(img: seq<Byte>, tab: nat, n: nat, lo: nat, base: nat, i: nat)
    requires tab + 24 * n <= |img| && Apart(img, tab, n, lo) && i < n
    requires var at := tab + 24 * i;
      U64(img, at + 8) % TWO32 == 13 && lo <= U64(img, at) && U64(img, at) - lo + 8 <= |img|
    ensures Relocate(img, tab, n, lo, (base - lo) % TWO64).Some?
    ensures var at := tab + 24 * i;
      U64(Relocate(img, tab, n, lo, (base - lo) % TWO64).value, U64(img, at) - lo) ==
      (base - lo + U64(img, at + 16)) % TWO64
  {
    hide U64, Relocate, Apart;
    SlotHolds(img, tab, n, lo, base, i);
  }

  /** Loading at two bases gives images that differ in the slots alone, and there by exactly the difference of the
      bases. */
  lemma LoadIsPureRebase(img: seq<Byte>, tab: nat, n: nat, lo: nat, base: nat, base': nat)
    requires tab + ENTRY * n <= |img| && Apart(img, tab, n, lo)
    ensures var a, b := Relocate(img, tab, n, lo, (base - lo) % TWO64), Relocate(img, tab, n, lo, (base' - lo) % TWO64);
      && a.Some? && b.Some?
      && (forall k: nat :: k < |img| && (forall i: nat :: i < n ==> !InSlot(img, tab, lo, i, k)) ==>
            a.value[k] == b.value[k])
      && (forall i: nat :: i < n && Active(EntryAt(img, tab, i), lo, |img|) ==>
            var off := EntryAt(img, tab, i).offset - lo;
            (U64(b.value, off) - U64(a.value, off)) % TWO64 == (base' - base) % TWO64)
  {
    hide EntryAt, U64, Relocate, Apart, Target;
    var a, b := Relocate(img, tab, n, lo, (base - lo) % TWO64), Relocate(img, tab, n, lo, (base' - lo) % TWO64);
    RelocateIsRebase(img, tab, n, n, lo, (base - lo) % TWO64);
    RelocateIsRebase(img, tab, n, n, lo, (base' - lo) % TWO64);
    forall k: nat | k < |img| && (forall i: nat :: i < n ==> !InSlot(img, tab, lo, i, k))
      ensures a.value[k] == b.value[k]
    {
      assert Rebased(img, a.value, tab, n, lo, (base - lo) % TWO64, k);
      assert Rebased(img, b.value, tab, n, lo, (base' - lo) % TWO64, k);
    }
    forall i: nat | i < n && Active(EntryAt(img, tab, i), lo, |img|)
      ensures var off := EntryAt(img, tab, i).offset - lo;
              (U64(b.value, off) - U64(a.value, off)) % TWO64 == (base' - base) % TWO64
    {
      SlotHolds(img, tab, n, lo, base, i);
      SlotHolds(img, tab, n, lo, base', i);
      DifferenceMod(base' - lo + EntryAt(img, tab, i).addend, base - lo + EntryAt(img, tab, i).addend);
    }
  }

  lemma DifferenceMod(x: int, y: int)
    ensures (x % TWO64 - y % TWO64) % TWO64 == (x - y) % TWO64
  {
    ModAddMultiple(x % TWO64 - y % TWO64, TWO64, x / TWO64 - y / TWO64);
  }
}
