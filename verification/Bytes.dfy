/** Little-endian numbers in byte sequences. */
module Bytes {
  import opened Util
  import opened Arith

  function Bound(n: nat): (b: nat)
    ensures b > 0
  {
    if n == 0 then 1 else 256 * Bound(n - 1)
  }

  function ToBytes(v: nat, n: nat): (s: seq<Byte>)
    ensures |s| == n
  {
    if n == 0 then [] else [v % 256] + ToBytes(v / 256, n - 1)
  }

  function FromBytes(s: seq<Byte>): (v: nat)
    ensures v < Bound(|s|)
  {
    if s == [] then 0 else s[0] + 256 * FromBytes(s[1..])
  }

  lemma {:induction false} RoundTrip(v: nat, n: nat)
    requires v < Bound(n)
    ensures FromBytes(ToBytes(v, n)) == v
  {
    if n > 0 {
      RoundTrip(v / 256, n - 1);
      assert ToBytes(v, n)[1..] == ToBytes(v / 256, n - 1);
    }
  }

  /** The 64-bit number at `at`. */
  function U64(s: seq<Byte>, at: nat): (v: nat)
    requires at + 8 <= |s|
    ensures v < TWO64
  {
    Bound8();
    FromBytes(s[at..at + 8])
  }

  /** Four bytes, the lowest first. */
  function Le32(s: seq<Byte>, at: nat): nat
    requires at + 4 <= |s|
  {
    var a: nat, b: nat, c: nat, d: nat := s[at], s[at + 1], s[at + 2], s[at + 3];
    a + 0x100 * b + 0x1_0000 * c + 0x100_0000 * d
  }

  lemma OneByte(s: seq<Byte>, at: nat, end: nat)
    requires at < end <= |s|
    ensures FromBytes(s[at..end]) == s[at] + 256 * FromBytes(s[at + 1..end])
  {
    assert s[at..end][1..] == s[at + 1..end];
  }

  lemma Le32Is(s: seq<Byte>, at: nat)
    requires at + 4 <= |s|
    ensures FromBytes(s[at..at + 4]) == Le32(s, at)
  {
    hide FromBytes;
    OneByte(s, at, at + 4);
    OneByte(s, at + 1, at + 4);
    OneByte(s, at + 2, at + 4);
    OneByte(s, at + 3, at + 4);
    NoBytes(s[at + 4..at + 4]);
  }

  lemma NoBytes(s: seq<Byte>)
    requires s == []
    ensures FromBytes(s) == 0
  {
  }

  /** The 64-bit number at `at` is its eight bytes, the lowest first. */
  lemma U64Is(s: seq<Byte>, at: nat)
    requires at + 8 <= |s|
    ensures U64(s, at) == Le32(s, at) + TWO32 * Le32(s, at + 4)
  {
    hide FromBytes;
    OneByte(s, at, at + 8);
    OneByte(s, at + 1, at + 8);
    OneByte(s, at + 2, at + 8);
    OneByte(s, at + 3, at + 8);
    Le32Is(s, at + 4);
  }

  lemma Bound8()
    ensures Bound(8) == TWO64
  {
    assert Bound(4) == TWO32;
    assert Bound(8) == 256 * (256 * (256 * (256 * Bound(4))));
  }

  /** `s` with the 64-bit number `v` written at `at`. */
  function Put64(s: seq<Byte>, at: nat, v: nat): (r: seq<Byte>)
    requires at + 8 <= |s|
    ensures |r| == |s|
    ensures forall k :: 0 <= k < |s| ==> r[k] == if at <= k < at + 8 then ToBytes(v, 8)[k - at] else s[k]
  {
    s[..at] + ToBytes(v, 8) + s[at + 8..]
  }

  lemma ReadBack(s: seq<Byte>, at: nat, v: nat)
    requires at + 8 <= |s| && v < TWO64
    ensures U64(Put64(s, at, v), at) == v
  {
    Bound8();
    assert Put64(s, at, v)[at..at + 8] == ToBytes(v, 8);
    RoundTrip(v, 8);
  }
}
