/** Division and remainder with a variable divisor, proved once from the defining equation. */
module Arith {
  import opened Util

  /** Quotient and remainder are determined by the equation and the bound. */
  lemma DivModUnique(x: int, d: int, q: int, r: int)
    requires d > 0 && 0 <= r < d && x == d * q + r
    ensures x / d == q && x % d == r
  {
    var k := q - x / d;
    assert d * k == d * q - d * (x / d);
    assert x == d * (x / d) + x % d;
    MultipleIsLarge(d, k);
  }

  lemma MultipleIsLarge(d: int, k: int)
    requires d > 0
    ensures k >= 1 ==> d * k >= d
    ensures k <= -1 ==> d * k <= -d
  {
    if k >= 1 {
      assert d * k == d + d * (k - 1);
      assert d * (k - 1) >= 0;
    } else if k <= -1 {
      assert d * k == -d + d * (k + 1);
      assert d * (k + 1) <= 0;
    }
  }

  lemma ModAddMultiple(x: int, d: int, k: int)
    requires d > 0
    ensures (x + d * k) % d == x % d && (x + d * k) / d == x / d + k
  {
    assert x + d * k == d * (x / d + k) + x % d;
    DivModUnique(x + d * k, d, x / d + k, x % d);
  }

  lemma ModOfMultiple(d: int, k: int)
    requires d > 0
    ensures (d * k) % d == 0 && (d * k) / d == k
  {
    DivModUnique(d * k, d, k, 0);
  }

  /** The remainder of a sum depends on the remainders only. */
  lemma ModSum(x: int, y: int, d: int)
    requires d > 0
    ensures (x + y) % d == (x % d + y) % d
  {
    ModAddMultiple(x % d + y, d, x / d);
    assert x % d + y + d * (x / d) == x + y;
  }

  lemma SumOfMultiples(a: int, b: int, d: int)
    requires d > 0 && a % d == 0 && b % d == 0
    ensures (a + b) % d == 0 && (a - b) % d == 0
  {
    assert a == d * (a / d) && b == d * (b / d);
    ModOfMultiple(d, a / d + b / d);
    ModOfMultiple(d, a / d - b / d);
    assert a + b == d * (a / d + b / d) && a - b == d * (a / d - b / d);
  }

  /** Reducing modulo a multiple of `d` first changes nothing modulo `d`. */
  lemma ModMod(x: int, m: int, d: int)
    requires d > 0 && m > 0 && m % d == 0
    ensures x % m % d == x % d
  {
    var k := m / d;
    assert m == d * k;
    assert x == x % m + m * (x / m);
    assert m * (x / m) == d * (k * (x / m));
    ModAddMultiple(x % m, d, k * (x / m));
  }

  /** Equal remainders are kept by adding the same number. */
  lemma ModCongruent(a: int, b: int, c: int, d: int)
    requires d > 0 && a % d == b % d
    ensures (a + c) % d == (b + c) % d && (c - a) % d == (c - b) % d
  {
    ModSum(a, c, d);
    ModSum(b, c, d);
    var k := a / d - b / d;
    assert a == b + d * k;
    assert c - b == c - a + d * k;
    ModAddMultiple(c - a, d, k);
  }

  predicate PowerOfTwo(n: nat) {
    n == 1 || (n > 1 && n % 2 == 0 && PowerOfTwo(n / 2))
  }

  lemma {:induction false} PowerTimes(a: nat, b: nat)
    requires PowerOfTwo(a) && PowerOfTwo(b)
    ensures PowerOfTwo(a * b)
    decreases a
  {
    if a > 1 {
      PowerTimes(a / 2, b);
      DoublePower(a / 2 * b);
      assert a * b == 2 * (a / 2 * b);
    }
  }

  lemma DoublePower(n: nat)
    requires PowerOfTwo(n)
    ensures PowerOfTwo(2 * n)
  {
  }

  lemma TwoPowers()
    ensures PowerOfTwo(TWO32) && PowerOfTwo(TWO32 / 4)
  {
    DoublePower(1);
    PowerTimes(2, 2);
    PowerTimes(4, 4);
    PowerTimes(0x10, 0x10);
    PowerTimes(0x100, 0x100);
    PowerTimes(4, 0x10);
    PowerTimes(0x40, 0x100);
    PowerTimes(0x1_0000, 0x1_0000);
    PowerTimes(0x4000, 0x1_0000);
  }

  /** A power of two divides every power of two that is not smaller. */
  lemma {:induction false} PowerDivides(c: nat, p: nat)
    requires PowerOfTwo(c) && PowerOfTwo(p) && c <= p
    ensures c > 0 && p % c == 0
    decreases c
  {
    if c > 1 {
      PowerDivides(c / 2, p / 2);
      var k := p / 2 / (c / 2);
      assert p / 2 == c / 2 * k;
      assert p == c * k;
      ModOfMultiple(c, k);
    }
  }

  lemma TimesBounded(a: nat, b: nat, m: nat, n: nat)
    requires a <= m && b <= n
    ensures a * b <= m * n && (a > 0 && b > 0 ==> a * b > 0)
  {
    assert m * n - a * b == (m - a) * n + a * (n - b);
    assert (m - a) * n >= 0 && a * (n - b) >= 0;
  }

  lemma ModAtMost(x: nat, g: nat)
    requires g > 0
    ensures x % g <= x
  {
    assert x == g * (x / g) + x % g;
    assert g * (x / g) >= 0;
  }

  /** The quotient, by the bounds that determine it. */
  function Quotient(x: nat, d: nat): (q: nat)
    requires d > 0
    ensures d * q <= x < d * q + d && q == x / d
  {
    assert x == d * (x / d) + x % d;
    MultipleIsLarge(d, x / d + 1);
    assert d * (x / d + 1) == d * (x / d) + d;
    x / d
  }

  /** `k` divisors fit below `x` exactly up to the quotient. */
  lemma FitsIff(x: nat, d: nat, k: nat)
    requires d > 0
    ensures k <= x / d <==> k * d <= x
  {
    var q := x / d;
    assert x == d * q + x % d;
    if k <= q {
      assert (q - k) * d >= 0;
    } else {
      MultipleIsLarge(d, k - q);
      assert d * (k - q) == d * k - d * q;
    }
  }

  /** The least multiple of `a` at or above `x`. */
  function AlignUp(x: nat, a: nat): (r: nat)
    requires a > 0
    ensures x <= r < x + a && r % a == 0
  {
    ModOfMultiple(a, (x + a - 1) / a);
    assert x + a - 1 - (x + a - 1) % a == a * ((x + a - 1) / a);
    x + a - 1 - (x + a - 1) % a
  }

  /** Bitwise or. */
  function Or(a: nat, b: nat): nat {
    if a == 0 then b else if b == 0 then a else 2 * Or(a / 2, b / 2) + (if a % 2 + b % 2 > 0 then 1 else 0)
  }

  /** The union of two bit sets is at least either and at most their sum. */
  lemma {:induction false} OrBetween(a: nat, b: nat)
    ensures a <= Or(a, b) && b <= Or(a, b) <= a + b
  {
    if a > 0 && b > 0 {
      OrBetween(a / 2, b / 2);
    }
  }

  /** It needs no more bits than the wider of the two. */
  lemma {:induction false} OrBelow(a: nat, b: nat, p: nat)
    requires PowerOfTwo(p) && a < p && b < p
    ensures Or(a, b) < p
  {
    if a > 0 && b > 0 {
      OrBelow(a / 2, b / 2, p / 2);
    }
  }

  /** (size + align - 1) & ~(align - 1) in 64-bit arithmetic, for a power-of-two alignment. */
  function Round(size: nat, align: nat): nat
    requires align > 0
  {
    var x := (size + align - 1) % TWO64;
    x - x % align
  }

  /** Rounding is the least multiple that covers the request exactly when the sum does not wrap; past that
      point it collapses to zero. */
  lemma RoundCoversIff(size: nat, align: nat)
    requires 0 < size < TWO64 && 0 < align <= TWO64
    ensures Round(size, align) % align == 0
    ensures size + align <= TWO64 ==> size <= Round(size, align) < size + align
    ensures size + align > TWO64 ==> Round(size, align) == 0
  {
    var x := (size + align - 1) % TWO64;
    ModOfMultiple(align, x / align);
    assert x - x % align == align * (x / align);
    if size + align > TWO64 {
      assert x == size + align - 1 - TWO64 < align;
      DivModUnique(x, align, 0, x);
    }
  }
}
