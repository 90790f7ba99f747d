/** Exactly when the handler's search ends if every try fails, for every device and work-group: the 32-bit subtraction
    can wrap, and the search then goes round (lib/queue.cpp:221-258). */
module BackoffWrap {
  import opened Arith
  import opened FreeList
  import opened ScratchBackoff
  import opened ScratchSizing
  import opened Util

  // ----- greatest common divisors -----

  function Gcd(a: nat, b: nat): (g: nat)
    requires a + b > 0
    ensures g > 0 && a % g == 0 && b % g == 0
    decreases b
  {
    if b == 0 then
      ModOfMultiple(a, 1);
      ModOfMultiple(a, 0);
      a
    else
      DividesDividend(a, b, Gcd(b, a % b));
      Gcd(b, a % b)
  }

  /** A common divisor of divisor and remainder divides the dividend. */
  lemma DividesDividend(a: int, b: int, g: int)
    requires b > 0 && g > 0 && b % g == 0 && a % b % g == 0
    ensures a % g == 0
  {
    var k, r := a / b, a % b;
    var p, q := b / g, r / g;
    assert a == b * k + r && b == g * p && r == g * q;
    assert g * p * k == g * (p * k);
    ModOfMultiple(g, p * k + q);
    assert a == g * (p * k + q);
  }

  lemma {:induction false} Bezout(a: nat, b: nat) returns (x: int, y: int)
    requires a + b > 0
    ensures a * x + b * y == Gcd(a, b)
    decreases b
  {
    if b == 0 {
      x, y := 1, 0;
    } else {
      var p, q := Bezout(b, a % b);
      x, y := q, p - a / b * q;
      BezoutStep(a, b, p, q);
    }
  }

  lemma BezoutStep(a: int, b: int, p: int, q: int)
    requires b > 0
    ensures a * q + b * (p - a / b * q) == b * p + a % b * q
  {
    var k, r := a / b, a % b;
    assert a == b * k + r;
    assert (b * k + r) * q == b * (k * q) + r * q;
    assert b * (p - k * q) == b * p - b * (k * q);
  }

  // ----- slot counts in whole engines -----

  /** What a failure takes off, per engine. */
  function Stride(w: nat, n: nat): nat requires n > 0 { Quotient(w + n - 1, n) }

  /** How many slots per engine make one round of the 32-bit range. */
  function Lap(w: nat, n: nat): nat
    requires 0 < n && w <= TWO32
  {
    Stride(w, n) + Quotient(TWO32 - w, n)
  }

  lemma StrideBounds(w: nat, n: nat)
    requires 0 < n && 0 < w <= TWO32
    ensures w <= n * Stride(w, n) < w + n && 0 < Stride(w, n) <= Lap(w, n)
    ensures TWO32 < n * (Lap(w, n) + 1)
  {
    hide Quotient;
    var v, u := Stride(w, n), Quotient(TWO32 - w, n);
    assert n * (v + u + 1) == n * v + n * u + n;
    assert v <= 0 ==> n * v <= 0;
  }

  /** A count of `k` slots per engine covers a group exactly when `k` is at least the stride. */
  lemma CoversIff(k: nat, w: nat, n: nat)
    requires 0 < n && 0 < w <= TWO32
    ensures w <= n * k <==> Stride(w, n) <= k
  {
    StrideBounds(w, n);
    var v := Stride(w, n);
    MultipleIsLarge(n, k - v);
    assert n * k == n * v + n * (k - v);
    if k > v {
      assert n * (k - v) >= 0;
    }
  }

  lemma NextDown(k: nat, w: nat, n: nat, v: nat)
    requires 0 < n && w <= n * k < TWO32 && w <= n * v < w + n
    ensures Next(n * k, w, n) == n * (k - v)
  {
    var x := n * k - w;
    assert x == n * (k - v) + (n * v - w);
    DivModUnique(x, TWO32, 0, x);
    DivModUnique(x, n, k - v, n * v - w);
    assert (k - v) * n == n * (k - v);
  }

  lemma NextAround(k: nat, w: nat, n: nat)
    requires 0 < n && n * k < w < TWO32
    ensures Next(n * k, w, n) == n * (k + Quotient(TWO32 - w, n))
  {
    var x := n * k - w;
    DivModUnique(x, TWO32, -1, x + TWO32);
    ModAddMultiple(TWO32 - w, n, k);
    var q := k + Quotient(TWO32 - w, n);
    assert q * n == n * q;
  }

  /** A failure at `k` slots per engine takes the stride off, and a round on when there are fewer. */
  lemma NextPerEngine(k: nat, w: nat, n: nat)
    requires 0 < n && 0 < w < TWO32 && n * k < TWO32
    ensures Next(n * k, w, n) == n * (if k >= Stride(w, n) then k - Stride(w, n) else k - Stride(w, n) + Lap(w, n))
  {
    hide Stride, Next, Quotient;
    StrideBounds(w, n);
    CoversIff(k, w, n);
    if k >= Stride(w, n) {
      NextDown(k, w, n, Stride(w, n));
    } else {
      NextAround(k, w, n);
    }
  }

  /** Slots per engine at try `j` + 1. */
  function PerEngine(start: nat, w: nat, n: nat, j: nat): nat
    requires n > 0
  {
    Slots(start, w, n, j + 1) / n
  }

  /** After the first failure the tries walk down in strides, modulo a round. */
  lemma {:induction false} SlotsWalk(start: nat, w: nat, n: nat, j: nat)
    requires 0 < n && 0 < w < TWO32
    ensures var k, m := PerEngine(start, w, n, j), Lap(w, n);
      && Slots(start, w, n, j + 1) == n * k && k <= m && (j > 0 ==> k < m)
      && m > 0 && k % m == (PerEngine(start, w, n, 0) - j * Stride(w, n)) % m
  {
    hide Stride, Lap, Next;
    StrideBounds(w, n);
    var m := Lap(w, n);
    if j == 0 {
      FirstWithinRound(start, w, n);
      assert Slots(start, w, n, 0) == start;
    } else {
      SlotsWalk(start, w, n, j - 1);
      var k: int, v: int := PerEngine(start, w, n, j - 1), Stride(w, n);
      var k' := if k >= v then k - v else k - v + m;
      SlotsBelow(start, w, n, j);
      NextPerEngine(k, w, n);
      ModOfMultiple(n, k');
      OneStrideMore(PerEngine(start, w, n, 0), v, j, m, k, k');
    }
  }

  lemma SlotsBelow(start: nat, w: nat, n: nat, j: nat)
    requires n > 0 && j > 0
    ensures Slots(start, w, n, j) < TWO32
  {
    NextFits(Slots(start, w, n, j - 1), w, n);
  }

  lemma FirstWithinRound(start: nat, w: nat, n: nat)
    requires 0 < n && 0 < w < TWO32
    ensures Next(start, w, n) == n * (Next(start, w, n) / n) && Next(start, w, n) / n <= Lap(w, n)
  {
    hide Stride, Lap;
    StrideBounds(w, n);
    var x := (start - w) % TWO32;
    ModOfMultiple(n, x / n);
    assert x / n * n == n * (x / n);
    FitsIff(x, n, Lap(w, n) + 1);
  }

  lemma OneStrideMore(first: int, v: int, j: int, m: int, k: int, k': int)
    requires m > 0 && k % m == (first - (j - 1) * v) % m && (k' == k - v || k' == k - v + m)
    ensures k' % m == (first - j * v) % m
  {
    ModCongruent(k, first - (j - 1) * v, 0 - v, m);
    assert first - (j - 1) * v - v == first - j * v;
    ModAddMultiple(k - v, m, 1);
  }

  // ----- exactly when the search ends -----

  /** With every try failing, the search comes to too few slots and gives up. */
  ghost predicate Ends(start: nat, w: nat, n: nat)
    requires n > 0
  {
    exists k: nat :: Slots(start, w, n, k) < 2 * n
  }

  /** What every try's slots per engine are congruent by. */
  function Granule(w: nat, n: nat): (g: nat)
    requires 0 < n && 0 < w < TWO32
    ensures g > 0
  {
    StrideBounds(w, n);
    Gcd(Stride(w, n), Lap(w, n))
  }

  lemma GranuleDivides(w: nat, n: nat)
    requires 0 < n && 0 < w < TWO32
    ensures Stride(w, n) % Granule(w, n) == 0 && Lap(w, n) % Granule(w, n) == 0
    ensures Granule(w, n) <= Stride(w, n)
  {
    hide Stride, Lap, Gcd;
    StrideBounds(w, n);
    Divisor(Stride(w, n), Granule(w, n));
  }

  lemma Divisor(a: nat, g: nat)
    requires 0 < a && 0 < g && a % g == 0
    ensures g <= a
  {
    var q := a / g;
    assert a == g * q;
    MultipleIsLarge(g, q);
    assert q <= 0 ==> g * q <= 0;
  }

  /** The slots per engine never leave their residue. */
  lemma SlotsCongruent(start: nat, w: nat, n: nat, j: nat)
    requires 0 < n && 0 < w < TWO32
    ensures PerEngine(start, w, n, j) % Granule(w, n) == PerEngine(start, w, n, 0) % Granule(w, n)
  {
    hide Stride, Lap, PerEngine, Granule;
    SlotsWalk(start, w, n, j);
    GranuleDivides(w, n);
    var g, m, v := Granule(w, n), Lap(w, n), Stride(w, n);
    var first, k := PerEngine(start, w, n, 0), PerEngine(start, w, n, j);
    ModMod(k, m, g);
    ModMod(first - j * v, m, g);
    StridesVanish(first, j, v, g);
  }

  lemma StridesVanish(first: int, j: int, v: int, g: int)
    requires g > 0 && v % g == 0
    ensures (first - j * v) % g == first % g
  {
    var c := (0 - j) * (v / g);
    assert v == g * (v / g);
    assert g * c == (0 - j) * (g * (v / g));
    ModAddMultiple(first, g, c);
  }

  /** Some number of strides, at least one, comes to any multiple of the granule, modulo a round. */
  lemma StridesReach(w: nat, n: nat, q: nat) returns (j: nat)
    requires 0 < n && 0 < w < TWO32
    ensures j > 0 && Lap(w, n) > 0 && (q * Granule(w, n) - j * Stride(w, n)) % Lap(w, n) == 0
  {
    hide Stride, Lap, Gcd;
    StrideBounds(w, n);
    var v, m, g := Stride(w, n), Lap(w, n), Granule(w, n);
    var x, y := Bezout(v, m);
    j := q * x % m + m;
    ReachedBy(q, g, v, x, m, y);
  }

  lemma ReachedBy(q: int, g: int, v: int, x: int, m: int, y: int)
    requires m > 0 && v * x + m * y == g
    ensures (q * g - (q * x % m + m) * v) % m == 0
  {
    var c := q * x;
    var e := 1 - c / m;
    assert c % m + m == c + m * e by {
      assert c == m * (c / m) + c % m;
    }
    Collect(q, g, v, x, m, y, e);
    ModOfMultiple(m, q * y - e * v);
  }

  lemma Collect(q: int, g: int, v: int, x: int, m: int, y: int, e: int)
    requires v * x + m * y == g
    ensures q * g - (q * x + m * e) * v == m * (q * y - e * v)
  {
    assert q * g == q * (v * x) + q * (m * y);
    assert (q * x + m * e) * v == q * (v * x) + m * (e * v);
    assert m * (q * y - e * v) == q * (m * y) - m * (e * v);
  }

  /** The walk comes to the least value of its residue. */
  lemma ReachesResidue(start: nat, w: nat, n: nat) returns (j: nat)
    requires 0 < n && 0 < w < TWO32
    ensures PerEngine(start, w, n, j) == PerEngine(start, w, n, 0) % Granule(w, n)
  {
    hide Stride, Lap, PerEngine, Granule;
    var first, g, m, v := PerEngine(start, w, n, 0), Granule(w, n), Lap(w, n), Stride(w, n);
    j := StridesReach(w, n, first / g);
    SlotsWalk(start, w, n, j);
    GranuleDivides(w, n);
    StrideBounds(w, n);
    assert first == g * (first / g) + first % g;
    assert g * (first / g) == first / g * g;
    ModSum(first / g * g - j * v, first % g, m);
    DivModUnique(first % g, m, 0, first % g);
    DivModUnique(PerEngine(start, w, n, j), m, 0, PerEngine(start, w, n, j));
  }

  /** With every try failing the search ends if and only if it starts with too few slots, or the residue that its slots
      per engine keep is too few. */
  lemma SearchEndsIff(start: nat, w: nat, n: nat)
    requires 0 < n && 0 < w < TWO32
    ensures Ends(start, w, n) <==> start < 2 * n || Next(start, w, n) / n % Granule(w, n) < 2
  {
    hide Next, Granule, PerEngine;
    FirstPerEngine(start, w, n);
    if Ends(start, w, n) {
      var k: nat :| Slots(start, w, n, k) < 2 * n;
      if k > 0 {
        SlotsWalk(start, w, n, k - 1);
        SlotsCongruent(start, w, n, k - 1);
        FewPerEngine(n, PerEngine(start, w, n, k - 1));
        ModAtMost(PerEngine(start, w, n, k - 1), Granule(w, n));
      }
    }
    if start < 2 * n {
      assert Slots(start, w, n, 0) < 2 * n;
    } else if Next(start, w, n) / n % Granule(w, n) < 2 {
      var j := ReachesResidue(start, w, n);
      SlotsWalk(start, w, n, j);
      FewPerEngine(n, PerEngine(start, w, n, j));
    }
  }

  lemma FirstPerEngine(start: nat, w: nat, n: nat)
    requires n > 0
    ensures PerEngine(start, w, n, 0) == Next(start, w, n) / n
  {
    assert Slots(start, w, n, 0) == start;
  }

  lemma FewPerEngine(n: nat, k: nat)
    requires n > 0
    ensures n * k < 2 * n <==> k < 2
  {
    MultipleIsLarge(n, k - 1);
    assert n * k == n + n * (k - 1);
    if k >= 2 {
      assert n * (k - 2) >= 0;
      assert n * k == 2 * n + n * (k - 2);
    }
  }

  /** The condition is one the search can be called under, whatever fails. */
  lemma EndsStops(free: seq<Block>, align: nat, d: Device, perThread: nat, w: nat, start: nat, works: nat -> bool)
    requires align > 0 && d.numSe > 0 && Ends(start, w, d.numSe)
    ensures exists stop: nat :: StopsAt(free, align, d, perThread, w, start, works, stop)
  {
    var k: nat :| Slots(start, w, d.numSe, k) < 2 * d.numSe;
    assert StopsAt(free, align, d, perThread, w, start, works, k);
  }

  /** And where it fails and every try does too, the search has nowhere to stop. */
  lemma HopelessStopsIff(free: seq<Block>, align: nat, d: Device, perThread: nat, w: nat, start: nat,
                         works: nat -> bool)
    requires align > 0 && d.numSe > 0
    requires forall k: nat ::
      Hopeless(free, align, AllocSize(d.gfx, perThread, Slots(start, w, d.numSe, k)), works(k))
    ensures (exists stop: nat :: StopsAt(free, align, d, perThread, w, start, works, stop)) <==>
            Ends(start, w, d.numSe)
  {
    hide Hopeless, AllocSize, Slots;
    if Ends(start, w, d.numSe) {
      EndsStops(free, align, d, perThread, w, start, works);
    }
  }

  /** Groups of at most two waves an engine always end it. */
  lemma SmallGroupsEnd(start: nat, w: nat, n: nat)
    requires 0 < w <= 2 * n && w < TWO32
    ensures Ends(start, w, n)
  {
    hide Granule, Next;
    CoversIff(2, w, n);
    GranuleDivides(w, n);
    SearchEndsIff(start, w, n);
  }

  /** A device of 11 units with 40 slots each on one engine: its own 440 slots and groups of 16 waves go round for
      ever. */
  lemma SearchCanLoop()
    ensures DeviceSlots(Device(90000, 11, 1, 40)) == 440 && !Ends(440, 16, 1)
  {
    SearchEndsIff(440, 16, 1);
    SixteenDivides();
    assert Next(440, 16, 1) == 424;
  }

  lemma SixteenDivides()
    ensures Granule(16, 1) == 16
  {
    assert Stride(16, 1) == 16 && Lap(16, 1) == TWO32;
    assert Gcd(16, 0) == 16 && Gcd(TWO32, 16) == Gcd(16, TWO32 % 16);
    assert Gcd(16, TWO32) == Gcd(TWO32, 16);
  }

  /** On one engine, with groups of a power of two, it ends if and only if it starts with too few slots or its first
      step down leaves fewer than two above a multiple of the group. */
  lemma OneEngineEndsIff(start: nat, w: nat)
    requires PowerOfTwo(w) && 0 < w < TWO32
    ensures Ends(start, w, 1) <==> start < 2 || Next(start, w, 1) % w < 2
  {
    SearchEndsIff(start, w, 1);
    PowerGranule(w);
    assert Next(start, w, 1) / 1 == Next(start, w, 1);
  }

  lemma PowerGranule(w: nat)
    requires PowerOfTwo(w) && 0 < w < TWO32
    ensures Granule(w, 1) == w
  {
    TwoPowers();
    PowerDivides(w, TWO32);
    assert Stride(w, 1) == w && Lap(w, 1) == TWO32;
    assert Gcd(w, 0) == w && Gcd(TWO32, w) == Gcd(w, TWO32 % w);
    DivModUnique(w, TWO32, 0, w);
    assert Gcd(w, TWO32) == Gcd(TWO32, w);
  }
}
