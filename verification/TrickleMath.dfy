/** Clock arithmetic and doubling intervals of os/lib/trickle-timer.c. */
module TrickleMath {
  import opened Powers

  /** Width of clock_time_t in bits. */
  type Width = w: nat | w == 16 || w == 32 witness 16
  const WIDTH: Width

  const HALF: int := Pow2(WIDTH - 1)
  const MODULUS: int := 2 * HALF

  /** A value of clock_time_t. */
  predicate Word(x: int) { 0 <= x < MODULUS }

  /** Unsigned addition and subtraction of clock_time_t. */
  function Add(a: int, b: int): int { if a + b >= MODULUS then a + b - MODULUS else a + b }
  function Sub(a: int, b: int): int { if a >= b then a - b else a - b + MODULUS }

  /** The word `a` is what the clock shows at the unbounded time t. */
  ghost predicate Shows(a: int, t: int) { Word(a) && exists q: int {:trigger Turns(q)} :: Turns(q) == t - a }

  /** q full turns of the clock. */
  function Turns(q: int): int { q * MODULUS }

  lemma ShowsWord(a: int, t: int)
    requires Shows(a, t)
    ensures Word(a)
  { }

  lemma HalfIsLess()
    ensures 0 < HALF < MODULUS
  { }

  lemma ShowsAdd(a: int, t: int, d: int)
    requires Shows(a, t) && 0 <= d < MODULUS
    ensures Shows(Add(a, d), t + d)
  {
    var q :| Turns(q) == t - a;
    assert Turns(q + 1) == Turns(q) + MODULUS;
    assert Turns(q) == t + d - (a + d);
  }

  /** The difference of two clock readings is the difference of the times, if that lies within half a turn. */
  lemma ShowsDifference(a: int, t: int, b: int, u: int)
    requires Shows(a, t) && Shows(b, u) && -HALF <= t - u < HALF
    ensures Sub(a, b) == if t >= u then t - u else t - u + MODULUS
  {
    var q :| Turns(q) == t - a;
    var r :| Turns(r) == u - b;
    var k := q - r;
    assert Turns(k) == (t - u) - (a - b) by { assert Turns(k) == Turns(q) - Turns(r); }
    TurnsBound(k);
  }

  lemma TurnsBound(k: int)
    requires -2 * MODULUS < Turns(k) < 2 * MODULUS
    ensures -1 <= k <= 1 && Turns(-1) == -MODULUS && Turns(0) == 0 && Turns(1) == MODULUS
  {
    assert k >= 2 ==> k * MODULUS >= 2 * MODULUS;
    assert k <= -2 ==> k * MODULUS <= -2 * MODULUS;
  }

  // ---- The largest number of doublings ----

  /** n is the largest number of doublings of iMin that stays within half a turn of a w-bit clock. */
  ghost predicate LargestDoublings(w: nat, iMin: nat, n: nat)
    requires w > 0
  {
    iMin * Pow2(n) <= Pow2(w - 1) && iMin * Pow2(n + 1) > Pow2(w - 1)
  }

  /** z is the number of leading zeros of v in w bits. */
  predicate LeadingZeros(w: nat, v: nat, z: nat)
    requires w > 0
  {
    Pow2(w - 1) <= v * Pow2(z) < Pow2(w)
  }

  /** v, shifted left by z bits, still has its top bit within the lowest w bits, and not below bit w - i. */
  predicate Shifted(w: nat, v: nat, z: nat, i: nat, value: nat)
    requires i <= w
  {
    value == v * Pow2(z) && Pow2(w - i) <= value < Pow2(w)
  }

  lemma Assoc(a: int, b: int, c: int)
    ensures a * b * c == a * (b * c) && a * b == b * a
  { }

  /** One test of the count: with the top i bits clear, i more zeros are counted and shifted out. */
  lemma CountStep(w: nat, v: nat, z: nat, i: nat, value: nat)
    requires 0 < i && 2 * i <= w && Shifted(w, v, z, 2 * i, value)
    ensures value < Pow2(w - i) ==> Shifted(w, v, z + i, i, value * Pow2(i)) && value * Pow2(i) < Pow2(w)
    ensures value >= Pow2(w - i) ==> Shifted(w, v, z, i, value)
  {
    Pow2Sum(w - i, i);
    Pow2Sum(w - 2 * i, i);
    Pow2Sum(z, i);
    hide Pow2;
    var p, q, r := Pow2(i), Pow2(w - i), Pow2(w - 2 * i);
    Assoc(v, Pow2(z), p);
    Scale(r, value, p);
    Scale(q, value, p);
  }

  /** The leading zeros of Imin - 1, less one, are the doublings that fit. */
  lemma ZerosToDoublings(w: nat, iMin: nat, z: nat)
    requires 0 < z <= w && iMin > 0 && LeadingZeros(w, iMin - 1, z)
    ensures LargestDoublings(w, iMin, z - 1)
  {
    var p, q := Pow2(z - 1), Pow2(w - z);
    Pow2Sum(z - 1, w - z);
    assert Pow2(z) == 2 * p && Pow2(w) == 2 * Pow2(w - 1) && Pow2(w - 1) == p * q;
    hide Pow2;
    Doublings(iMin, p, q);
  }

  lemma Commute(a: int, b: int)
    ensures a * b == b * a
  { }

  lemma Doublings(iMin: nat, p: nat, q: nat)
    requires p > 0 && iMin > 0 && p * q <= (iMin - 1) * (2 * p) < 2 * (p * q)
    ensures iMin * p <= p * q < iMin * (2 * p)
  {
    Twice(iMin - 1, p);
    Twice(iMin, p);
    Scale(q, iMin - 1, p);
    Scale(iMin - 1, 0, p);
    Scale(iMin, q, p);
    Commute(p, q);
  }

  predicate PowerOfTwo(x: nat, e: nat) { x == Pow2(e) }

  /** With 2^(w-1) == p * r, an Imin whose top bit ends up at the top after shifting by p is at least r, and r is a power of two. */
  lemma TopBit(iMin: nat, p: nat, r: nat)
    requires p > 0 && p * r <= iMin * p < 2 * (p * r)
    ensures r <= iMin < 2 * r && (iMin * p == p * r <==> iMin == r)
  {
    Assoc(p, r, 1);
    Scale(r, iMin, p);
    Scale(iMin, r, p);
    Scale(2 * r, iMin, p);
    assert 2 * (p * r) == 2 * r * p;
  }

  /** Between two neighbouring powers of two there is only the lower one. */
  lemma PowersBetween(x: nat, f: nat)
    requires Pow2(f) <= x < 2 * Pow2(f)
    ensures (exists e :: PowerOfTwo(x, e)) <==> x == Pow2(f)
  {
    if x == Pow2(f) { assert PowerOfTwo(x, f); }
    if e: nat :| PowerOfTwo(x, e) {
      if e <= f { Pow2Mono(e, f); } else { Pow2Mono(f + 1, e); }
    }
  }

  /** Without the decrement the count is one short exactly for powers of two. */
  lemma ZerosWithoutDecrement(w: nat, iMin: nat, z: nat)
    requires 0 < z < w && iMin > 0 && LeadingZeros(w, iMin, z)
    ensures LargestDoublings(w, iMin, z - 1) <==> !(exists e :: PowerOfTwo(iMin, e))
    ensures (exists e :: PowerOfTwo(iMin, e)) ==> LargestDoublings(w, iMin, z)
  {
    var h, p, f := Pow2(z - 1), Pow2(z), w - 1 - z;
    Pow2Sum(z, f);
    assert Pow2(w) == 2 * Pow2(w - 1) && p == 2 * h && Pow2(z + 1) == 2 * p;
    hide Pow2;
    TopBit(iMin, p, Pow2(f));
    PowersBetween(iMin, f);
    hide PowerOfTwo;
    Twice(iMin, h);
    Twice(iMin, p);
  }

  lemma Twice(a: nat, b: nat)
    ensures a * (2 * b) == 2 * (a * b)
  { }

  lemma SmallRemainder(x: nat, m: nat)
    requires x < m
    ensures x % m == x
  { }

  // ---- Masks ----

  /** The masks test for the values below a power of two; the generic routine shifts its mask to the same ones. */
  lemma Masks16(v: bv16)
    ensures (v & 0xFF00 == 0) == (v < 0x100) && (v & 0xF000 == 0) == (v < 0x1000)
    ensures (v & 0xC000 == 0) == (v < 0x4000) && (v & 0x8000 == 0) == (v < 0x8000)
    ensures (0xFFFF as bv16) << 8 == 0xFF00 && (0xFF00 as bv16) << 4 == 0xF000
    ensures (0xF000 as bv16) << 2 == 0xC000 && (0xC000 as bv16) << 1 == 0x8000
  { }

  lemma Masks32(v: bv32)
    ensures (v & 0xFFFF0000 == 0) == (v < 0x10000) && (v & 0xFF000000 == 0) == (v < 0x1000000)
    ensures (v & 0xF0000000 == 0) == (v < 0x10000000) && (v & 0xC0000000 == 0) == (v < 0x40000000)
    ensures (v & 0x80000000 == 0) == (v < 0x80000000)
    ensures (0xFFFF as bv32) << 16 == 0xFFFF0000 && (0xFFFF0000 as bv32) << 8 == 0xFF000000
    ensures (0xFF000000 as bv32) << 4 == 0xF0000000 && (0xF0000000 as bv32) << 2 == 0xC0000000
    ensures (0xC0000000 as bv32) << 1 == 0x80000000
  { }

  // ---- Intervals ----

  function Min(a: int, b: int): int { if a <= b then a else b }

  function Max(a: int, b: int): int { if a >= b then a else b }

  /** Length of the n-th interval after a start with length `first`: doubled n times, up to iMax. */
  function Length(first: nat, iMax: nat, n: nat): nat { Min(Pow2(n) * first, iMax) }

  /** Total length of the first n intervals. */
  function Total(first: nat, iMax: nat, n: nat): nat {
    if n == 0 then 0 else Total(first, iMax, n - 1) + Length(first, iMax, n - 1)
  }

  /** The doubling rule of double_interval yields the next length. */
  lemma NextLength(first: nat, iMax: nat, n: nat)
    requires first > 0
    ensures Length(first, iMax, n + 1) == if Length(first, iMax, n) <= iMax / 2 then 2 * Length(first, iMax, n) else iMax
  {
    assert Pow2(n + 1) * first == 2 * (Pow2(n) * first);
  }

  lemma TotalStep(first: nat, iMax: nat, n: nat)
    ensures Total(first, iMax, n + 1) == Total(first, iMax, n) + Length(first, iMax, n)
  { }

  /** Where the next interval starts, on both clocks, and how long it is. */
  lemma NextInterval(first: nat, iMax: nat, n: nat, origin: int, start: int, iMin: nat)
    requires 0 < iMin <= first && iMin <= Length(first, iMax, n) <= iMax < MODULUS && Shows(start, origin + Total(first, iMax, n))
    ensures var cur := Length(first, iMax, n);
      && Total(first, iMax, n + 1) == Total(first, iMax, n) + cur
      && Word(Add(start, cur)) && Shows(Add(start, cur), origin + Total(first, iMax, n + 1))
      && Length(first, iMax, n + 1) == (if cur <= iMax / 2 then 2 * cur else iMax) && iMin <= Length(first, iMax, n + 1) <= iMax
  {
    var cur := Length(first, iMax, n);
    TotalStep(first, iMax, n);
    NextLength(first, iMax, n);
    hide Total, Length, Shows;
    ShowsAdd(start, origin + Total(first, iMax, n), cur);
    ShowsWord(Add(start, cur), origin + Total(first, iMax, n) + cur);
  }

  /** The test of TRICKLE_TIMER_IPAIR_IS_BAD says whether Imin, doubled n times, stays within half a turn. */
  lemma PairTest(iMin: nat, n: nat)
    requires iMin >= 2
    ensures (MODULUS - 1) / Pow2(n + 1) < iMin - 1 <==> iMin * Pow2(n) > HALF
  {
    if n + 1 < WIDTH { PairTestInside(iMin, n); } else { PairTestBeyond(iMin, n); }
  }

  /** From the width of the clock on, the shift leaves nothing, and no Imin fits. */
  lemma PairTestBeyond(iMin: nat, n: nat)
    requires iMin >= 2 && n + 1 >= WIDTH
    ensures (MODULUS - 1) / Pow2(n + 1) == 0 && iMin * Pow2(n) > HALF
  {
    Pow2Mono(WIDTH - 1, n);
    assert Pow2(n + 1) == 2 * Pow2(n);
    var p := Pow2(n);
    hide Pow2;
    Quotient(MODULUS - 1, 2 * p, 0, MODULUS - 1);
    Scale(2, iMin, p);
  }

  lemma PairTestInside(iMin: nat, n: nat)
    requires iMin >= 2 && n + 1 < WIDTH
    ensures (MODULUS - 1) / Pow2(n + 1) < iMin - 1 <==> iMin * Pow2(n) > HALF
  {
    var p, q := Pow2(n), Pow2(WIDTH - 1 - n);
    Pow2Sum(n, WIDTH - 1 - n);
    assert Pow2(n + 1) == 2 * p && HALF == p * q && MODULUS == 2 * HALF;
    hide Pow2;
    PairTestIn(iMin, p, q);
  }

  lemma PairTestIn(iMin: nat, p: nat, q: nat)
    requires iMin > 0 && p > 0
    ensures (2 * (p * q) - 1) / (2 * p) < iMin - 1 <==> iMin * p > p * q
  {
    assert 2 * (p * q) - 1 == (q - 1) * (2 * p) + (2 * p - 1);
    Quotient(2 * (p * q) - 1, 2 * p, q - 1, 2 * p - 1);
    Scale(iMin, q, p);
    Assoc(p, q, 1);
  }

  lemma FittingPair(iMin: nat, n: nat)
    requires iMin * Pow2(n) <= HALF
    ensures iMin <= iMin * Pow2(n) && iMin * Pow2(n) % MODULUS == iMin * Pow2(n)
  {
    var p := Pow2(n);
    hide Pow2;
    assert iMin <= iMin * p;
    SmallRemainder(iMin * p, MODULUS);
  }

  lemma LargestFits(iMin: nat, n: nat)
    requires LargestDoublings(WIDTH, iMin, n)
    ensures iMin * Pow2(n) <= HALF
  { }

  lemma FewerDoublings(iMin: nat, n: nat, m: nat)
    requires iMin * Pow2(n) > HALF && LargestDoublings(WIDTH, iMin, m)
    ensures m < n
  {
    if n <= m {
      Pow2Mono(n, m);
      ScaleLeft(Pow2(n), Pow2(m), iMin);
    }
  }

  lemma ScaleLeft(a: nat, b: nat, c: nat)
    requires a <= b
    ensures c * a <= c * b
  { }
}
