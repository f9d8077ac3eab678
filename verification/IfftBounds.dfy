/** Eight-bit samples never overflow the sixteen-bit arithmetic of transforms of up to 128 points. */
module IfftBounds {
  import opened Common
  import opened Powers
  import opened IfftSpec

  // ---- The table ----

  lemma HalfTurnLow(j: nat)
    requires j < 30
    ensures SinTab(j + 60) == -SinTab(j)
  { }

  lemma HalfTurnHigh(j: nat)
    requires 30 <= j < 60
    ensures SinTab(j + 60) == -SinTab(j)
  { }

  lemma Mirror(j: nat)
    requires j <= 30
    ensures SinTab(60 - j) == SinTab(j)
  { }

  lemma EighthTurn(j: nat)
    requires j <= 15
    ensures SinTab(j) * SinTab(j) + SinTab(30 - j) * SinTab(30 - j) <= RESOLUTION * RESOLUTION
  { }

  /** cos^2 + sin^2 never exceeds one. */
  lemma UnitCircle(j: nat)
    requires j < SIN_TAB_LEN
    ensures SinTab(j) * SinTab(j) + SinTab((j + 30) % SIN_TAB_LEN) * SinTab((j + 30) % SIN_TAB_LEN) <= RESOLUTION * RESOLUTION
  {
    hide SinTab;
    if j >= 60 {
      UnitCircle(j - 60);
      if j < 90 { HalfTurnLow(j - 60); HalfTurnHigh(j - 30); } else { HalfTurnHigh(j - 60); HalfTurnLow(j - 90); }
    } else if j >= 30 {
      UnitCircle(j - 30);
      HalfTurnLow(j - 30);
    } else {
      Mirror(30 - j);
      if j <= 15 { EighthTurn(j); } else { EighthTurn(30 - j); }
    }
  }

  /** The quarters of a turn, and the way up to the first one. */
  lemma QuarterTurns(j: nat)
    requires j < 30
    ensures SinTab(0) == 0 && SinTab(30) == 127 && SinTab(60) == 0 && SinTab(90) == -127
    ensures 0 <= SinTab(j) <= SinTab(j + 1) <= 127
  { }

  lemma EighthTurnFull(j: nat)
    requires j <= 15
    ensures SinTab(j) * SinTab(j) + SinTab(30 - j) * SinTab(30 - j) >= 126 * 126
  { }

  lemma DoubleLow(j: nat)
    requires j <= 15
    ensures -143 <= 127 * SinTab(2 * j) - 2 * SinTab(j) * SinTab(30 - j) <= 143
  { }

  /** In the first quarter cos^2 + sin^2 never falls below (126/128)^2, and sin(2a) is 2 sin(a) cos(a) up to 143/127 units. */
  lemma FirstQuarter(j: nat)
    requires j <= 30
    ensures SinTab(j) * SinTab(j) + SinTab(j + 30) * SinTab(j + 30) >= 126 * 126
    ensures -143 <= 127 * SinTab(2 * j) - 2 * SinTab(j) * SinTab(j + 30) <= 143
  {
    hide SinTab;
    var i := if j <= 15 then j else 30 - j;
    Mirror(30 - j);
    EighthTurnFull(i);
    DoubleLow(i);
    if j > 15 { Mirror(2 * i); }
    assert 2 * SinTab(j) * SinTab(j + 30) == 2 * (SinTab(j) * SinTab(j + 30));
    assert 2 * SinTab(i) * SinTab(30 - i) == 2 * (SinTab(i) * SinTab(30 - i));
    assert SinTab(j) * SinTab(30 - j) == SinTab(30 - j) * SinTab(j);
  }

  lemma UnitAngle(angle: nat)
    ensures CosI(angle) * CosI(angle) + SinI(angle) * SinI(angle) <= RESOLUTION * RESOLUTION
  {
    hide SinTab;
    var q := SIN_TAB_LEN * angle / 1000;
    assert SIN_TAB_LEN * (angle + 250) / 1000 == q + 30;
    assert (q % SIN_TAB_LEN + 30) % SIN_TAB_LEN == (q + 30) % SIN_TAB_LEN;
    UnitCircle(q % SIN_TAB_LEN);
  }

  // ---- Vectors in the plane ----

  /** The point (a, b) lies within distance r of the origin. */
  predicate Within(a: int, b: int, r: int) { 0 <= r && a * a + b * b <= r * r }

  lemma SquareMono(a: nat, b: nat)
    requires b < a
    ensures b * b < a * a
  {
    assert b * b <= b * a < a * a;
  }

  lemma SquareLess(a: int, b: int)
    requires 0 <= b && a * a <= b * b
    ensures -b <= a <= b
  {
    if a > b { SquareMono(a, b); }
    if -a > b { SquareMono(-a, b); }
  }

  /** Cauchy-Schwarz in the plane. */
  lemma Dot(a: int, b: int, c: int, d: int, p: int, q: int)
    requires Within(a, b, p) && Within(c, d, q)
    ensures a * c + b * d <= p * q
  {
    var dot, cross, u, v := a * c + b * d, a * d - b * c, a * a + b * b, c * c + d * d;
    Lagrange(a, b, c, d);
    assert dot * dot <= u * v by { assert cross * cross >= 0; }
    assert u * v <= (p * p) * (q * q) by { Product(u, p * p, v, q * q); }
    assert (p * p) * (q * q) == (p * q) * (p * q);
    assert p * q >= 0;
    SquareLess(dot, p * q);
  }

  lemma Lagrange(a: int, b: int, c: int, d: int)
    ensures (a * c + b * d) * (a * c + b * d) + (a * d - b * c) * (a * d - b * c) == (a * a + b * b) * (c * c + d * d)
  { }

  lemma Product(u: int, u': int, v: int, v': int)
    requires 0 <= u <= u' && 0 <= v <= v'
    ensures u * v <= u' * v'
  { }

  lemma Triangle(a: int, b: int, c: int, d: int, p: int, q: int)
    requires Within(a, b, p) && Within(c, d, q)
    ensures Within(a + c, b + d, p + q)
  {
    Dot(a, b, c, d, p, q);
    assert (a + c) * (a + c) + (b + d) * (b + d) == a * a + b * b + c * c + d * d + 2 * (a * c + b * d);
    assert (p + q) * (p + q) == p * p + q * q + 2 * (p * q);
  }

  // ---- One butterfly ----

  /** Table values turn a vector without making it longer, at scale 128. */
  lemma RotatedWithin(yr: int, yi: int, c: int, s: int, b: nat)
    requires Within(yr, yi, b) && c * c + s * s <= RESOLUTION * RESOLUTION
    ensures Within(yr * c + yi * s, yi * c - yr * s, RESOLUTION * b)
  {
    Rotation(yr, yi, c, s);
    assert 0 <= yr * yr && 0 <= yi * yi && 0 <= c * c && 0 <= s * s;
    Product(yr * yr + yi * yi, b * b, c * c + s * s, RESOLUTION * RESOLUTION);
    assert (b * b) * (RESOLUTION * RESOLUTION) == (RESOLUTION * b) * (RESOLUTION * b);
  }

  /** The shift by RESOLUTION moves a vector by less than 180/128. */
  lemma RoundedWithin(u: int, v: int, r: nat)
    requires Within(u, v, r)
    ensures Within(RESOLUTION * (u / RESOLUTION), RESOLUTION * (v / RESOLUTION), r + 180)
  {
    var eu, ev := u % RESOLUTION, v % RESOLUTION;
    RemainderSquare(eu);
    RemainderSquare(ev);
    assert (-eu) * (-eu) == eu * eu && (-ev) * (-ev) == ev * ev;
    Triangle(u, v, -eu, -ev, r, 180);
    assert RESOLUTION * (u / RESOLUTION) == u + -eu && RESOLUTION * (v / RESOLUTION) == v + -ev;
  }

  lemma RemainderSquare(e: int)
    requires 0 <= e < RESOLUTION
    ensures e * e <= 127 * 127
  { }

  lemma Rotation(a: int, b: int, c: int, s: int)
    ensures (a * c + b * s) * (a * c + b * s) + (b * c - a * s) * (b * c - a * s) == (a * a + b * b) * (c * c + s * s)
  { }

  lemma ScaledWithin(a: int, b: int, r: nat, r': nat)
    requires Within(RESOLUTION * a, RESOLUTION * b, r') && r' <= RESOLUTION * r
    ensures Within(a, b, r)
  {
    SquareLeq(r', RESOLUTION * r);
    assert (RESOLUTION * a) * (RESOLUTION * a) == 16384 * (a * a);
    assert (RESOLUTION * b) * (RESOLUTION * b) == 16384 * (b * b);
    assert (RESOLUTION * r) * (RESOLUTION * r) == 16384 * (r * r);
  }

  lemma SquareLeq(a: nat, b: nat)
    requires a <= b
    ensures a * a <= b * b
  {
    if a < b { SquareMono(b, a); }
  }

  /** A butterfly at most doubles the radius, plus two for the rounding. */
  lemma ButterflyWithin(xr: int, xi: int, yr: int, yi: int, c: int, s: int, b: nat)
    requires Within(xr, xi, b) && Within(yr, yi, b) && c * c + s * s <= RESOLUTION * RESOLUTION
    ensures var (tr, ti) := Rotate(yr, yi, c, s);
      Within(xr + tr, xi + ti, 2 * b + 2) && Within(xr - tr, xi - ti, 2 * b + 2)
  {
    var (tr, ti) := Rotate(yr, yi, c, s);
    RotatedWithin(yr, yi, c, s, b);
    RoundedWithin(yr * c + yi * s, yi * c - yr * s, RESOLUTION * b);
    hide Within;
    SumWithin(xr, xi, tr, ti, b);
    NegatedWithin(RESOLUTION * tr, RESOLUTION * ti, RESOLUTION * b + 180);
    SumWithin(xr, xi, -tr, -ti, b);
  }

  lemma NegatedWithin(a: int, b: int, r: int)
    requires Within(a, b, r)
    ensures Within(-a, -b, r)
  {
    assert (-a) * (-a) == a * a && (-b) * (-b) == b * b;
  }

  lemma SumWithin(xr: int, xi: int, tr: int, ti: int, b: nat)
    requires Within(xr, xi, b) && Within(RESOLUTION * tr, RESOLUTION * ti, RESOLUTION * b + 180)
    ensures Within(xr + tr, xi + ti, 2 * b + 2)
  {
    ScaledUp(xr, xi, b);
    hide Within;
    Triangle(RESOLUTION * xr, RESOLUTION * xi, RESOLUTION * tr, RESOLUTION * ti, RESOLUTION * b, RESOLUTION * b + 180);
    ScaledWithin(xr + tr, xi + ti, 2 * b + 2, 2 * (RESOLUTION * b) + 180);
  }

  lemma ScaledUp(a: int, b: int, r: nat)
    requires Within(a, b, r)
    ensures Within(RESOLUTION * a, RESOLUTION * b, RESOLUTION * r)
  {
    assert (RESOLUTION * a) * (RESOLUTION * a) == 16384 * (a * a);
    assert (RESOLUTION * b) * (RESOLUTION * b) == 16384 * (b * b);
    assert (RESOLUTION * r) * (RESOLUTION * r) == 16384 * (r * r);
  }

  // ---- Whole transforms ----

  /** The radius that holds every value after l stages. */
  function Radius(l: nat): (r: nat)
    ensures r == 130 * Pow2(l) - 2
  {
    if l == 0 then 128 else 2 * Radius(l - 1) + 2
  }

  predicate AllWithin(x: Signal, r: int)
    requires |x.re| == |x.im|
  {
    forall k | 0 <= k < |x.re| :: Within(x.re[k], x.im[k], r)
  }

  /** Eight-bit samples, or a bit more. */
  predicate Small(re: seq<int>) { forall k | 0 <= k < |re| :: -128 <= re[k] <= 128 }

  lemma ButterflyStays(x: Signal, nu: nat, h: nat, j: nat, r: nat)
    requires h > 0 && Sized(x, Pow2(nu)) && AllWithin(x, r) && j + h < Pow2(nu)
    ensures var (tr, ti) := Turned(x, nu, h, j);
      Within(x.re[j] + tr, x.im[j] + ti, 2 * r + 2) && Within(x.re[j] - tr, x.im[j] - ti, 2 * r + 2)
  {
    hide Within, SinTab, SinI, CosI, Rotate, Angle;
    var angle := Angle(j / h, nu);
    UnitAngle(angle);
    ButterflyWithin(x.re[j], x.im[j], x.re[j + h], x.im[j + h], CosI(angle), SinI(angle), r);
  }

  lemma StageWithin(x: Signal, nu: nat, l: nat, k: nat)
    requires 1 <= l <= nu && Sized(x, Pow2(nu)) && AllWithin(x, Radius(l - 1)) && k < Pow2(nu)
    ensures Within(Stage(x, nu, l, true).re[k], Stage(x, nu, l, true).im[k], Radius(l))
  {
    hide Within, Turned, AllWithin, Lower;
    var h := Pow2(nu - l);
    Partner(nu, l, k);
    ButterflyStays(x, nu, h, if Lower(h, k) then k else k - h, Radius(l - 1));
  }

  /** The int16_t stores of a stage change nothing as long as the exact results fit. */
  lemma StageExact(x: Signal, nu: nat, l: nat, k: nat)
    requires 1 <= l <= nu && Sized(x, Pow2(nu)) && k < Pow2(nu)
    requires Int16(Stage(x, nu, l, true).re[k]) == Stage(x, nu, l, true).re[k] && Int16(Stage(x, nu, l, true).im[k]) == Stage(x, nu, l, true).im[k]
    ensures Stage(x, nu, l, false).re[k] == Stage(x, nu, l, true).re[k] && Stage(x, nu, l, false).im[k] == Stage(x, nu, l, true).im[k]
  {
    hide Turned, Lower, Int16;
    Partner(nu, l, k);
  }

  lemma Parallelogram(u: int, v: int)
    ensures (u + v) * (u + v) <= 2 * (u * u + v * v)
  {
    assert (u + v) * (u + v) + (u - v) * (u - v) == 2 * (u * u + v * v);
    assert (u - v) * (u - v) >= 0;
  }

  lemma SumWithin16638(a: int, b: int)
    requires Within(a, b, 16638)
    ensures Abs(a) + Abs(b) <= 23530
  {
    var u, v := Abs(a), Abs(b);
    assert u * u == a * a && v * v == b * b;
    Parallelogram(u, v);
    SquareLess(u + v, 23530);
  }

  /** Values within the radius of stage 7 fit sixteen bits, and so does |re| + |im|. */
  lemma FitsInt16(a: int, b: int, l: nat)
    requires l <= 7 && Within(a, b, Radius(l))
    ensures Int16(a) == a && Int16(b) == b && Int16(Abs(a) + Abs(b)) == Abs(a) + Abs(b) <= 23530
  {
    Pow2Mono(l, 7);
    assert Pow2(7) == 128;
    SquareLeq(Radius(l), 16638);
    SumWithin16638(a, b);
  }

  /** After l stages every bin lies within the radius of stage l, and no sixteen-bit store has changed a value. */
  lemma {:induction false} StagesWithin(re: seq<int>, nu: nat, l: nat)
    requires l <= nu <= 7 && |re| == Pow2(nu) && Small(re)
    ensures AllWithin(Stages(Signal(re, Fill(0, |re|)), nu, l, true), Radius(l))
    ensures Stages(Signal(re, Fill(0, |re|)), nu, l, false) == Stages(Signal(re, Fill(0, |re|)), nu, l, true)
  {
    hide Stage, Int16, Within, Radius;
    var x := Signal(re, Fill(0, |re|));
    if l == 0 {
      forall k | 0 <= k < |re| ensures Within(re[k], 0, Radius(0)) { SmallWithin(re[k]); }
    } else {
      StagesWithin(re, nu, l - 1);
      var y := Stages(x, nu, l - 1, true);
      forall k | 0 <= k < Pow2(nu)
        ensures Within(Stage(y, nu, l, true).re[k], Stage(y, nu, l, true).im[k], Radius(l))
        ensures Stage(y, nu, l, false).re[k] == Stage(y, nu, l, true).re[k] && Stage(y, nu, l, false).im[k] == Stage(y, nu, l, true).im[k]
      {
        StageWithin(y, nu, l, k);
        FitsInt16(Stage(y, nu, l, true).re[k], Stage(y, nu, l, true).im[k], l);
        StageExact(y, nu, l, k);
      }
    }
  }

  lemma SmallWithin(a: int)
    requires -128 <= a <= 128
    ensures Within(a, 0, Radius(0))
  {
    SquareLeq(Abs(a), 128);
  }

  /** The transform of eight-bit samples in sixteen-bit arithmetic is the transform in exact integers. */
  lemma TransformExact(re: seq<int>, nu: nat)
    requires nu <= 7 && |re| == Pow2(nu) && Small(re)
    ensures Transform(re, nu, false) == Transform(re, nu, true)
    ensures forall k | 0 <= k < Pow2(nu) / 2 :: 0 <= Transform(re, nu, true).re[k] <= 23530
  {
    hide Stages, Int16, Within, Radius;
    StagesWithin(re, nu, nu);
    var y := Stages(Signal(re, Fill(0, |re|)), nu, nu, true);
    var z := Reordered(y, nu);
    forall k | 0 <= k < Pow2(nu)
      ensures Int16(Abs(z.re[k]) + Abs(z.im[k])) == Abs(z.re[k]) + Abs(z.im[k]) <= 23530
    {
      var p := BitRev(k, nu);
      FitsInt16(y.re[p], y.im[p], nu);
    }
    assert Magnitudes(z, nu, false).re == Magnitudes(z, nu, true).re;
  }
}
