/** How far the fixed-point transform of os/lib/ifft.c lies from the Fourier sums of the samples. */
module FourierBound {
  import opened Common
  import opened Powers
  import opened Complex
  import Fourier
  import Ifft
  import IfftBounds
  import opened IfftSpec

  /** A point with integer coordinates. */
  function Point(a: int, b: int): Complex { Complex(a as real, b as real) }

  function Samples(re: seq<int>): (x: seq<Complex>)
    ensures |x| == |re| && forall k | 0 <= k < |re| :: x[k] == Point(re[k], 0)
  {
    seq(|re|, k requires 0 <= k < |re| => Point(re[k], 0))
  }

  /** A point at the scale of the table. */
  function Scaled(a: Complex): Complex { Complex(128.0 * a.re, 128.0 * a.im) }

  /** The table values that ifft takes for p of n turns lie within d, at scale 128, of the p-th power of w. */
  predicate Tabled(w: Complex, nu: nat, d: real) {
    forall p {:trigger Power(w, p)} | 0 <= p < Pow2(nu) && 2 * p < Pow2(nu) ::
      Within(Minus(Point(CosI(1000 * p / Pow2(nu)), -SinI(1000 * p / Pow2(nu))), Scaled(Power(w, p))), d)
  }

  // ---- Roots of unity lie on the unit circle ----

  function RealPower(a: real, n: nat): real { if n == 0 then 1.0 else a * RealPower(a, n - 1) }

  lemma {:induction false} NormPower(w: Complex, n: nat)
    ensures Norm(Power(w, n)) == RealPower(Norm(w), n)
  {
    if n > 0 {
      NormPower(w, n - 1);
      NormTimes(w, Power(w, n - 1));
      hide Norm, Times;
    }
  }

  lemma {:induction false} PowerOff(a: real, n: nat)
    requires 0.0 <= a && n > 0
    ensures a < 1.0 ==> 0.0 <= RealPower(a, n) < 1.0
    ensures a > 1.0 ==> RealPower(a, n) > 1.0
  {
    if n == 1 {
      assert RealPower(a, 1) == a * RealPower(a, 0);
    } else {
      var b := RealPower(a, n - 1);
      PowerOff(a, n - 1);
      if a < 1.0 { Product(a, 1.0, b, 1.0); assert a * b <= a by { Product(a, a, b, 1.0); } }
      if a > 1.0 { assert a * b >= a by { Product(a, a, 1.0, b); } }
    }
  }

  lemma OnePower(n: nat)
    ensures RealPower(1.0, n) == 1.0
  { }

  lemma UnitPowers(w: Complex, nu: nat, p: nat)
    requires Fourier.Root(w, nu) && nu > 0
    ensures Within(Power(w, p), 1.0)
  {
    var n, a := Pow2(nu - 1), Norm(w);
    NormPower(w, n);
    assert Norm(Negated(ONE)) == 1.0;
    PowerOff(a, n);
    assert a == 1.0;
    NormPower(w, p);
    OnePower(p);
  }

  // ---- The error of one turn ----

  lemma ScaledWithin(a: Complex, r: real)
    ensures Within(a, r) <==> Within(Scaled(a), 128.0 * r)
  {
    var t := Scaled(a);
    assert t.re * t.re == 16384.0 * (a.re * a.re) && t.im * t.im == 16384.0 * (a.im * a.im);
    assert (128.0 * r) * (128.0 * r) == 16384.0 * (r * r);
  }

  /** What the right shift cuts off. */
  lemma ShiftError(u: int, v: int)
    ensures Within(Minus(Point(u, v), Scaled(Point(u / RESOLUTION, v / RESOLUTION))), 180.0)
  {
    var f, g := u % RESOLUTION, v % RESOLUTION;
    assert u == RESOLUTION * (u / RESOLUTION) + f && v == RESOLUTION * (v / RESOLUTION) + g;
    RemainderSmall(f);
    RemainderSmall(g);
    assert Minus(Point(u, v), Scaled(Point(u / RESOLUTION, v / RESOLUTION))) == Point(f, g);
  }

  lemma RemainderSmall(f: int)
    requires 0 <= f < RESOLUTION
    ensures 0.0 <= f as real * f as real <= 16129.0
  {
    Product(f as real, 127.0, f as real, 127.0);
  }

  /** Turning an approximate point by table values, against turning the exact point by v. */
  lemma TurnError(yr: int, yi: int, exact: Complex, c: int, s: int, v: Complex, b: real, d: real, e: real)
    requires Within(Point(yr, yi), b) && Within(Minus(Point(yr, yi), exact), e)
    requires Within(v, 1.0) && Within(Minus(Point(c, -s), Scaled(v)), d)
    ensures var (tr, ti) := Rotate(yr, yi, c, s);
      Within(Minus(Point(tr, ti), Times(v, exact)), e + (b * d + 180.0) / 128.0)
  {
    var y, t := Point(yr, yi), Point(c, -s);
    var u, w := yr * c + yi * s, yi * c - yr * s;
    var (tr, ti) := Rotate(yr, yi, c, s);
    TimesWithin(y, Minus(t, Scaled(v)), b, d);
    TimesWithin(v, Minus(y, exact), 1.0, e);
    ScaledWithin(Times(v, Minus(y, exact)), 1.0 * e);
    ShiftError(u, w);
    var p, q, f := Times(y, Minus(t, Scaled(v))), Scaled(Times(v, Minus(y, exact))), Minus(Point(u, w), Scaled(Point(tr, ti)));
    Triangle(p, q, b * d, 128.0 * e);
    Triangle(Plus(p, q), f, b * d + 128.0 * e, 180.0);
    TurnSplit(yr, yi, exact, c, s, v);
    var r := e + (b * d + 180.0) / 128.0;
    assert 128.0 * r == b * d + 128.0 * e + 180.0;
    ScaledWithin(Minus(Point(tr, ti), Times(v, exact)), r);
  }

  /** The error, at scale 128, is made of three parts: the table's, the point's, and the shift's. */
  lemma TurnSplit(yr: int, yi: int, exact: Complex, c: int, s: int, v: Complex)
    ensures var y, t := Point(yr, yi), Point(c, -s);
      var (tr, ti) := Rotate(yr, yi, c, s);
      var f := Minus(Point(yr * c + yi * s, yi * c - yr * s), Scaled(Point(tr, ti)));
      Scaled(Minus(Point(tr, ti), Times(v, exact)))
        == Minus(Plus(Times(y, Minus(t, Scaled(v))), Scaled(Times(v, Minus(y, exact)))), f)
  {
    var y, t := Point(yr, yi), Point(c, -s);
    PointTimes(yr, yi, c, s);
    TimesMinus(y, t, Scaled(v));
    TimesMinus(v, y, exact);
    TimesScaled(y, v);
    var (tr, ti) := Rotate(yr, yi, c, s);
    hide Rotate, Times;
    Collected(Times(y, t), Times(v, y), Times(v, exact), Point(tr, ti));
  }

  lemma PointTimes(yr: int, yi: int, c: int, s: int)
    ensures Times(Point(yr, yi), Point(c, -s)) == Point(yr * c + yi * s, yi * c - yr * s)
  {
    assert (yr * c) as real == yr as real * c as real && (yi * s) as real == yi as real * s as real;
    assert (yi * c) as real == yi as real * c as real && (yr * s) as real == yr as real * s as real;
  }

  lemma TimesScaled(y: Complex, v: Complex)
    ensures Times(y, Scaled(v)) == Scaled(Times(v, y))
  { }

  lemma Collected(a: Complex, b: Complex, c: Complex, t: Complex)
    ensures Scaled(Minus(t, c)) == Minus(Plus(Minus(a, Scaled(b)), Scaled(Minus(b, c))), Minus(a, Scaled(t)))
  { }

  // ---- The error of the stages ----

  /** Every bin of x lies within e of its exact value. */
  predicate Near(x: Signal, z: seq<Complex>, e: real) {
    && |x.re| == |x.im| == |z|
    && forall k | 0 <= k < |z| :: Within(Minus(Point(x.re[k], x.im[k]), z[k]), e)
  }

  /** The error after one more stage, for bins within r of the origin before it. */
  function Spread(e: real, r: nat, d: real): real { e + e + (r as real * d + 180.0) / 128.0 }

  lemma WideAt(y: Signal, nu: nat, l: nat, j: nat)
    requires 1 <= l <= nu && Sized(y, Pow2(nu)) && Lower(Pow2(nu - l), j) && j + Pow2(nu - l) < Pow2(nu)
    ensures var h, z := Pow2(nu - l), Stage(y, nu, l, true); var (tr, ti) := Turned(y, nu, h, j);
      && z.re[j] == y.re[j] + tr && z.im[j] == y.im[j] + ti
      && z.re[j + h] == y.re[j] - tr && z.im[j + h] == y.im[j] - ti
  {
    hide Turned, Pow2, Int16;
    Partner(nu, l, j);
    hide Lower;
  }

  /** The exponent of an even block is less than half a turn. */
  lemma HalfTurn(nu: nat, q: nat)
    requires nu > 0 && q % 2 == 0
    ensures 2 * BitRev(q, nu) < Pow2(nu)
  {
    assert BitRev(q, nu) == BitRev(q / 2, nu - 1);
  }

  lemma PointWithin(a: int, b: int, r: nat)
    requires IfftBounds.Within(a, b, r)
    ensures Within(Point(a, b), r as real)
  {
    assert (a * a + b * b) as real <= (r * r) as real;
    assert (a * a) as real == a as real * a as real && (b * b) as real == b as real * b as real && (r * r) as real == r as real * r as real;
  }

  /** One butterfly: the error of both outputs. */
  lemma ButterflyNear(x: Signal, z: seq<Complex>, w: Complex, nu: nat, l: nat, j: nat, r: nat, d: real, e: real)
    requires 1 <= l <= nu && Sized(x, Pow2(nu)) && |z| == Pow2(nu) && Near(x, z, e) && IfftBounds.AllWithin(x, r)
    requires Fourier.Root(w, nu) && Tabled(w, nu, d) && Lower(Pow2(nu - l), j) && j + Pow2(nu - l) < Pow2(nu)
    ensures var h, x', z' := Pow2(nu - l), Stage(x, nu, l, true), Fourier.Stage(z, w, nu, l);
      && Within(Minus(Point(x'.re[j], x'.im[j]), z'[j]), Spread(e, r, d))
      && Within(Minus(Point(x'.re[j + h], x'.im[j + h]), z'[j + h]), Spread(e, r, d))
  {
    hide Lower, Stage, Fourier.Stage, Fourier.Twiddle, Fourier.BlockOf, Times, Pow2, Turned, Within, IfftBounds.AllWithin, Fourier.Root, Tabled;
    var h, t := Pow2(nu - l), e + (r as real * d + 180.0) / 128.0;
    WideAt(x, nu, l, j);
    Fourier.StageAt(z, w, nu, l, j);
    LowerEven(h, j);
    TurnedNear(x, z, w, nu, h, j, r, d, e);
    var (tr, ti) := Turned(x, nu, h, j);
    SumNear(Point(x.re[j], x.im[j]), z[j], Point(tr, ti), Times(Fourier.Twiddle(w, nu, h, j), z[j + h]), e, t);
    PointSum(x.re[j], x.im[j], tr, ti);
  }

  lemma LowerEven(h: nat, j: nat)
    requires h > 0 && Lower(h, j)
    ensures Fourier.BlockOf(j, h) % 2 == 0
  { }

  lemma PointSum(a: int, b: int, c: int, d: int)
    ensures Plus(Point(a, b), Point(c, d)) == Point(a + c, b + d) && Minus(Point(a, b), Point(c, d)) == Point(a - c, b - d)
  { }

  lemma SumNear(x: Complex, z: Complex, t: Complex, v: Complex, e: real, f: real)
    requires Within(Minus(x, z), e) && Within(Minus(t, v), f)
    ensures Within(Minus(Plus(x, t), Plus(z, v)), e + f) && Within(Minus(Minus(x, t), Minus(z, v)), e + f)
  {
    hide Within;
    Triangle(Minus(x, z), Minus(t, v), e, f);
    assert Plus(Minus(x, z), Minus(t, v)) == Minus(Plus(x, t), Plus(z, v));
    assert Minus(Minus(x, z), Minus(t, v)) == Minus(Minus(x, t), Minus(z, v));
  }

  /** The turned bin, against the exact bin times the power of w. */
  lemma TurnedNear(x: Signal, z: seq<Complex>, w: Complex, nu: nat, h: nat, j: nat, r: nat, d: real, e: real)
    requires h > 0 && nu > 0 && Sized(x, Pow2(nu)) && |z| == Pow2(nu) && Near(x, z, e) && IfftBounds.AllWithin(x, r)
    requires Fourier.Root(w, nu) && Tabled(w, nu, d) && Fourier.BlockOf(j, h) % 2 == 0 && j + h < Pow2(nu)
    ensures var (tr, ti) := Turned(x, nu, h, j);
      Within(Minus(Point(tr, ti), Times(Fourier.Twiddle(w, nu, h, j), z[j + h])), e + (r as real * d + 180.0) / 128.0)
  {
    hide Power, BitRev, CosI, SinI, Times, Pow2, Rotate, Within, Tabled, Fourier.Root, Fourier.BlockOf;
    var q := Fourier.BlockOf(j, h);
    var p := BitRev(q, nu);
    HalfTurn(nu, q);
    UnitPowers(w, nu, p);
    PointWithin(x.re[j + h], x.im[j + h], r);
    TabledAt(w, nu, d, p);
    AngleOf(x, nu, h, j);
    hide Turned;
    var angle, v := 1000 * p / Pow2(nu), Power(w, p);
    TurnError(x.re[j + h], x.im[j + h], z[j + h], CosI(angle), SinI(angle), v, r as real, d, e);
  }

  lemma TabledAt(w: Complex, nu: nat, d: real, p: nat)
    requires Tabled(w, nu, d) && p < Pow2(nu) && 2 * p < Pow2(nu)
    ensures 0 <= 1000 * p / Pow2(nu)
    ensures Within(Minus(Point(CosI(1000 * p / Pow2(nu)), -SinI(1000 * p / Pow2(nu))), Scaled(Power(w, p))), d)
  {
    hide Power, CosI, SinI, Within, Pow2;
    Fraction(p, Pow2(nu));
  }

  lemma AngleOf(x: Signal, nu: nat, h: nat, j: nat)
    requires h > 0 && Sized(x, Pow2(nu)) && j + h < Pow2(nu)
    ensures var angle := 1000 * BitRev(Fourier.BlockOf(j, h), nu) / Pow2(nu);
      0 <= angle && Turned(x, nu, h, j) == Rotate(x.re[j + h], x.im[j + h], CosI(angle), SinI(angle))
  {
    Fraction(BitRev(Fourier.BlockOf(j, h), nu), Pow2(nu));
    hide Rotate, CosI, SinI, BitRev, Pow2;
  }

  /** The error that has built up after l stages, for table values within d of the exact ones. */
  function Deviation(l: nat, d: real): real {
    if l == 0 then 0.0 else Spread(Deviation(l - 1, d), IfftBounds.Radius(l - 1), d)
  }

  lemma {:induction false} StagesNear(re: seq<int>, w: Complex, nu: nat, l: nat, d: real)
    requires l <= nu <= 7 && |re| == Pow2(nu) && IfftBounds.Small(re) && Fourier.Root(w, nu) && Tabled(w, nu, d)
    ensures Near(Stages(Signal(re, Fill(0, |re|)), nu, l, true), Fourier.Stages(Samples(re), w, nu, l), Deviation(l, d))
  {
    hide Pow2, Fourier.Root, Tabled, Stage, Fourier.Stage, IfftBounds.Small, Spread, IfftBounds.Radius, IfftBounds.AllWithin;
    if l == 0 {
      forall k | 0 <= k < |re| ensures Within(Minus(Point(re[k], 0), Samples(re)[k]), 0.0) { }
    } else {
      var x, z := Stages(Signal(re, Fill(0, |re|)), nu, l - 1, true), Fourier.Stages(Samples(re), w, nu, l - 1);
      var e, r := Deviation(l - 1, d), IfftBounds.Radius(l - 1);
      StagesNear(re, w, nu, l - 1, d);
      IfftBounds.StagesWithin(re, nu, l - 1);
      var x', z' := Stage(x, nu, l, true), Fourier.Stage(z, w, nu, l);
      forall k | 0 <= k < Pow2(nu) ensures Within(Minus(Point(x'.re[k], x'.im[k]), z'[k]), Spread(e, r, d)) {
        var j := Fourier.LowerPartner(nu, l, k);
        hide Lower;
        ButterflyNear(x, z, w, nu, l, j, r, d, e);
      }
    }
  }

  /** The deviation in closed form. */
  lemma {:induction false} DeviationIs(l: nat, d: real)
    requires d >= 0.0
    ensures 0.0 <= Deviation(l, d) <= (Pow2(l) as real * (65.0 * l as real * d + 180.0) - 180.0) / 128.0
  {
    hide IfftBounds.Radius;
    if l > 0 {
      DeviationIs(l - 1, d);
      var p, q := Pow2(l - 1) as real, (l - 1) as real;
      var r := IfftBounds.Radius(l - 1) as real;
      assert Pow2(l) as real == 2.0 * p && l as real == q + 1.0;
      DeviationStep(p, q, r, d, Deviation(l - 1, d));
      assert Deviation(l, d) == Deviation(l - 1, d) + Deviation(l - 1, d) + (r * d + 180.0) / 128.0;
      hide Deviation, Pow2;
    } else {
      assert Pow2(0) == 1;
    }
  }

  lemma DeviationStep(p: real, q: real, r: real, d: real, e: real)
    requires p >= 1.0 && q >= 0.0 && r == 130.0 * p - 2.0 && d >= 0.0 && 0.0 <= e <= (p * (65.0 * q * d + 180.0) - 180.0) / 128.0
    ensures 0.0 <= e + e + (r * d + 180.0) / 128.0 <= (2.0 * p * (65.0 * (q + 1.0) * d + 180.0) - 180.0) / 128.0
  {
    assert 2.0 * p * (65.0 * (q + 1.0) * d + 180.0) == 2.0 * (p * (65.0 * q * d + 180.0)) + 130.0 * p * d;
    assert r * d == 130.0 * p * d - 2.0 * d;
  }

  // ---- The spectrum ----

  function RealAbs(x: real): real { if x < 0.0 then -x else x }

  lemma AbsNear(a: int, b: int, z: Complex, e: real)
    requires Within(Minus(Point(a, b), z), e)
    ensures RealAbs((Abs(a) + Abs(b)) as real - (RealAbs(z.re) + RealAbs(z.im))) <= 1.5 * e
  {
    var u, v := RealAbs(a as real - z.re), RealAbs(b as real - z.im);
    assert u * u == (a as real - z.re) * (a as real - z.re) && v * v == (b as real - z.im) * (b as real - z.im);
    assert (u + v) * (u + v) + (u - v) * (u - v) == 2.0 * (u * u + v * v);
    assert (u - v) * (u - v) >= 0.0;
    assert (u + v) * (u + v) <= (1.5 * e) * (1.5 * e);
    SquareLess(u + v, 1.5 * e);
  }

  /**
   * The transform of eight-bit samples, in sixteen-bit arithmetic, for any root of unity w whose powers the table values
   * approximate within d: before the last loop every bin lies within the deviation of its Fourier sum, and the lower half
   * of the result are magnitudes |re| + |im| within one and a half times that.
   */
  lemma SpectrumClose(re: seq<int>, w: Complex, nu: nat, d: real, k: nat)
    requires nu <= 7 && |re| == Pow2(nu) && IfftBounds.Small(re) && Fourier.Root(w, nu) && Tabled(w, nu, d) && d >= 0.0 && k < Pow2(nu)
    ensures var out, bin, e := Transform(re, nu, false), Fourier.Bin(Samples(re), w, k), Deviation(nu, d);
      && 0.0 <= e <= (Pow2(nu) as real * (65.0 * nu as real * d + 180.0) - 180.0) / 128.0
      && (if k < Pow2(nu) / 2 then RealAbs(out.re[k] as real - (RealAbs(bin.re) + RealAbs(bin.im))) <= 1.5 * e
          else Within(Minus(Point(out.re[k], out.im[k]), bin), e))
      && RealAbs(out.im[k] as real - bin.im) <= e
  {
    hide Deviation, Fourier.Root, Tabled, IfftBounds.Small, Stages, Fourier.Bin, BitRev, Within, Pow2, Transform, RealAbs, Abs;
    var x, q, e := Stages(Signal(re, Fill(0, |re|)), nu, nu, true), BitRev(k, nu), Deviation(nu, d);
    DeviationIs(nu, d);
    BinNear(re, w, nu, d, k);
    IfftBounds.TransformExact(re, nu);
    TransformAt(re, nu, k);
    AbsNear(x.re[q], x.im[q], Fourier.Bin(Samples(re), w, k), e);
    ImagNear(x.re[q], x.im[q], Fourier.Bin(Samples(re), w, k), e);
  }

  /** Every output of the last stage lies within the deviation of its Fourier sum. */
  lemma BinNear(re: seq<int>, w: Complex, nu: nat, d: real, k: nat)
    requires nu <= 7 && |re| == Pow2(nu) && IfftBounds.Small(re) && Fourier.Root(w, nu) && Tabled(w, nu, d) && k < Pow2(nu)
    ensures var x, q := Stages(Signal(re, Fill(0, |re|)), nu, nu, true), BitRev(k, nu);
      Within(Minus(Point(x.re[q], x.im[q]), Fourier.Bin(Samples(re), w, k)), Deviation(nu, d))
  {
    hide Deviation, Fourier.Root, Tabled, IfftBounds.Small, Stages, Fourier.Stages, Fourier.Bin, BitRev, Within, Pow2;
    StagesNear(re, w, nu, nu, d);
    Fourier.NetworkIsFourier(Samples(re), w, nu, k);
  }

  lemma ImagNear(a: int, b: int, z: Complex, e: real)
    requires Within(Minus(Point(a, b), z), e)
    ensures RealAbs(b as real - z.im) <= e
  {
    assert (a as real - z.re) * (a as real - z.re) >= 0.0;
    SquareLess(b as real - z.im, e);
  }

  lemma TransformAt(re: seq<int>, nu: nat, k: nat)
    requires |re| == Pow2(nu) && k < Pow2(nu)
    ensures var x, q, out := Stages(Signal(re, Fill(0, |re|)), nu, nu, true), BitRev(k, nu), Transform(re, nu, true);
      && |out.re| == |out.im| == Pow2(nu) && out.im[k] == x.im[q]
      && out.re[k] == if k < Pow2(nu) / 2 then Abs(x.re[q]) + Abs(x.im[q]) else x.re[q]
  {
    hide Stages, BitRev;
    assert nu == 0 || Pow2(nu) == 2 * Pow2(nu - 1);
    hide Pow2;
  }

  // ---- Four and eight points ----

  /** The root for four points. */
  const MINUS_I := Complex(0.0, -1.0)

  lemma PowersOfMinusI()
    ensures Power(MINUS_I, 0) == ONE && Power(MINUS_I, 1) == MINUS_I
    ensures Power(MINUS_I, 2) == Negated(ONE) && Power(MINUS_I, 3) == Complex(0.0, 1.0)
  {
    hide Power, Times;
    PowerNext(MINUS_I, 0);
    PowerNext(MINUS_I, 1);
    PowerNext(MINUS_I, 2);
    TimesMinusI(ONE);
    TimesMinusI(MINUS_I);
    TimesMinusI(Negated(ONE));
  }

  lemma TimesMinusI(a: Complex)
    ensures Times(MINUS_I, a) == Complex(a.im, -a.re)
  { }

  lemma PowerNext(w: Complex, n: nat)
    ensures Power(w, n + 1) == Times(w, Power(w, n)) && Power(w, 0) == ONE
  { }

  lemma QuarterValues()
    ensures CosI(0) == 127 && SinI(0) == 0 && CosI(250) == 0 && SinI(250) == 127
  {
    IfftBounds.QuarterTurns(0);
    hide SinTab;
    assert SIN_TAB_LEN * 250 / 1000 == 30 && SIN_TAB_LEN * 500 / 1000 == 60;
  }

  lemma Pow2Four()
    ensures Pow2(1) == 2 && Pow2(2) == 4
  {
    assert Pow2(1) == 2 * Pow2(0);
  }

  /** For four points the table is off by one unit. */
  lemma FourTabled()
    ensures Fourier.Root(MINUS_I, 2) && Tabled(MINUS_I, 2, 1.0)
  {
    PowersOfMinusI();
    QuarterValues();
    Pow2Four();
    hide Power, CosI, SinI, Pow2;
    forall p | 0 <= p < Pow2(2) && 2 * p < Pow2(2)
      ensures Within(Minus(Point(CosI(1000 * p / Pow2(2)), -SinI(1000 * p / Pow2(2))), Scaled(Power(MINUS_I, p))), 1.0)
    {
      if p == 0 { assert 1000 * p / Pow2(2) == 0; } else { assert p == 1 && 1000 * p / Pow2(2) == 250; }
    }
  }

  lemma BinStep(x: seq<Complex>, w: Complex, k: nat, j: nat)
    requires j < |x|
    ensures Fourier.Bin(x[..j + 1], w, k) == Plus(Fourier.Bin(x[..j], w, k), Times(x[j], Power(w, j * k)))
  {
    assert x[..j + 1][..j] == x[..j];
    hide Times, Power, Plus;
  }

  lemma BinOfFour(x: seq<Complex>, w: Complex, k: nat)
    requires |x| == 4
    ensures Fourier.Bin(x, w, k) == Plus(Plus(Plus(Times(x[0], ONE), Times(x[1], Power(w, k))), Times(x[2], Power(w, 2 * k))), Times(x[3], Power(w, 3 * k)))
  {
    BinStep(x, w, k, 0);
    BinStep(x, w, k, 1);
    BinStep(x, w, k, 2);
    BinStep(x, w, k, 3);
    assert x[..0] == [] && x[..4] == x;
    assert Power(w, 0 * k) == ONE;
    hide Times, Power;
  }

  lemma FourBins(a: int, b: int, c: int, d: int)
    ensures Fourier.Bin(Samples([a, b, c, d]), MINUS_I, 0) == Point(a + b + c + d, 0)
    ensures Fourier.Bin(Samples([a, b, c, d]), MINUS_I, 1) == Point(a - c, d - b)
  {
    hide Power, Fourier.Bin, Times;
    var x := Samples([a, b, c, d]);
    BinOfFour(x, MINUS_I, 0);
    BinOfFour(x, MINUS_I, 1);
    PowersOfMinusI();
    TimesQuarters(a);
    TimesQuarters(b);
    TimesQuarters(c);
    TimesQuarters(d);
  }

  lemma TimesQuarters(a: int)
    ensures Times(Point(a, 0), ONE) == Point(a, 0) && Times(Point(a, 0), MINUS_I) == Point(0, -a)
    ensures Times(Point(a, 0), Negated(ONE)) == Point(-a, 0) && Times(Point(a, 0), Complex(0.0, 1.0)) == Point(0, a)
  { }

  lemma AbsReal(x: int)
    ensures RealAbs(x as real) == Abs(x) as real
  { }

  /** The spectrum of any four samples: |a + b + c + d|, and |a - c| + |b - d|, up to 13 units. */
  lemma FourPoints(a: int, b: int, c: int, d: int)
    requires IfftBounds.Small([a, b, c, d])
    ensures Pow2(2) == 4
    ensures var out := Transform([a, b, c, d], 2, false);
      && -13 <= out.re[0] - Abs(a + b + c + d) <= 13
      && -13 <= out.re[1] - (Abs(a - c) + Abs(b - d)) <= 13
  {
    Pow2Four();
    FourTabled();
    hide Fourier.Root, Tabled, IfftBounds.Small, Transform, Deviation, Fourier.Bin, Within, Pow2;
    FourBins(a, b, c, d);
    FourBin(a, b, c, d, 0);
    FourBin(a, b, c, d, 1);
    AbsReal(a + b + c + d);
    AbsReal(0);
    AbsReal(a - c);
    AbsReal(d - b);
    hide RealAbs;
  }

  lemma FourBin(a: int, b: int, c: int, d: int, k: nat)
    requires IfftBounds.Small([a, b, c, d]) && k < 2
    ensures var out, bin := Transform([a, b, c, d], 2, false), Fourier.Bin(Samples([a, b, c, d]), MINUS_I, k);
      k < |out.re| && -13.0 <= out.re[k] as real - (RealAbs(bin.re) + RealAbs(bin.im)) <= 13.0
  {
    Pow2Four();
    FourTabled();
    hide Fourier.Root, Tabled, IfftBounds.Small, Transform, Deviation, Fourier.Bin, Within, Pow2;
    SpectrumClose([a, b, c, d], MINUS_I, 2, 1.0, k);
  }

  lemma RootOfHalf(r: real)
    requires r > 0.0 && r * r == 0.5
    ensures 0.707 <= r <= 0.7072
  {
    if r < 0.707 { SquareMore(0.707, r); }
    if r > 0.7072 { SquareMore(r, 0.7072); }
  }

  lemma EighthPowers(r: real)
    requires r * r == 0.5
    ensures var w := Complex(r, -r);
      Power(w, 0) == ONE && Power(w, 1) == w && Power(w, 2) == MINUS_I && Power(w, 3) == Complex(-r, -r) && Power(w, 4) == Negated(ONE)
  {
    hide Power;
    var w := Complex(r, -r);
    PowerNext(w, 0);
    PowerNext(w, 1);
    PowerNext(w, 2);
    PowerNext(w, 3);
    TimesOne(w);
    assert Times(w, w) == MINUS_I;
    assert Times(w, MINUS_I) == Complex(-r, -r);
    assert Times(w, Complex(-r, -r)) == Negated(ONE);
  }

  lemma EighthValues()
    ensures CosI(125) == 90 && SinI(125) == 90 && CosI(375) == -90 && SinI(375) == 90
  {
    EighthEntries();
    hide SinTab;
    assert SIN_TAB_LEN * 125 / 1000 == 15 && SIN_TAB_LEN * 375 / 1000 == 45 && SIN_TAB_LEN * 625 / 1000 == 75;
  }

  lemma EighthEntries()
    ensures SinTab(15) == 90 && SinTab(45) == 90 && SinTab(75) == -90
  { }

  /** For eight points w is an eighth of a turn, and the table is off by one unit as well. */
  lemma EightTabled(r: real)
    requires r > 0.0 && r * r == 0.5
    ensures Fourier.Root(Complex(r, -r), 3) && Tabled(Complex(r, -r), 3, 1.0)
  {
    EighthPowers(r);
    RootOfHalf(r);
    EightWithin(r);
    Pow2Four();
    hide Power, Within;
    TabledByEights(Complex(r, -r));
  }

  lemma EightWithin(r: real)
    requires 0.707 <= r <= 0.7072
    ensures Within(Minus(Point(127, 0), Scaled(ONE)), 1.0) && Within(Minus(Point(90, -90), Scaled(Complex(r, -r))), 1.0)
    ensures Within(Minus(Point(0, -127), Scaled(MINUS_I)), 1.0) && Within(Minus(Point(-90, -90), Scaled(Complex(-r, -r))), 1.0)
  {
    hide Within;
    var x := 90.0 - 128.0 * r;
    WithinOne();
    WithinBox(x, -x);
    WithinBox(-x, -x);
    assert Minus(Point(90, -90), Scaled(Complex(r, -r))) == Complex(x, -x);
    assert Minus(Point(-90, -90), Scaled(Complex(-r, -r))) == Complex(-x, -x);
  }

  lemma WithinOne()
    ensures Within(Complex(-1.0, 0.0), 1.0) && Within(Complex(0.0, 1.0), 1.0)
  { }

  lemma SquareBox(x: real)
    requires -0.6 <= x <= 0.6
    ensures x * x <= 0.36
  {
    if x >= 0.0 {
      Product(x, 0.6, x, 0.6);
    } else {
      Product(-x, 0.6, -x, 0.6);
      assert (-x) * (-x) == x * x;
    }
  }

  lemma WithinBox(x: real, y: real)
    requires -0.6 <= x <= 0.6 && -0.6 <= y <= 0.6
    ensures Within(Complex(x, y), 1.0)
  {
    SquareBox(x);
    SquareBox(y);
  }

  lemma TabledByEights(w: Complex)
    requires Within(Minus(Point(127, 0), Scaled(Power(w, 0))), 1.0) && Within(Minus(Point(90, -90), Scaled(Power(w, 1))), 1.0)
    requires Within(Minus(Point(0, -127), Scaled(Power(w, 2))), 1.0) && Within(Minus(Point(-90, -90), Scaled(Power(w, 3))), 1.0)
    ensures Tabled(w, 3, 1.0)
  {
    hide Power, CosI, SinI, Within, Pow2, Scaled, Minus, Point;
    EighthValues();
    QuarterValues();
    assert Pow2(3) == 8 by { Pow2Eight(); }
    forall p | 0 <= p < Pow2(3) && 2 * p < Pow2(3)
      ensures Within(Minus(Point(CosI(1000 * p / Pow2(3)), -SinI(1000 * p / Pow2(3))), Scaled(Power(w, p))), 1.0)
    {
      EightAt(p);
    }
  }

  lemma Pow2Eight()
    ensures Pow2(3) == 8
  {
    Pow2Four();
  }

  lemma EightAt(p: nat)
    requires p < 4
    ensures p == 0 || p == 1 || p == 2 || p == 3
    ensures 1000 * p / 8 == 125 * p
  { }
}
