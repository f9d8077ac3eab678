/** The butterfly network of os/lib/ifft.c in exact complex arithmetic: its outputs are Fourier sums. */
module Fourier {
  import opened Powers
  import opened Complex
  import IfftSpec
  import Ifft

  /** Bin k of the discrete Fourier transform of x with root w: the sum of x(j) w^(jk) over all j. */
  function Bin(x: seq<Complex>, w: Complex, k: nat): Complex {
    if x == [] then ZERO
    else var j := |x| - 1; Plus(Bin(x[..j], w, k), Times(x[j], Power(w, j * k)))
  }

  /** Halfway round, the powers of w have come to minus one. */
  predicate Root(w: Complex, nu: nat) { nu > 0 ==> Power(w, Pow2(nu - 1)) == Negated(ONE) }

  // ---- The network ----

  /** The block of width h that index k lies in, and its place there. */
  function BlockOf(k: nat, h: nat): nat
    requires h > 0
  {
    k / h
  }

  function PlaceIn(k: nat, h: nat): (r: nat)
    requires h > 0
    ensures r < h
  {
    k % h
  }

  /** The power of w that turns index k in blocks of width h. */
  function Twiddle(w: Complex, nu: nat, h: nat, k: nat): Complex
    requires h > 0
  {
    Power(w, IfftSpec.BitRev(BlockOf(k, h), nu))
  }

  function Butterfly(x: seq<Complex>, w: Complex, nu: nat, h: nat, k: nat): Complex
    requires h > 0 && k < |x| && if IfftSpec.Lower(h, k) then k + h < |x| else h <= k
  {
    if IfftSpec.Lower(h, k) then Plus(x[k], Times(Twiddle(w, nu, h, k), x[k + h]))
    else Minus(x[k - h], Times(Twiddle(w, nu, h, k - h), x[k]))
  }

  /** Stage l: index k of an even block q is joined with the same index of block q + 1, turned by w^BitRev(q). */
  function Stage(x: seq<Complex>, w: Complex, nu: nat, l: nat): (y: seq<Complex>)
    requires 1 <= l <= nu && |x| == Pow2(nu)
    ensures |y| == Pow2(nu)
  {
    seq(Pow2(nu), k requires 0 <= k < Pow2(nu) => IfftSpec.Partner(nu, l, k); Butterfly(x, w, nu, Pow2(nu - l), k))
  }

  function Stages(x: seq<Complex>, w: Complex, nu: nat, l: nat): (y: seq<Complex>)
    requires l <= nu && |x| == Pow2(nu)
    ensures |y| == Pow2(nu)
  {
    if l == 0 then x else Stage(Stages(x, w, nu, l - 1), w, nu, l)
  }

  // ---- Polynomials, and their even and odd parts ----

  /** The polynomial with coefficients c at v. */
  function Poly(c: seq<Complex>, v: Complex): Complex {
    if c == [] then ZERO
    else var n := |c| - 1; Plus(Poly(c[..n], v), Times(c[n], Power(v, n)))
  }

  function Even(c: seq<Complex>, n: nat): (r: seq<Complex>)
    requires |c| == 2 * n
    ensures |r| == n && forall t | 0 <= t < n :: r[t] == c[2 * t]
  {
    seq(n, t requires 0 <= t < n => c[2 * t])
  }

  function Odd(c: seq<Complex>, n: nat): (r: seq<Complex>)
    requires |c| == 2 * n
    ensures |r| == n && forall t | 0 <= t < n :: r[t] == c[2 * t + 1]
  {
    seq(n, t requires 0 <= t < n => c[2 * t + 1])
  }

  /** P(v) = E(v^2) + v O(v^2). */
  lemma {:induction false} PolySplit(c: seq<Complex>, v: Complex, n: nat)
    requires |c| == 2 * n
    ensures Poly(c, v) == Plus(Poly(Even(c, n), Times(v, v)), Times(v, Poly(Odd(c, n), Times(v, v))))
    decreases n
  {
    if n > 0 {
      var front, a, b, s := c[..2 * n - 2], c[2 * n - 2], c[2 * n - 1], Times(v, v);
      PolySplit(front, v, n - 1);
      assert Even(c, n)[..n - 1] == Even(front, n - 1) && Odd(c, n)[..n - 1] == Odd(front, n - 1);
      assert c[..2 * n - 1][..2 * n - 2] == front;
      SquarePower(v, n - 1);
      var e, o, p := Poly(Even(front, n - 1), s), Poly(Odd(front, n - 1), s), Power(s, n - 1);
      assert Poly(c, v) == Plus(Plus(Poly(front, v), Times(a, p)), Times(b, Times(v, p)));
      hide Poly, Power, Even, Odd;
      AddTerms(v, e, o, a, b, p);
    }
  }

  lemma SquarePower(v: Complex, n: nat)
    ensures Power(Times(v, v), n) == Power(v, 2 * n) && Power(v, 2 * n + 1) == Times(v, Power(v, 2 * n))
  {
    hide Times;
    PowerProduct(v, 2, n);
    TimesOne(v);
    assert Power(v, 1) == Times(v, Power(v, 0));
    assert Power(v, 2) == Times(v, Power(v, 1));
  }

  lemma AddTerms(v: Complex, e: Complex, o: Complex, a: Complex, b: Complex, p: Complex)
    ensures Plus(Plus(Plus(e, Times(v, o)), Times(a, p)), Times(b, Times(v, p)))
      == Plus(Plus(e, Times(a, p)), Times(v, Plus(o, Times(b, p))))
  {
    hide Times;
    TimesPlus(v, o, Times(b, p));
    TimesAssoc(b, v, p);
    TimesCommutes(b, v);
    TimesAssoc(v, b, p);
  }

  // ---- What each stage computes ----

  lemma StrideIn(m: nat, n: nat, j: nat, t: nat)
    requires j < m && t < n
    ensures 0 <= j + m * t < m * n
  {
    Scale(t + 1, n, m);
    Scale(t, 0, m);
  }

  /** n blocks of width m make up len entries. */
  predicate Covers(m: nat, n: nat, len: nat) { m * n == len }

  /** Every m-th entry of x from j on. */
  function Strided(x: seq<Complex>, m: nat, j: nat, n: nat): (r: seq<Complex>)
    requires j < m && Covers(m, n, |x|)
    ensures |r| == n
  {
    seq(n, t requires 0 <= t < n => StrideIn(m, n, j, t); x[j + m * t])
  }

  lemma StridedAt(x: seq<Complex>, m: nat, j: nat, n: nat, t: nat)
    requires j < m && Covers(m, n, |x|) && t < n
    ensures 0 <= j + m * t < |x| && Strided(x, m, j, n)[t] == x[j + m * t]
  {
    StrideIn(m, n, j, t);
  }

  lemma Doubled(m: nat, n: nat)
    ensures m * (2 * n) == 2 * m * n
  { }

  lemma EvenIndex(m: nat, j: nat, t: nat)
    ensures j + m * (2 * t) == j + 2 * m * t && j + m * (2 * t + 1) == j + m + 2 * m * t
  { }

  lemma StridedSplit(x: seq<Complex>, m: nat, j: nat, n: nat)
    requires j < m && Covers(m, 2 * n, |x|) && Covers(2 * m, n, |x|)
    ensures Even(Strided(x, m, j, 2 * n), n) == Strided(x, 2 * m, j, n)
    ensures Odd(Strided(x, m, j, 2 * n), n) == Strided(x, 2 * m, j + m, n)
  {
    var c := Strided(x, m, j, 2 * n);
    var e, o := Strided(x, 2 * m, j, n), Strided(x, 2 * m, j + m, n);
    hide Strided;
    forall t | 0 <= t < n ensures c[2 * t] == e[t] && c[2 * t + 1] == o[t] {
      EvenIndex(m, j, t);
      StridedAt(x, m, j, 2 * n, 2 * t);
      StridedAt(x, m, j, 2 * n, 2 * t + 1);
      StridedAt(x, 2 * m, j, n, t);
      StridedAt(x, 2 * m, j + m, n, t);
    }
  }

  /** Cutting a block in two halves its exponent, and the second half goes on half a turn further. */
  lemma RevPair(b: nat, nu: nat)
    requires nu > 0 && b < Pow2(nu - 1)
    ensures 2 * IfftSpec.BitRev(2 * b, nu) == IfftSpec.BitRev(b, nu)
    ensures IfftSpec.BitRev(2 * b + 1, nu) == IfftSpec.BitRev(2 * b, nu) + Pow2(nu - 1)
  {
    Ifft.TopBit(false, b, nu - 1);
    assert 2 * b / 2 == b && (2 * b + 1) / 2 == b && 2 * b % 2 == 0 && (2 * b + 1) % 2 == 1;
  }

  /** The powers of w for the two halves of block b. */
  lemma Twiddles(w: Complex, b: nat, nu: nat)
    requires nu > 0 && b < Pow2(nu - 1) && Root(w, nu)
    ensures var v := Power(w, IfftSpec.BitRev(2 * b, nu));
      Times(v, v) == Power(w, IfftSpec.BitRev(b, nu)) && Power(w, IfftSpec.BitRev(2 * b + 1, nu)) == Negated(v)
  {
    RevPair(b, nu);
    hide IfftSpec.BitRev, Pow2, Power;
    var r := IfftSpec.BitRev(2 * b, nu);
    PowerSum(w, r, r);
    PowerSum(w, r, Pow2(nu - 1));
  }

  /** The polynomial of a block at plus or minus v. */
  lemma Halves(x: seq<Complex>, m: nat, j: nat, n: nat, v: Complex)
    requires j < m && Covers(m, 2 * n, |x|) && Covers(2 * m, n, |x|)
    ensures var a, b := Poly(Strided(x, 2 * m, j, n), Times(v, v)), Poly(Strided(x, 2 * m, j + m, n), Times(v, v));
      && Poly(Strided(x, m, j, 2 * n), v) == Plus(a, Times(v, b))
      && Poly(Strided(x, m, j, 2 * n), Negated(v)) == Minus(a, Times(v, b))
  {
    var c := Strided(x, m, j, 2 * n);
    StridedSplit(x, m, j, n);
    hide Strided, Poly, Even, Odd;
    PolySplit(c, v, n);
    PolySplit(c, Negated(v), n);
    TimesNegated(v, v);
    TimesNegated(v, Poly(Odd(c, n), Times(v, v)));
  }

  lemma TimesNegated(v: Complex, b: Complex)
    ensures Times(Negated(v), Negated(b)) == Times(v, b) && Times(Negated(v), b) == Negated(Times(v, b))
  { }

  /** What stage l leaves at index k: the polynomial of every m-th sample, m = 2^(nu-l), at the power of its block. */
  function BlockValue(x: seq<Complex>, w: Complex, nu: nat, l: nat, k: nat): Complex
    requires l <= nu && |x| == Pow2(nu)
  {
    var m := Pow2(nu - l);
    Pow2Sum(nu - l, l);
    Poly(Strided(x, m, PlaceIn(k, m), Pow2(l)), Twiddle(w, nu, m, k))
  }

  lemma PolyOne(c: Complex, v: Complex)
    ensures Poly([c], v) == c
  {
    TimesOne(c);
    assert Power(v, 0) == ONE;
    assert [c][..0] == [];
  }

  lemma AtBlock(x: nat, h: nat, q: nat, r: nat)
    requires h > 0 && x == q * h + r && r < h
    ensures BlockOf(x, h) == q && PlaceIn(x, h) == r
  {
    Quotient(x, h, q, r);
    DivParts(x, h);
  }

  lemma StartValue(x: seq<Complex>, w: Complex, nu: nat, k: nat)
    requires |x| == Pow2(nu) && k < Pow2(nu)
    ensures BlockValue(x, w, nu, 0, k) == x[k]
  {
    var n := Pow2(nu);
    AtBlock(k, n, 0, k);
    assert Pow2(0) == 1;
    StridedAt(x, n, k, 1, 0);
    assert Strided(x, n, k, 1) == [x[k]];
    PolyOne(x[k], Twiddle(w, nu, n, k));
  }

  /** Entry r of block 2b of width h and entry r of block 2b + 1 are entries r and r + h of block b of width 2h. */
  lemma SharedBlock(h: nat, b: nat, r: nat)
    requires r < h
    ensures var k := 2 * b * h + r;
      && BlockOf(k, h) == 2 * b && PlaceIn(k, h) == r && BlockOf(k, 2 * h) == b && PlaceIn(k, 2 * h) == r
      && BlockOf(k + h, h) == 2 * b + 1 && PlaceIn(k + h, h) == r && BlockOf(k + h, 2 * h) == b && PlaceIn(k + h, 2 * h) == r + h
  {
    var k := 2 * b * h + r;
    hide BlockOf, PlaceIn;
    assert 2 * b * h == b * (2 * h) && (2 * b + 1) * h == 2 * b * h + h;
    AtBlock(k, h, 2 * b, r);
    AtBlock(k, 2 * h, b, r);
    AtBlock(k + h, h, 2 * b + 1, r);
    AtBlock(k + h, 2 * h, b, r + h);
  }

  /** An index of an even block, taken apart. */
  lemma LowerParts(h: nat, k: nat) returns (b: nat, r: nat)
    requires h > 0 && IfftSpec.Lower(h, k)
    ensures k == 2 * b * h + r && r < h
  {
    b, r := k / h / 2, k % h;
    DivParts(k, h);
    assert k / h == 2 * b;
  }

  /** One butterfly takes the values of stage l - 1 to those of stage l. */
  lemma StepValues(x: seq<Complex>, w: Complex, nu: nat, l: nat, k: nat)
    requires 1 <= l <= nu && |x| == Pow2(nu) && Root(w, nu)
    requires IfftSpec.Lower(Pow2(nu - l), k) && k + Pow2(nu - l) < Pow2(nu)
    ensures var h := Pow2(nu - l);
      var a, b := BlockValue(x, w, nu, l - 1, k), Times(Twiddle(w, nu, h, k), BlockValue(x, w, nu, l - 1, k + h));
      BlockValue(x, w, nu, l, k) == Plus(a, b) && BlockValue(x, w, nu, l, k + h) == Minus(a, b)
  {
    var h, n := Pow2(nu - l), Pow2(l - 1);
    Sizes(nu, l);
    var b, r := LowerPlaces(nu, l, k);
    hide IfftSpec.Lower, BlockValue, Twiddle, Root, BlockOf, PlaceIn, Covers, Times, Pow2;
    StepParts(x, w, nu, l, k, k + h, h, n, b, r);
  }

  /** Where the two indices of a butterfly lie before and after stage l. */
  lemma LowerPlaces(nu: nat, l: nat, k: nat) returns (b: nat, r: nat)
    requires 1 <= l <= nu && IfftSpec.Lower(Pow2(nu - l), k) && k < Pow2(nu)
    ensures b < Pow2(nu - 1) && r < Pow2(nu - l)
    ensures var h := Pow2(nu - l);
      && BlockOf(k, h) == 2 * b && PlaceIn(k, h) == r && BlockOf(k, 2 * h) == b && PlaceIn(k, 2 * h) == r
      && BlockOf(k + h, h) == 2 * b + 1 && PlaceIn(k + h, h) == r && BlockOf(k + h, 2 * h) == b && PlaceIn(k + h, 2 * h) == r + h
  {
    hide BlockOf, PlaceIn;
    b, r := LowerParts(Pow2(nu - l), k);
    SharedBlock(Pow2(nu - l), b, r);
    hide IfftSpec.Lower;
    BlockBelow(nu, l, b, r, k);
  }

  lemma Sizes(nu: nat, l: nat)
    requires 1 <= l <= nu
    ensures var h, n := Pow2(nu - l), Pow2(l - 1);
      Pow2(nu - (l - 1)) == 2 * h && Pow2(l) == 2 * n && Covers(h, 2 * n, Pow2(nu)) && Covers(2 * h, n, Pow2(nu))
  {
    Pow2Sum(nu - l, l);
    Doubled(Pow2(nu - l), Pow2(l - 1));
  }

  lemma StepParts(x: seq<Complex>, w: Complex, nu: nat, l: nat, k: nat, k': nat, h: nat, n: nat, b: nat, r: nat)
    requires 1 <= l <= nu && |x| == Pow2(nu) && Covers(h, 2 * n, |x|) && Covers(2 * h, n, |x|) && Root(w, nu) && b < Pow2(nu - 1)
    requires h == Pow2(nu - l) && 2 * h == Pow2(nu - (l - 1)) && n == Pow2(l - 1) && 2 * n == Pow2(l) && r < h
    requires BlockOf(k, h) == 2 * b && PlaceIn(k, h) == r && BlockOf(k, 2 * h) == b && PlaceIn(k, 2 * h) == r
    requires BlockOf(k', h) == 2 * b + 1 && PlaceIn(k', h) == r && BlockOf(k', 2 * h) == b && PlaceIn(k', 2 * h) == r + h
    ensures var a, t := BlockValue(x, w, nu, l - 1, k), Times(Twiddle(w, nu, h, k), BlockValue(x, w, nu, l - 1, k'));
      BlockValue(x, w, nu, l, k) == Plus(a, t) && BlockValue(x, w, nu, l, k') == Minus(a, t)
  {
    hide Pow2, BlockValue, Twiddle, BlockOf, PlaceIn, Covers, Root, IfftSpec.BitRev, Poly, Strided, Power, Times;
    ValueAt(x, w, nu, l, k, h, 2 * b, r, 2 * n);
    ValueAt(x, w, nu, l, k', h, 2 * b + 1, r, 2 * n);
    ValueAt(x, w, nu, l - 1, k, 2 * h, b, r, n);
    ValueAt(x, w, nu, l - 1, k', 2 * h, b, r + h, n);
    Twiddles(w, b, nu);

    Halves(x, h, r, n, Power(w, IfftSpec.BitRev(2 * b, nu)));
  }

  lemma ValueAt(x: seq<Complex>, w: Complex, nu: nat, l: nat, k: nat, m: nat, q: nat, r: nat, n: nat)
    requires l <= nu && |x| == Pow2(nu) && Covers(m, n, |x|) && m == Pow2(nu - l) && n == Pow2(l)
    requires BlockOf(k, m) == q && PlaceIn(k, m) == r
    ensures r < m && BlockValue(x, w, nu, l, k) == Poly(Strided(x, m, r, n), Power(w, IfftSpec.BitRev(q, nu)))
    ensures Twiddle(w, nu, m, k) == Power(w, IfftSpec.BitRev(q, nu))
  { }

  lemma BlockBelow(nu: nat, l: nat, b: nat, r: nat, k: nat)
    requires 1 <= l <= nu && k == 2 * b * Pow2(nu - l) + r < Pow2(nu)
    ensures b < Pow2(nu - 1)
  {
    assert Pow2(nu) == 2 * Pow2(nu - 1);
    AtLeastOnce(2 * b, Pow2(nu - l));
  }

  lemma AtLeastOnce(a: nat, h: nat)
    requires h >= 1
    ensures a * h >= a
  {
    NonNegative(a, h - 1);
    assert a * h == a * (h - 1) + a;
  }

  lemma {:induction false} StageValue(x: seq<Complex>, w: Complex, nu: nat, l: nat, k: nat)
    requires l <= nu && |x| == Pow2(nu) && Root(w, nu) && k < Pow2(nu)
    ensures Stages(x, w, nu, l)[k] == BlockValue(x, w, nu, l, k)
    decreases l
  {
    hide BlockValue, Twiddle, Root, Times, Pow2, Stage, IfftSpec.Lower;
    if l == 0 {
      StartValue(x, w, nu, k);
    } else {
      var h, y := Pow2(nu - l), Stages(x, w, nu, l - 1);
      assert Stages(x, w, nu, l) == Stage(y, w, nu, l);
      hide Stages;
      var j := LowerPartner(nu, l, k);
      StageValue(x, w, nu, l - 1, j);
      StageValue(x, w, nu, l - 1, j + h);
      StepValues(x, w, nu, l, j);
      StageAt(y, w, nu, l, j);
    }
  }

  /** The lower index of the butterfly of stage l that k takes part in. */
  lemma LowerPartner(nu: nat, l: nat, k: nat) returns (j: nat)
    requires 1 <= l <= nu && k < Pow2(nu)
    ensures var h := Pow2(nu - l); IfftSpec.Lower(h, j) && j + h < Pow2(nu) && (k == j || k == j + h)
  {
    IfftSpec.Partner(nu, l, k);
    var h := Pow2(nu - l);
    j := if IfftSpec.Lower(h, k) then k else k - h;
    hide IfftSpec.Lower, Pow2;
  }

  lemma StageAt(y: seq<Complex>, w: Complex, nu: nat, l: nat, j: nat)
    requires 1 <= l <= nu && |y| == Pow2(nu) && IfftSpec.Lower(Pow2(nu - l), j) && j + Pow2(nu - l) < Pow2(nu)
    ensures var h := Pow2(nu - l); var t := Times(Twiddle(w, nu, h, j), y[j + h]);
      Stage(y, w, nu, l)[j] == Plus(y[j], t) && Stage(y, w, nu, l)[j + h] == Minus(y[j], t)
  {
    IfftSpec.Partner(nu, l, j);
    hide IfftSpec.Lower, Twiddle, Times, Pow2;
  }

  // ---- The Fourier sum ----

  lemma {:induction false} PolyIsBin(x: seq<Complex>, w: Complex, k: nat)
    ensures Poly(x, Power(w, k)) == Bin(x, w, k)
    decreases |x|
  {
    if x != [] {
      var j := |x| - 1;
      PolyIsBin(x[..j], w, k);
      PowerProduct(w, k, j);
      assert k * j == j * k;
      hide Power, Times;
    }
  }

  lemma EndValue(x: seq<Complex>, w: Complex, nu: nat, q: nat)
    requires |x| == Pow2(nu) && q < Pow2(nu)
    ensures BlockValue(x, w, nu, nu, q) == Poly(x, Power(w, IfftSpec.BitRev(q, nu)))
  {
    var n := Pow2(nu);
    assert Pow2(0) == 1 && Covers(1, n, n);
    AtBlock(q, 1, q, 0);
    ValueAt(x, w, nu, nu, q, 1, q, 0, n);
    hide BlockValue, Twiddle, Poly, Power, BlockOf, PlaceIn;
    forall t | 0 <= t < n ensures Strided(x, 1, 0, n)[t] == x[t] { StridedAt(x, 1, 0, n, t); }
    assert Strided(x, 1, 0, n) == x;
  }

  /** All stages, read in bit-reversed order, are the discrete Fourier transform. */
  lemma NetworkIsFourier(x: seq<Complex>, w: Complex, nu: nat, k: nat)
    requires |x| == Pow2(nu) && Root(w, nu) && k < Pow2(nu)
    ensures Stages(x, w, nu, nu)[IfftSpec.BitRev(k, nu)] == Bin(x, w, k)
  {
    var q := IfftSpec.BitRev(k, nu);
    hide Stages, Poly, Bin, Power, BlockValue, IfftSpec.BitRev, Root;
    StageValue(x, w, nu, nu, q);
    EndValue(x, w, nu, q);
    Ifft.BitRevInvolution(k, nu);
    PolyIsBin(x, w, k);
  }
}
