/** Complex numbers over the reals, their powers, and distances in the plane. */
module Complex {

  datatype Complex = Complex(re: real, im: real)

  const ZERO := Complex(0.0, 0.0)
  const ONE := Complex(1.0, 0.0)

  function Plus(a: Complex, b: Complex): Complex { Complex(a.re + b.re, a.im + b.im) }

  function Minus(a: Complex, b: Complex): Complex { Complex(a.re - b.re, a.im - b.im) }

  function Times(a: Complex, b: Complex): Complex { Complex(a.re * b.re - a.im * b.im, a.re * b.im + a.im * b.re) }

  function Negated(a: Complex): Complex { Complex(-a.re, -a.im) }

  function Power(w: Complex, n: nat): Complex { if n == 0 then ONE else Times(w, Power(w, n - 1)) }

  // ---- Laws ----

  lemma TimesAssoc(a: Complex, b: Complex, c: Complex)
    ensures Times(a, Times(b, c)) == Times(Times(a, b), c)
  {
    Expand(a.re, b.re * c.re, b.im * c.im);
    Expand(a.im, b.re * c.im, -(b.im * c.re));
    var l, r := Times(a, Times(b, c)), Times(Times(a, b), c);
    assert l.re == a.re * (b.re * c.re) - a.re * (b.im * c.im) - a.im * (b.re * c.im) - a.im * (b.im * c.re);
    assert r.re == (a.re * b.re) * c.re - (a.im * b.im) * c.re - (a.re * b.im) * c.im - (a.im * b.re) * c.im;
    assert l.im == a.re * (b.re * c.im) + a.re * (b.im * c.re) + a.im * (b.re * c.re) - a.im * (b.im * c.im);
    assert r.im == (a.re * b.re) * c.im - (a.im * b.im) * c.im + (a.re * b.im) * c.re + (a.im * b.re) * c.re;
  }

  lemma Expand(a: real, b: real, c: real)
    ensures a * (b - c) == a * b - a * c
  { }

  lemma TimesCommutes(a: Complex, b: Complex)
    ensures Times(a, b) == Times(b, a)
  { }

  lemma TimesPlus(a: Complex, b: Complex, c: Complex)
    ensures Times(a, Plus(b, c)) == Plus(Times(a, b), Times(a, c))
    ensures Times(Plus(b, c), a) == Plus(Times(b, a), Times(c, a))
  { }

  lemma TimesMinus(a: Complex, b: Complex, c: Complex)
    ensures Times(a, Minus(b, c)) == Minus(Times(a, b), Times(a, c))
    ensures Times(Minus(b, c), a) == Minus(Times(b, a), Times(c, a))
  { }

  lemma TimesOne(a: Complex)
    ensures Times(ONE, a) == a && Times(a, ONE) == a
  { }

  lemma {:induction false} PowerSum(w: Complex, m: nat, n: nat)
    ensures Power(w, m + n) == Times(Power(w, m), Power(w, n))
  {
    hide Times;
    if m == 0 {
      TimesOne(Power(w, n));
    } else {
      PowerSum(w, m - 1, n);
      TimesAssoc(w, Power(w, m - 1), Power(w, n));
    }
  }

  lemma {:induction false} PowerProduct(w: Complex, m: nat, n: nat)
    ensures Power(Power(w, m), n) == Power(w, m * n)
  {
    hide Times;
    if n > 0 {
      PowerProduct(w, m, n - 1);
      PowerSum(w, m, m * (n - 1));
      assert m + m * (n - 1) == m * n;
    }
  }

  // ---- Distances ----

  /** a lies within distance r of the origin. */
  predicate Within(a: Complex, r: real) { 0.0 <= r && a.re * a.re + a.im * a.im <= r * r }

  lemma Positive(a: real, b: real)
    requires a > 0.0 && b > 0.0
    ensures a * b > 0.0
  { }

  lemma SquareMore(a: real, b: real)
    requires a > b >= 0.0
    ensures a * a > b * b
  {
    Positive(a - b, a + b);
    assert (a - b) * (a + b) == a * a - b * b;
  }

  lemma SquareLess(a: real, b: real)
    requires 0.0 <= b && a * a <= b * b
    ensures -b <= a <= b
  {
    if a > b { SquareMore(a, b); }
    if -a > b { SquareMore(-a, b); }
  }

  /** Cauchy-Schwarz in the plane. */
  lemma Dot(a: Complex, b: Complex, p: real, q: real)
    requires Within(a, p) && Within(b, q)
    ensures a.re * b.re + a.im * b.im <= p * q
  {
    var dot, cross := a.re * b.re + a.im * b.im, a.re * b.im - a.im * b.re;
    var u, v := a.re * a.re + a.im * a.im, b.re * b.re + b.im * b.im;
    Lagrange(a.re, a.im, b.re, b.im);
    Product(u, p * p, v, q * q);
    DotBound(dot, cross, u * v, p, q);
  }

  lemma DotBound(dot: real, cross: real, uv: real, p: real, q: real)
    requires dot * dot + cross * cross == uv <= (p * p) * (q * q) && 0.0 <= p && 0.0 <= q
    ensures dot <= p * q
  {
    assert cross * cross >= 0.0;
    assert (p * p) * (q * q) == (p * q) * (p * q);
    SquareLess(dot, p * q);
  }

  lemma Lagrange(a: real, b: real, c: real, d: real)
    ensures (a * c + b * d) * (a * c + b * d) + (a * d - b * c) * (a * d - b * c) == (a * a + b * b) * (c * c + d * d)
  { }

  lemma Product(u: real, u': real, v: real, v': real)
    requires 0.0 <= u <= u' && 0.0 <= v <= v'
    ensures u * v <= u' * v'
  { }

  lemma Triangle(a: Complex, b: Complex, p: real, q: real)
    requires Within(a, p) && Within(b, q)
    ensures Within(Plus(a, b), p + q) && Within(Minus(a, b), p + q)
  {
    Dot(a, b, p, q);
    Dot(a, Negated(b), p, q);
    assert (a.re + b.re) * (a.re + b.re) + (a.im + b.im) * (a.im + b.im)
      == (a.re * a.re + a.im * a.im) + (b.re * b.re + b.im * b.im) + 2.0 * (a.re * b.re + a.im * b.im);
    assert (a.re - b.re) * (a.re - b.re) + (a.im - b.im) * (a.im - b.im)
      == (a.re * a.re + a.im * a.im) + (b.re * b.re + b.im * b.im) - 2.0 * (a.re * b.re + a.im * b.im);
    assert (p + q) * (p + q) == p * p + q * q + 2.0 * (p * q);
  }

  /** The square of the distance from the origin. */
  function Norm(a: Complex): real { a.re * a.re + a.im * a.im }

  lemma NormTimes(a: Complex, b: Complex)
    ensures Norm(Times(a, b)) == Norm(a) * Norm(b)
  {
    Lagrange(a.re, -a.im, b.re, b.im);
    assert (-a.im) * (-a.im) == a.im * a.im && (-a.im) * b.im == -(a.im * b.im) && (-a.im) * b.re == -(a.im * b.re);
  }

  /** Lengths multiply. */
  lemma TimesWithin(a: Complex, b: Complex, p: real, q: real)
    requires Within(a, p) && Within(b, q)
    ensures Within(Times(a, b), p * q)
  {
    NormTimes(a, b);
    Product(Norm(a), p * p, Norm(b), q * q);
    assert (p * p) * (q * q) == (p * q) * (p * q) && p * q >= 0.0;
  }
}
