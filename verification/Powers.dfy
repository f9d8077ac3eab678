/** Powers of two, and the few facts about products that the solver does not find by itself. */
module Powers {

  function Pow2(e: nat): (r: nat)
    ensures r >= 1
  {
    if e == 0 then 1 else 2 * Pow2(e - 1)
  }

  lemma {:induction false} Pow2Sum(a: nat, b: nat)
    ensures Pow2(a + b) == Pow2(a) * Pow2(b)
  {
    if a > 0 { Pow2Sum(a - 1, b); }
  }

  lemma {:induction false} Pow2Mono(a: nat, b: nat)
    requires a <= b
    ensures Pow2(a) <= Pow2(b)
  {
    if a < b { Pow2Mono(a, b - 1); }
  }

  lemma {:induction false} Pow2Injective(a: nat, b: nat)
    requires Pow2(a) <= Pow2(b) < 2 * Pow2(a)
    ensures a == b
  {
    if a > 0 && b > 0 { Pow2Injective(a - 1, b - 1); }
  }

  lemma Distribute(a: int, b: int, p: int)
    ensures (a + b) * p == a * p + b * p
  { }

  lemma NonNegative(a: int, p: int)
    requires a >= 0 && p >= 0
    ensures a * p >= 0
  { }

  /** Multiplying by a positive number keeps the order. */
  lemma Scale(a: int, b: int, p: nat)
    requires p > 0
    ensures a <= b <==> a * p <= b * p
    ensures (a + 1) * p == a * p + p && (a - 1) * p == a * p - p
  {
    Distribute(a, 1, p);
    Distribute(a, -1, p);
    Distribute(a, b - a, p);
    Distribute(b, a - b - 1, p);
    Distribute(a - 1, 1, p);
    if a <= b { NonNegative(b - a, p); } else { NonNegative(a - b - 1, p); }
  }

  lemma DivParts(x: int, h: nat)
    requires h > 0
    ensures x == (x / h) * h + x % h && 0 <= x % h < h
  { }

  lemma Quotient(x: int, h: nat, q: int, r: int)
    requires h > 0 && x == q * h + r && 0 <= r < h
    ensures x / h == q
  {
    var d := x / h;
    DivParts(x, h);
    Scale(q + 1, d, h);
    Scale(d + 1, q, h);
    Scale(q, 0, h);
    Scale(d, 0, h);
  }
}
