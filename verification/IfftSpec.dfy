/** The integer FFT of os/lib/ifft.c stage by stage, as a function of the samples. */
module IfftSpec {
  import opened Common
  import opened Powers

  const SIN_TAB_LEN := 120
  const RESOLUTION := 128

  /** SIN_TAB: the sine over one turn in 120 steps, scaled by 127. */
  function SinTab(i: nat): int {
    match i
    case 0 => 0 case 1 => 6 case 2 => 13 case 3 => 20 case 4 => 26 case 5 => 33 case 6 => 39 case 7 => 45 case 8 => 52 case 9 => 58
    case 10 => 63 case 11 => 69 case 12 => 75 case 13 => 80 case 14 => 85 case 15 => 90 case 16 => 95 case 17 => 99 case 18 => 103 case 19 => 107
    case 20 => 110 case 21 => 114 case 22 => 116 case 23 => 119 case 24 => 121 case 25 => 123 case 26 => 125 case 27 => 126 case 28 => 127 case 29 => 127
    case 30 => 127 case 31 => 127 case 32 => 127 case 33 => 126 case 34 => 125 case 35 => 123 case 36 => 121 case 37 => 119 case 38 => 116 case 39 => 114
    case 40 => 110 case 41 => 107 case 42 => 103 case 43 => 99 case 44 => 95 case 45 => 90 case 46 => 85 case 47 => 80 case 48 => 75 case 49 => 69
    case 50 => 63 case 51 => 58 case 52 => 52 case 53 => 45 case 54 => 39 case 55 => 33 case 56 => 26 case 57 => 20 case 58 => 13 case 59 => 6
    case 60 => 0 case 61 => -6 case 62 => -13 case 63 => -20 case 64 => -26 case 65 => -33 case 66 => -39 case 67 => -45 case 68 => -52 case 69 => -58
    case 70 => -63 case 71 => -69 case 72 => -75 case 73 => -80 case 74 => -85 case 75 => -90 case 76 => -95 case 77 => -99 case 78 => -103 case 79 => -107
    case 80 => -110 case 81 => -114 case 82 => -116 case 83 => -119 case 84 => -121 case 85 => -123 case 86 => -125 case 87 => -126 case 88 => -127 case 89 => -127
    case 90 => -127 case 91 => -127 case 92 => -127 case 93 => -126 case 94 => -125 case 95 => -123 case 96 => -121 case 97 => -119 case 98 => -116 case 99 => -114
    case 100 => -110 case 101 => -107 case 102 => -103 case 103 => -99 case 104 => -95 case 105 => -90 case 106 => -85 case 107 => -80 case 108 => -75 case 109 => -69
    case 110 => -63 case 111 => -58 case 112 => -52 case 113 => -45 case 114 => -39 case 115 => -33 case 116 => -26 case 117 => -20 case 118 => -13 case 119 => -6
    case _ => 0
  }

  function SinI(angleMilli: nat): int { SinTab(SIN_TAB_LEN * angleMilli / 1000 % SIN_TAB_LEN) }

  function CosI(angleMilli: nat): int { SinI(angleMilli + 250) }

  /** What a store to an int16_t variable leaves there. */
  function Int16(x: int): (r: int)
    ensures -32768 <= r < 32768 && (-32768 <= x < 32768 ==> r == x)
  {
    (x + 32768) % 65536 - 32768
  }

  /** The lowest nu bits of j in reverse order. */
  function BitRev(j: nat, nu: nat): (r: nat)
    ensures r < Pow2(nu)
  {
    if nu == 0 then 0 else (if j % 2 == 1 then Pow2(nu - 1) else 0) + BitRev(j / 2, nu - 1)
  }

  /** n complex samples. */
  datatype Signal = Signal(re: seq<int>, im: seq<int>)

  predicate Sized(x: Signal, n: nat) { |x.re| == |x.im| == n }

  /** (yr, yi) turned by the angle with cosine c and sine s; the division is the arithmetic right shift by 7. */
  function Rotate(yr: int, yi: int, c: int, s: int): (int, int) {
    ((yr * c + yi * s) / RESOLUTION, (yi * c - yr * s) / RESOLUTION)
  }

  /** The twiddle angle of a block of butterflies, in thousandths of a turn. */
  function Angle(block: nat, nu: nat): (r: nat)
    ensures r < 1000
  {
    Fraction(BitRev(block, nu), Pow2(nu));
    1000 * BitRev(block, nu) / Pow2(nu)
  }

  lemma Fraction(a: nat, n: nat)
    requires a < n
    ensures 0 <= 1000 * a / n < 1000
  {
    var q := 1000 * a / n;
    assert q * n <= 1000 * a < 1000 * n;
    assert q >= 1000 ==> q * n >= 1000 * n;
    assert q < 0 ==> (q + 1) * n <= 0;
  }

  /** The sample k + h turned by the twiddle angle of the butterfly (k, k + h), in fixed point. */
  function Turned(x: Signal, nu: nat, h: nat, k: nat): (int, int)
    requires h > 0 && Sized(x, Pow2(nu)) && k + h < Pow2(nu)
  {
    var angle := Angle(k / h, nu);
    Rotate(x.re[k + h], x.im[k + h], CosI(angle), SinI(angle))
  }

  /** Is k the lower index of a butterfly of width h, or the upper one? */
  predicate Lower(h: nat, k: nat)
    requires h > 0
  {
    k / h % 2 == 0
  }

  /** One output of a stage, from the outputs of the stage before; `wide` leaves out the int16_t stores. */
  function Butterfly(x: Signal, nu: nat, h: nat, k: nat, wide: bool): (int, int)
    requires h > 0 && Sized(x, Pow2(nu)) && k < Pow2(nu)
    requires if Lower(h, k) then k + h < Pow2(nu) else h <= k
  {
    var (a, b) :=
      if Lower(h, k) then var (tr, ti) := Turned(x, nu, h, k); (x.re[k] + tr, x.im[k] + ti)
      else var (tr, ti) := Turned(x, nu, h, k - h); (x.re[k - h] - tr, x.im[k - h] - ti);
    if wide then (a, b) else (Int16(a), Int16(b))
  }

  lemma Regroup(h: nat, b: nat)
    ensures 2 * h * b == (2 * b) * h && 2 * h * b + h == (2 * b + 1) * h
  { }

  /** The j-th butterfly of block b pairs 2hb + j with 2hb + h + j. */
  lemma BlockIndex(h: nat, b: nat, j: nat)
    requires j < h
    ensures (2 * h * b + j) / h == 2 * b && Lower(h, 2 * h * b + j)
    ensures (2 * h * b + h + j) / h == 2 * b + 1 && !Lower(h, 2 * h * b + h + j)
  {
    Regroup(h, b);
    Quotient(2 * h * b + j, h, 2 * b, j);
    Quotient(2 * h * b + h + j, h, 2 * b + 1, j);
  }

  /** Index k is entry r of block q; with n blocks, n even, the next block is there if q is even, the previous one if q is odd. */
  lemma NeighbourBlock(n: nat, h: nat, k: nat, q: int, r: int)
    requires h > 0 && n % 2 == 0 && k == q * h + r && 0 <= r < h && k < n * h
    ensures 0 <= q < n
    ensures q % 2 == 0 ==> k + h == (q + 1) * h + r < n * h
    ensures q % 2 == 1 ==> 0 <= k - h == (q - 1) * h + r
  {
    Scale(n, q, h);
    Scale(q, -1, h);
    Scale(q, 0, h);
    Scale(q + 2, n, h);
    Scale(q + 1, 0, h);
    Scale(1, q, h);
  }

  lemma LowerIs(h: nat, k: nat, q: nat, r: nat)
    requires h > 0 && k == q * h + r && r < h
    ensures Lower(h, k) <==> q % 2 == 0
  {
    Quotient(k, h, q, r);
  }

  /** With an even number n of blocks of width h, an index in an even block has its partner in the next one. */
  lemma PartnerIn(n: nat, h: nat, k: nat)
    requires h > 0 && n % 2 == 0 && k < n * h
    ensures if Lower(h, k) then k + h < n * h && !Lower(h, k + h) else h <= k && Lower(h, k - h)
  {
    hide Lower;
    DivParts(k, h);
    PartnerParts(n, h, k, k / h, k % h);
  }

  lemma PartnerParts(n: nat, h: nat, k: nat, q: int, r: nat)
    requires h > 0 && n % 2 == 0 && k == q * h + r && r < h && k < n * h
    ensures if Lower(h, k) then k + h < n * h && !Lower(h, k + h) else h <= k && Lower(h, k - h)
  {
    hide Lower;
    NeighbourBlock(n, h, k, q, r);
    LowerIs(h, k, q, r);
    if q % 2 == 0 {
      LowerIs(h, k + h, q + 1, r);
    } else {
      LowerIs(h, k - h, q - 1, r);
    }
  }

  /** In stage l every index has its partner inside the arrays. */
  lemma Partner(nu: nat, l: nat, k: nat)
    requires 1 <= l <= nu && k < Pow2(nu)
    ensures var h := Pow2(nu - l); if Lower(h, k) then k + h < Pow2(nu) && !Lower(h, k + h) else h <= k && Lower(h, k - h)
  {
    hide Lower;
    Pow2Sum(l, nu - l);
    assert Pow2(l) == 2 * Pow2(l - 1);
    hide Pow2;
    PartnerIn(Pow2(l), Pow2(nu - l), k);
  }

  /** All outputs of stage l. */
  function Stage(x: Signal, nu: nat, l: nat, wide: bool): (y: Signal)
    requires 1 <= l <= nu && Sized(x, Pow2(nu))
    ensures Sized(y, Pow2(nu))
  {
    Signal(
      seq(Pow2(nu), k requires 0 <= k < Pow2(nu) => Partner(nu, l, k); Butterfly(x, nu, Pow2(nu - l), k, wide).0),
      seq(Pow2(nu), k requires 0 <= k < Pow2(nu) => Partner(nu, l, k); Butterfly(x, nu, Pow2(nu - l), k, wide).1))
  }

  /** The first l stages. */
  function Stages(x: Signal, nu: nat, l: nat, wide: bool): (y: Signal)
    requires l <= nu && Sized(x, Pow2(nu))
    ensures Sized(y, Pow2(nu))
  {
    if l == 0 then x else Stage(Stages(x, nu, l - 1, wide), nu, l, wide)
  }

  /** The outputs in natural order. */
  function Reordered(x: Signal, nu: nat): (y: Signal)
    requires Sized(x, Pow2(nu))
    ensures Sized(y, Pow2(nu))
  {
    Signal(
      seq(Pow2(nu), k requires 0 <= k < Pow2(nu) => x.re[BitRev(k, nu)]),
      seq(Pow2(nu), k requires 0 <= k < Pow2(nu) => x.im[BitRev(k, nu)]))
  }

  function Abs(x: int): int { if x < 0 then -x else x }

  /** The lower half of the real parts becomes |re| + |im|. */
  function Magnitudes(x: Signal, nu: nat, wide: bool): (y: Signal)
    requires Sized(x, Pow2(nu))
    ensures Sized(y, Pow2(nu))
  {
    Signal(
      seq(Pow2(nu), k requires 0 <= k < Pow2(nu) =>
        if k >= Pow2(nu) / 2 then x.re[k] else if wide then Abs(x.re[k]) + Abs(x.im[k]) else Int16(Abs(x.re[k]) + Abs(x.im[k]))),
      x.im)
  }

  /** The whole transform of 2^nu real samples. */
  function Transform(re: seq<int>, nu: nat, wide: bool): (y: Signal)
    requires |re| == Pow2(nu)
    ensures Sized(y, Pow2(nu))
  {
    Magnitudes(Reordered(Stages(Signal(re, Fill(0, |re|)), nu, nu, wide), nu), nu, wide)
  }
}
