/** The three variants of max_imax in os/lib/trickle-timer.c. A mask test for clear top bits is a comparison. */
module MaxImax {
  import opened Powers
  import opened TrickleMath

  /** One mask test on a w-bit value: are its top i bits clear? Then i more zeros are counted and shifted out. */
  method CountTest(w: nat, ghost v: nat, zeros: nat, value: nat, i: nat) returns (zeros': nat, value': nat)
    requires 0 < i && zeros + 2 * i <= w && Shifted(w, v, zeros, 2 * i, value)
    ensures Shifted(w, v, zeros', i, value') && zeros' + i <= w
  {
    CountStep(w, v, zeros, i, value);
    hide Pow2;
    zeros', value' := zeros, value;
    if value < Pow2(w - i) {
      SmallRemainder(value * Pow2(i), Pow2(w));
      zeros' := zeros + i;
      value' := value * Pow2(i) % Pow2(w);
    }
  }

  lemma Start(w: nat, v: nat)
    requires 0 < w && 0 < v < Pow2(w)
    ensures Shifted(w, v, 0, w, v)
  { }

  /** After the test for one bit the count is complete; a value below half a turn has a leading zero. */
  lemma Counted(w: nat, v: nat, zeros: nat, value: nat)
    requires w > 0 && Shifted(w, v, zeros, 1, value) && v < Pow2(w - 1)
    ensures LeadingZeros(w, v, zeros) && zeros > 0
  { }

  /** The generic variant: counts the leading zeros of value - 1 by halving steps. */
  method Generic(value0: nat) returns (n: nat)
    requires 2 <= value0 <= HALF
    ensures LargestDoublings(WIDTH, value0, n)
  {
    hide Pow2, Shifted;
    var zeros: nat, value: nat := 0, value0 - 1;
    WordSizes();
    Start(WIDTH, value0 - 1);
    var i := WIDTH / 2;
    ghost var last := 2 * i;
    while i > 0
      invariant i in {0, 1, 2, 4, 8, 16} && last == (if i == 0 then 1 else 2 * i)
      invariant Shifted(WIDTH, value0 - 1, zeros, last, value) && zeros + last <= WIDTH
    {
      zeros, value := CountTest(WIDTH, value0 - 1, zeros, value, i);
      last := i;
      i := i / 2;
    }
    Counted(WIDTH, value0 - 1, zeros, value);
    ZerosToDoublings(WIDTH, value0, zeros);
    n := zeros - 1;
  }

  lemma WordSizes()
    ensures HALF == Pow2(WIDTH - 1) && MODULUS == Pow2(WIDTH) && HALF >= 2
  { }

  /** The variant for 16-bit clocks; it leaves the value as it is. */
  method Bits16(value0: nat) returns (n: nat)
    requires WIDTH == 16 && 2 <= value0 < HALF
    ensures LargestDoublings(16, value0, n) <==> !(exists e :: PowerOfTwo(value0, e))
    ensures (exists e :: PowerOfTwo(value0, e)) ==> LargestDoublings(16, value0, n + 1)
  {
    hide Pow2, Shifted, LargestDoublings, PowerOfTwo;
    WordSizes();
    Start(16, value0);
    var zeros, value := CountTest(16, value0, 0, value0, 8);
    zeros, value := CountTest(16, value0, zeros, value, 4);
    zeros, value := CountTest(16, value0, zeros, value, 2);
    zeros, value := CountTest(16, value0, zeros, value, 1);
    Counted(16, value0, zeros, value);
    ZerosWithoutDecrement(16, value0, zeros);
    n := zeros - 1;
  }

  /** The variant for 32-bit clocks. */
  method Bits32(value0: nat) returns (n: nat)
    requires WIDTH == 32 && 2 <= value0 < HALF
    ensures LargestDoublings(32, value0, n) <==> !(exists e :: PowerOfTwo(value0, e))
    ensures (exists e :: PowerOfTwo(value0, e)) ==> LargestDoublings(32, value0, n + 1)
  {
    hide Pow2, Shifted, LargestDoublings, PowerOfTwo;
    WordSizes();
    Start(32, value0);
    var zeros, value := CountTest(32, value0, 0, value0, 16);
    zeros, value := CountTest(32, value0, zeros, value, 8);
    zeros, value := CountTest(32, value0, zeros, value, 4);
    zeros, value := CountTest(32, value0, zeros, value, 2);
    zeros, value := CountTest(32, value0, zeros, value, 1);
    Counted(32, value0, zeros, value);
    ZerosWithoutDecrement(32, value0, zeros);
    n := zeros - 1;
  }
}
