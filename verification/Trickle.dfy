/** os/lib/trickle-timer.c with drift compensation and error checking: RFC 6206 over a wrapping clock. */
module Trickle {
  import opened Powers
  import opened TrickleMath
  import MaxImax

  /** What the ctimer of a Trickle timer is set to do, and in how many ticks. */
  datatype Pending = Idle | CallFire(delay: int) | CallDouble(delay: int)

  class TrickleTimer {
    var iMin: nat
    var iCur: nat
    var iStart: nat
    var iMaxAbs: nat
    var iMax: nat
    var k: nat
    var c: nat
    var ct: Pending

    /** Unbounded time at which the first interval since the last reset started, and its length. */
    ghost var origin: int
    ghost var first: nat
    /** Intervals completed since the last reset. */
    ghost var doublings: nat
    /** Consistent messages heard since the interval began. */
    ghost var heard: nat

    ghost predicate Configured()
      reads this
    {
      && 2 <= iMin < HALF && 0 < k < 256
      && iMaxAbs == iMin * Pow2(iMax) && iMin <= iMaxAbs <= HALF
    }

    /** The unbounded time at which the current interval started. */
    ghost function Start(): int
      reads this
    {
      origin + Total(first, iMaxAbs, doublings)
    }

    ghost predicate Running()
      reads this
    {
      && Configured()
      && iMin <= first <= iMaxAbs && iCur == Length(first, iMaxAbs, doublings) && iMin <= iCur <= iMaxAbs
      && Shows(iStart, Start())
      && c == Min(heard, 255)
    }

    lemma Bounds()
      requires Configured()
      ensures 2 <= iMin <= iMaxAbs <= HALF < MODULUS && 0 < k
    {
      HalfIsLess();
    }

    constructor () { }

    /** trickle_timer_config. The shifts are done in 32 bits, those of a 16-bit clock in int; further ones are not defined in C. */
    method Config(iMin: nat, iMax: nat, k: nat) returns (ok: bool)
      requires Word(iMin) && iMax + 1 < 32 && k < 256
      modifies this
      ensures ok <==> 2 <= iMin < HALF && iMax != 0 && k != 0
      ensures ok ==> Configured() && this.iMin == iMin && this.k == k
      ensures !ok ==> unchanged(this)
      ensures ok && iMin * Pow2(iMax) <= HALF ==> this.iMax == iMax
      ensures ok && iMin * Pow2(iMax) > HALF ==> this.iMax < iMax && LargestDoublings(WIDTH, iMin, this.iMax)
    {
      hide Pow2, LargestDoublings;
      MaxImax.WordSizes();
      if iMin < 2 || iMin > (MODULUS - 1) / 2 {
        return false;
      }
      if iMax == 0 || k == 0 {
        return false;
      }
      var n := iMax;
      PairTest(iMin, n);
      if (MODULUS - 1) / Pow2(n + 1) < iMin - 1 {
        n := MaxImax.Generic(iMin);
        FewerDoublings(iMin, iMax, n);
        LargestFits(iMin, n);
      }
      FittingPair(iMin, n);
      this.iMin, this.iMax, this.k := iMin, n, k;
      this.iMaxAbs := iMin * Pow2(n) % MODULUS;
      return true;
    }

    // ---- The intervals ----

    /** get_t: a point in the second half of the interval. */
    method GetT(iCur: nat, rand: nat) returns (t: nat)
      requires 2 <= iCur < MODULUS
      ensures iCur / 2 <= t < iCur && (rand < iCur / 2 ==> t == iCur / 2 + rand)
    {
      var half := iCur / 2;
      if rand < half { SmallRemainder(rand, half); }
      t := half + rand % half;
    }

    /** Ticks from now until the word `due`; a point in the past is due at once. */
    method TicksUntil(due: int, now: int, ghost realDue: int, ghost realNow: int) returns (delay: int)
      requires Shows(due, realDue) && Shows(now, realNow)
      ensures 0 <= delay < HALF
      ensures -HALF <= realDue - realNow < HALF ==> delay == Max(0, realDue - realNow)
    {
      hide Shows;
      ShowsWord(due, realDue);
      ShowsWord(now, realNow);
      delay := Sub(due, now);
      if -HALF <= realDue - realNow < HALF { ShowsDifference(due, realDue, now, realNow); }
      if delay > (MODULUS - 1) / 2 {
        delay := 0;
      }
    }

    /** new_interval: a reset. The random time is t, and the interval starts now. */
    method NewInterval(rand: nat, now: int, ghost realNow: int) returns (ghost t: nat)
      requires Configured() && iMin <= iCur <= iMaxAbs && Shows(now, realNow)
      modifies this
      ensures Running() && Start() == origin == realNow && first == iCur == old(iCur) && doublings == 0 && heard == 0
      ensures iCur / 2 <= t < iCur && ct == CallFire(t)
      ensures iMin == old(iMin) && iMax == old(iMax) && iMaxAbs == old(iMaxAbs) && k == old(k)
    {
      c, heard := 0, 0;
      var locClock := GetT(iCur, rand);
      t := locClock;
      ct := CallFire(locClock);
      iStart := now;
      origin, first, doublings := realNow, iCur, 0;
    }

    /** trickle_timer_set: starts with an interval of random length between Imin and Imax. */
    method Set(rand: nat, rand': nat, now: int, ghost realNow: int) returns (ghost t: nat)
      requires Configured() && Shows(now, realNow)
      modifies this
      ensures Running() && Start() == realNow && doublings == 0 && heard == 0 && iMin <= iCur <= iMaxAbs
      ensures rand <= iMaxAbs - iMin ==> iCur == iMin + rand
      ensures iCur / 2 <= t < iCur && ct == CallFire(t)
      ensures iMin == old(iMin) && iMax == old(iMax) && iMaxAbs == old(iMaxAbs) && k == old(k)
    {
      if rand <= iMaxAbs - iMin { SmallRemainder(rand, iMaxAbs - iMin + 1); }
      iCur := iMin + rand % (iMaxAbs - iMin + 1);
      t := NewInterval(rand', now, realNow);
    }

    /** trickle_timer_consistency. */
    method Consistency()
      requires Running()
      modifies this`c, this`heard
      ensures Running() && heard == old(heard) + 1
    {
      if c < 255 {
        c := c + 1;
      }
      heard := heard + 1;
    }

    /** trickle_timer_inconsistency: back to Imin, unless the interval is Imin already. */
    method Inconsistency(rand: nat, now: int, ghost realNow: int)
      requires Running() && Shows(now, realNow)
      modifies this
      ensures Running() && iMin == old(iMin) && iMax == old(iMax) && iMaxAbs == old(iMaxAbs) && k == old(k)
      ensures iCur == iMin
      ensures old(iCur) != iMin ==>
        Start() == realNow && doublings == 0 && heard == 0 && ct.CallFire? && iCur / 2 <= ct.delay < iCur
      ensures old(iCur) == iMin ==> Start() == old(Start()) && doublings == old(doublings) && heard == old(heard) && ct == old(ct)
    {
      if iCur != iMin {
        iCur := iMin;
        ghost var t := NewInterval(rand, now, realNow);
      }
    }

    /** fire, at time t of the interval: may the protocol transmit? Then the end of the interval is awaited. */
    method Fire(now: int, ghost realNow: int) returns (txAllow: bool)
      requires Running() && Shows(now, realNow)
      modifies this`ct
      ensures Running() && (txAllow <==> heard < k)
      ensures ct.CallDouble? && 0 <= ct.delay < HALF
      ensures -HALF <= Start() + iCur - realNow < HALF ==> ct.delay == Max(0, Start() + iCur - realNow)
    {
      txAllow := k == 0 || c < k;
      ScheduleForEnd(now, realNow);
    }

    /** schedule_for_end. */
    method ScheduleForEnd(now: int, ghost realNow: int)
      requires Running() && Shows(now, realNow)
      modifies this`ct
      ensures Running() && ct.CallDouble? && 0 <= ct.delay < HALF
      ensures -HALF <= Start() + iCur - realNow < HALF ==> ct.delay == Max(0, Start() + iCur - realNow)
    {
      HalfIsLess();
      ShowsAdd(iStart, Start(), iCur);
      var locClock := TicksUntil(Add(iStart, iCur), now, Start() + iCur, realNow);
      ct := CallDouble(locClock);
    }

    /** double_interval: the next interval starts where the last one ended, however late this runs. */
    method DoubleInterval(rand: nat, now: int, ghost realNow: int) returns (ghost t: nat)
      requires Running() && Shows(now, realNow)
      modifies this
      ensures Running() && iMin == old(iMin) && iMax == old(iMax) && iMaxAbs == old(iMaxAbs) && k == old(k)
      ensures origin == old(origin) && first == old(first) && doublings == old(doublings) + 1 && heard == 0
      ensures Start() == old(Start()) + old(iCur) && iCur == Min(2 * old(iCur), iMaxAbs)
      ensures iCur / 2 <= t < iCur && ct.CallFire? && 0 <= ct.delay < HALF
      ensures -HALF <= Start() + t - realNow < HALF ==> ct.delay == Max(0, Start() + t - realNow)
    {
      Bounds();
      hide Pow2, Shows, Length, Total, Add;
      ghost var end := Start() + iCur;
      NextInterval(first, iMaxAbs, doublings, origin, iStart, iMin);
      c, heard := 0, 0;
      var lastEnd := Add(iStart, iCur);
      if iCur <= iMaxAbs / 2 {
        SmallRemainder(2 * iCur, MODULUS);
        iCur := 2 * iCur % MODULUS;
      } else {
        iCur := iMaxAbs;
      }
      var locClock := GetT(iCur, rand);
      t := locClock;
      ShowsAdd(lastEnd, end, t);
      locClock := TicksUntil(Add(lastEnd, locClock), now, end + t, realNow);
      ct := CallFire(locClock);
      iStart := lastEnd;
      doublings := doublings + 1;
    }
  }

  /** What one callback round finds: two random numbers, the clock at each callback, and the true times it shows. */
  datatype Round = Round(rand: nat, fireNow: int, ghost fireReal: int, doubleNow: int, ghost doubleReal: int)

  /**
   * Any number of intervals without a reset. However late each callback runs, the intervals do not drift:
   * the n-th one starts at the first start plus the lengths of the n before it, on the wrapping clock too,
   * and its length is min(2^n times the first, Imax).
   */
  method Undisturbed(timer: TrickleTimer, rounds: seq<Round>)
    requires timer.Running() && timer.doublings == 0
    requires forall r | r in rounds :: Shows(r.fireNow, r.fireReal) && Shows(r.doubleNow, r.doubleReal)
    modifies timer
    ensures timer.Running() && timer.iMaxAbs == old(timer.iMaxAbs) && timer.iMin == old(timer.iMin) && timer.k == old(timer.k)
    ensures timer.iCur == Length(old(timer.iCur), timer.iMaxAbs, |rounds|)
    ensures timer.Start() == old(timer.Start()) + Total(old(timer.iCur), timer.iMaxAbs, |rounds|)
    ensures Shows(timer.iStart, old(timer.Start()) + Total(old(timer.iCur), timer.iMaxAbs, |rounds|))
  {
    RunningFacts(timer);
    hide Shows, Pow2, Length, Total, TrickleTimer.Configured, TrickleTimer.Running;
    for i := 0 to |rounds|
      invariant timer.Running() && timer.iMaxAbs == old(timer.iMaxAbs) && timer.iMin == old(timer.iMin) && timer.k == old(timer.k)
      invariant timer.doublings == i && timer.origin == old(timer.origin) && timer.first == old(timer.first)
    {
      var r := rounds[i];
      assert r in rounds;
      var txAllow := timer.Fire(r.fireNow, r.fireReal);
      ghost var t := timer.DoubleInterval(r.rand, r.doubleNow, r.doubleReal);
    }
    RunningFacts(timer);
  }

  lemma RunningFacts(timer: TrickleTimer)
    requires timer.Running()
    ensures timer.iCur == Length(timer.first, timer.iMaxAbs, timer.doublings) && Shows(timer.iStart, timer.Start())
    ensures timer.Start() == timer.origin + Total(timer.first, timer.iMaxAbs, timer.doublings)
    ensures timer.doublings == 0 ==> timer.iCur == timer.first && timer.Start() == timer.origin
  {
    hide Shows;
  }
}
