/** os/lib/ifft.c: the transform in place. */
module Ifft {
  import opened Common
  import opened Powers
  import opened IfftSpec
  import opened IfftBounds

  // ---- Bit reversal ----

  /** A new top bit of the index becomes the bottom bit of its reverse. */
  lemma {:induction false} TopBit(b: bool, j: nat, nu: nat)
    requires j < Pow2(nu)
    ensures BitRev((if b then Pow2(nu) else 0) + j, nu + 1) == 2 * BitRev(j, nu) + if b then 1 else 0
  {
    var x := (if b then Pow2(nu) else 0) + j;
    if nu == 0 {
      assert BitRev(x, 1) == (if x % 2 == 1 then Pow2(0) else 0) + BitRev(x / 2, 0);
    } else {
      assert x % 2 == j % 2 && x / 2 == (if b then Pow2(nu - 1) else 0) + j / 2;
      TopBit(b, j / 2, nu - 1);
    }
  }

  /** Reversing twice gives the index back, so the final swaps are a permutation. */
  lemma {:induction false} BitRevInvolution(j: nat, nu: nat)
    requires j < Pow2(nu)
    ensures BitRev(BitRev(j, nu), nu) == j
  {
    if nu > 0 {
      var r := BitRev(j / 2, nu - 1);
      BitRevUnfold(j, nu);
      TopBit(j % 2 == 1, r, nu - 1);
      BitRevInvolution(j / 2, nu - 1);
      hide BitRev, Pow2;
    }
  }

  /** What bitrev returns if its loop is about to run with these values. */
  function Reversing(k: nat, j: nat, nu: nat): nat { k * Pow2(nu) + BitRev(j, nu) }

  method Bitrev(j0: nat, nu0: nat) returns (k: nat)
    requires j0 < 65536 && nu0 <= 15
    ensures k == BitRev(j0, nu0)
  {
    var j, nu := j0, nu0;
    k := 0;
    ReversingStart(j0, nu0);
    hide Pow2, BitRev, Reversing;
    while nu > 0
      invariant 0 <= nu <= nu0 && 0 <= j < 65536 && 0 <= k
      invariant Reversing(k, j, nu) == BitRev(j0, nu0)
    {
      BitrevStep(k, j, nu, nu0);
      k := (2 * k + j % 2) % 65536;
      j := j / 2;
      nu := nu - 1;
    }
    ReversingEnd(k, j);
  }

  lemma ReversingStart(j: nat, nu: nat)
    ensures Reversing(0, j, nu) == BitRev(j, nu) < Pow2(nu)
  { }

  lemma ReversingEnd(k: nat, j: nat)
    ensures Reversing(k, j, 0) == k
  { }

  lemma Bits16(nu: nat)
    requires nu <= 15
    ensures Pow2(nu) <= 32768
    decreases 15 - nu
  {
    if nu < 15 { Bits16(nu + 1); } else { assert Pow2(15) == 2 * Pow2(14); Bits14(); }
  }

  lemma Bits14()
    ensures Pow2(14) == 16384
  {
    Pow2Sum(7, 7);
    assert Pow2(7) == 128;
  }

  lemma BitrevStep(k: nat, j: nat, nu: nat, nu0: nat)
    requires 0 < nu <= nu0 <= 15 && Reversing(k, j, nu) < Pow2(nu0)
    ensures Reversing((2 * k + j % 2) % 65536, j / 2, nu - 1) == Reversing(k, j, nu)
  {
    Bits16(nu0);
    ReversingStep(k, j, nu);
    hide Pow2, Reversing;
    assert (2 * k + j % 2) % 65536 == 2 * k + j % 2;
  }

  /** The step without wrap-around. */
  lemma ReversingStep(k: nat, j: nat, nu: nat)
    requires nu > 0
    ensures 2 * k + j % 2 <= Reversing(2 * k + j % 2, j / 2, nu - 1) == Reversing(k, j, nu)
  {
    BitRevUnfold(j, nu);
    ShiftIn(k, j % 2, Pow2(nu - 1), Pow2(nu));
    hide Pow2, BitRev;
  }

  lemma BitRevUnfold(j: nat, nu: nat)
    requires nu > 0
    ensures Pow2(nu) == 2 * Pow2(nu - 1)
    ensures BitRev(j, nu) == (if j % 2 == 1 then Pow2(nu - 1) else 0) + BitRev(j / 2, nu - 1)
  { }

  lemma ShiftIn(k: nat, d: nat, h: nat, double: nat)
    requires d <= 1 <= h && double == 2 * h
    ensures 2 * k + d <= (2 * k + d) * h == k * double + if d == 1 then h else 0
  {
    Distribute(2 * k, d, h);
    if 2 * k + d > 0 { Scale(1, h, 2 * k + d); }
    assert 2 * k * h == k * (2 * h);
  }

  // ---- The base-two logarithm ----

  method Ilog2(val0: nat) returns (log: nat)
    ensures val0 > 0 ==> Pow2(log) <= val0 < 2 * Pow2(log)
    ensures val0 == 0 ==> log == 0
  {
    var val := val0 / 2;
    log := 0;
    while val > 0
      invariant val0 > 0 ==> val * 2 * Pow2(log) <= val0 < (val + 1) * 2 * Pow2(log)
      invariant val0 == 0 ==> val == 0 && log == 0
      invariant val == 0 && val0 > 0 ==> Pow2(log) <= val0
    {
      LogStep(val, Pow2(log), val0);
      val := val / 2;
      log := log + 1;
    }
  }

  lemma LogStep(v: nat, p: nat, x: nat)
    requires v > 0 && v * 2 * p <= x < (v + 1) * 2 * p
    ensures (v / 2) * 2 * (2 * p) <= x < (v / 2 + 1) * 2 * (2 * p) && 2 * p <= x
  {
    var w := v / 2;
    assert v == 2 * w || v == 2 * w + 1;
    assert v * p >= p;
  }

  // ---- One stage ----

  /** Inside a stage that turns x into y: is index j already done? */
  predicate Finished(h: nat, base: nat, done: nat, j: nat) {
    j < base + done || base + h <= j < base + h + done
  }

  predicate Entry(x: Signal, y: Signal, re: seq<int>, im: seq<int>, h: nat, base: nat, done: nat, j: nat)
    requires |x.re| == |x.im| == |y.re| == |y.im| == |re| == |im| && j < |re|
  {
    if Finished(h, base, done, j) then re[j] == y.re[j] && im[j] == y.im[j] else re[j] == x.re[j] && im[j] == x.im[j]
  }

  /** Blocks below `base` and the first `done` butterflies of the block at `base` hold results, the rest holds inputs. */
  ghost predicate Mixed(x: Signal, y: Signal, re: seq<int>, im: seq<int>, h: nat, base: nat, done: nat) {
    && |x.re| == |x.im| == |y.re| == |y.im| == |re| == |im|
    && forall j {:trigger Entry(x, y, re, im, h, base, done, j)} | 0 <= j < |re| :: Entry(x, y, re, im, h, base, done, j)
  }

  lemma MixedStep(x: Signal, y: Signal, re: seq<int>, im: seq<int>, re': seq<int>, im': seq<int>, h: nat, base: nat, done: nat)
    requires Mixed(x, y, re, im, h, base, done) && done < h && base + h + done < |re|
    requires var k := base + done;
      re' == re[k + h := y.re[k + h]][k := y.re[k]] && im' == im[k + h := y.im[k + h]][k := y.im[k]]
    ensures Mixed(x, y, re', im', h, base, done + 1)
  {
    var next := done + 1;
    forall j | 0 <= j < |re'| ensures Entry(x, y, re', im', h, base, next, j) {
      assert Entry(x, y, re, im, h, base, done, j);
    }
  }

  lemma MixedNextBlock(x: Signal, y: Signal, re: seq<int>, im: seq<int>, h: nat, base: nat)
    requires Mixed(x, y, re, im, h, base, h)
    ensures Mixed(x, y, re, im, h, base + 2 * h, 0)
  {
    var next := base + 2 * h;
    forall j | 0 <= j < |re| ensures Entry(x, y, re, im, h, next, 0, j) {
      assert Entry(x, y, re, im, h, base, h, j);
    }
  }

  lemma MixedStart(x: Signal, y: Signal, h: nat)
    requires |x.re| == |x.im| == |y.re| == |y.im|
    ensures Mixed(x, y, x.re, x.im, h, 0, 0)
  {
    forall j | 0 <= j < |x.re| ensures Entry(x, y, x.re, x.im, h, 0, 0, j) { }
  }

  lemma MixedEnd(x: Signal, y: Signal, re: seq<int>, im: seq<int>, h: nat, base: nat)
    requires Mixed(x, y, re, im, h, base, 0) && base >= |re|
    ensures Signal(re, im) == y
  {
    forall j | 0 <= j < |re| ensures re[j] == y.re[j] && im[j] == y.im[j] {
      assert Entry(x, y, re, im, h, base, 0, j);
    }
  }

  /** The inputs of a butterfly are still there when its turn comes. */
  lemma MixedInputs(x: Signal, y: Signal, re: seq<int>, im: seq<int>, h: nat, base: nat, done: nat)
    requires Mixed(x, y, re, im, h, base, done) && done < h && base + h + done < |re|
    ensures var k := base + done; re[k] == x.re[k] && im[k] == x.im[k] && re[k + h] == x.re[k + h] && im[k + h] == x.im[k + h]
  {
    assert Entry(x, y, re, im, h, base, done, base + done);
    assert Entry(x, y, re, im, h, base, done, base + h + done);
  }

  /** Index k is the first of block b in stage l. */
  predicate BlockStart(nu: nat, l: nat, b: nat, k: nat)
    requires l <= nu
  {
    k == 2 * Pow2(nu - l) * b
  }

  lemma FirstBlock(nu: nat, l: nat)
    requires l <= nu
    ensures BlockStart(nu, l, 0, 0)
  { }

  lemma NextBlock(nu: nat, l: nat, b: nat, k: nat)
    requires l <= nu && BlockStart(nu, l, b, k)
    ensures BlockStart(nu, l, b + 1, k + 2 * Pow2(nu - l))
  { }

  lemma BlockCount(m: nat, h: nat, b: nat)
    requires 2 * h * b < 2 * m * h
    ensures 2 * h * b + 2 * h <= 2 * m * h
  {
    assert 2 * h * b == b * (2 * h) && 2 * m * h == m * (2 * h);
    Scale(m, b, 2 * h);
    assert b < m;
    Scale(b + 1, m, 2 * h);
    Scale(b, m, 2 * h);
  }

  /** A block that begins inside the array also ends inside it. */
  lemma BlockFits(nu: nat, l: nat, b: nat, k: nat)
    requires 1 <= l <= nu && BlockStart(nu, l, b, k) && k < Pow2(nu)
    ensures k + 2 * Pow2(nu - l) <= Pow2(nu)
  {
    var m, h := Pow2(l - 1), Pow2(nu - l);
    assert Pow2(nu) == 2 * m * h by { Pow2Sum(l - 1, nu - l); }
    BlockCount(m, h, b);
  }

  lemma LowerInBlock(nu: nat, l: nat, b: nat, base: nat, j: nat)
    requires l <= nu && BlockStart(nu, l, b, base) && j < Pow2(nu - l)
    ensures Lower(Pow2(nu - l), base + j)
  {
    BlockIndex(Pow2(nu - l), b, j);
  }

  lemma LowerOutput(x: Signal, nu: nat, l: nat, k: nat)
    requires 1 <= l <= nu && Sized(x, Pow2(nu)) && k + Pow2(nu - l) < Pow2(nu) && Lower(Pow2(nu - l), k)
    ensures var (tr, ti) := Turned(x, nu, Pow2(nu - l), k); var y := Stage(x, nu, l, false);
      y.re[k] == Int16(x.re[k] + tr) && y.im[k] == Int16(x.im[k] + ti)
  {
    hide Turned, Int16, Lower;
  }

  lemma UpperOutput(x: Signal, nu: nat, l: nat, k: nat)
    requires 1 <= l <= nu && Sized(x, Pow2(nu)) && k + Pow2(nu - l) < Pow2(nu) && !Lower(Pow2(nu - l), k + Pow2(nu - l))
    ensures var h := Pow2(nu - l); var (tr, ti) := Turned(x, nu, h, k); var y := Stage(x, nu, l, false);
      y.re[k + h] == Int16(x.re[k] - tr) && y.im[k + h] == Int16(x.im[k] - ti)
  {
    hide Turned, Int16, Lower;
  }

  /** The two outputs of the j-th butterfly of the block at `base`. */
  lemma StageOutputs(x: Signal, nu: nat, l: nat, b: nat, base: nat, j: nat)
    requires 1 <= l <= nu && Sized(x, Pow2(nu)) && j < Pow2(nu - l)
    requires BlockStart(nu, l, b, base) && base + Pow2(nu - l) + j < Pow2(nu)
    ensures var h := Pow2(nu - l); var k := base + j; var y := Stage(x, nu, l, false);
      var (tr, ti) := Turned(x, nu, h, k);
      && y.re[k] == Int16(x.re[k] + tr) && y.im[k] == Int16(x.im[k] + ti)
      && y.re[k + h] == Int16(x.re[k] - tr) && y.im[k + h] == Int16(x.im[k] - ti)
  {
    hide Turned, Int16, Lower, BlockStart, Stage, Pow2;
    LowerInBlock(nu, l, b, base, j);
    Partner(nu, l, base + j);
    LowerOutput(x, nu, l, base + j);
    UpperOutput(x, nu, l, base + j);
  }

  lemma QuotientBound(k: nat, h: nat)
    requires h >= 1
    ensures 0 <= k / h <= k
  {
    var q := k / h;
    assert q * h <= k;
    Scale(k + 1, q, h);
    assert (k + 1) * h >= k + 1;
  }

  lemma BlockNumber(nu: nat, k: nat, nu1: nat)
    requires nu <= 15 && k < Pow2(nu)
    ensures 0 <= k / Pow2(nu1) < 65536
  {
    Bits16(nu);
    QuotientBound(k, Pow2(nu1));
  }

  /** The two inner loops of ifft: all butterflies of stage l, two outputs at a time. */
  method RunStage(xre: array<int>, xim: array<int>, n: nat, ghost l: nat, nu: nat, nu1: nat, n2: nat)
    requires xre != xim && xre.Length == xim.Length == n == Pow2(nu) && nu <= 15
    requires 1 <= l <= nu && nu1 == nu - l && n2 == Pow2(nu1)
    modifies xre, xim
    ensures Signal(xre[..], xim[..]) == Stage(old(Signal(xre[..], xim[..])), nu, l, false)
  {
    hide Stage, Entry, Int16, Mixed, BlockStart, Rotate, SinI, CosI, BitRev, Pow2, Lower;
    ghost var x := Signal(xre[..], xim[..]);
    ghost var y := Stage(x, nu, l, false);
    MixedStart(x, y, n2);
    var k := 0;
    ghost var b := 0;
    FirstBlock(nu, l);
    while k < n
      invariant 0 <= k && 0 <= b && BlockStart(nu, l, b, k)
      invariant Mixed(x, y, xre[..], xim[..], n2, k, 0)
    {
      BlockFits(nu, l, b, k);
      ghost var base := k;
      var i := 1;
      while i <= n2
        invariant 1 <= i <= n2 + 1 && k == base + i - 1
        invariant Mixed(x, y, xre[..], xim[..], n2, base, i - 1)
      {
        MixedInputs(x, y, xre[..], xim[..], n2, base, i - 1);
        StageOutputs(x, nu, l, b, base, i - 1);
        ghost var re, im := xre[..], xim[..];
        BlockNumber(nu, k, nu1);
        var p := Bitrev(k / Pow2(nu1), nu);
        Fraction(p, n);
        var angle := 1000 * p / n;
        var (tr, ti) := Rotate(xre[k + n2], xim[k + n2], CosI(angle), SinI(angle));
        assert (tr, ti) == Turned(x, nu, n2, k);
        xre[k + n2] := Int16(xre[k] - tr);
        xim[k + n2] := Int16(xim[k] - ti);
        xre[k] := Int16(xre[k] + tr);
        xim[k] := Int16(xim[k] + ti);
        MixedStep(x, y, re, im, xre[..], xim[..], n2, base, i - 1);
        k := k + 1;
        i := i + 1;
      }
      MixedNextBlock(x, y, xre[..], xim[..], n2, base);
      NextBlock(nu, l, b, base);
      k := k + n2;
      b := b + 1;
    }
    MixedEnd(x, y, xre[..], xim[..], n2, k);
  }

  // ---- Reordering, magnitudes, and the whole transform ----

  predicate AllInt16(s: seq<int>) { forall k | 0 <= k < |s| :: -32768 <= s[k] < 32768 }

  /** Swaps up to k have been made: an index is in place as soon as it or its reverse has been visited. */
  predicate SwappedAt(s: seq<int>, t: seq<int>, nu: nat, k: nat, j: nat)
    requires |s| == |t| == Pow2(nu) && j < Pow2(nu)
  {
    var p := BitRev(j, nu);
    t[j] == if j < k || p < k then s[p] else s[j]
  }

  ghost predicate Swapped(s: seq<int>, t: seq<int>, nu: nat, k: nat) {
    && |s| == |t| == Pow2(nu)
    && forall j {:trigger SwappedAt(s, t, nu, k, j)} | 0 <= j < Pow2(nu) :: SwappedAt(s, t, nu, k, j)
  }

  lemma SwapStep(s: seq<int>, t: seq<int>, nu: nat, k: nat, p: nat, t': seq<int>)
    requires Swapped(s, t, nu, k) && k < Pow2(nu) && p == BitRev(k, nu)
    requires t' == if p > k then t[k := t[p]][p := t[k]] else t
    ensures Swapped(s, t', nu, k + 1)
  {
    BitRevInvolution(k, nu);
    assert SwappedAt(s, t, nu, k, k) && SwappedAt(s, t, nu, k, p);
    var next := k + 1;
    forall j | 0 <= j < Pow2(nu) ensures SwappedAt(s, t', nu, next, j) {
      assert SwappedAt(s, t, nu, k, j);
      BitRevInvolution(j, nu);
    }
  }

  lemma SwapStart(s: seq<int>, nu: nat)
    requires |s| == Pow2(nu)
    ensures Swapped(s, s, nu, 0)
  { }

  lemma SwapEnd(s: seq<int>, t: seq<int>, nu: nat)
    requires Swapped(s, t, nu, Pow2(nu))
    ensures forall j | 0 <= j < Pow2(nu) :: t[j] == s[BitRev(j, nu)]
  {
    forall j | 0 <= j < Pow2(nu) ensures t[j] == s[BitRev(j, nu)] { assert SwappedAt(s, t, nu, Pow2(nu), j); }
  }

  /** Two entries change places; the 16-bit unsigned variable n2 carries one of them. */
  method Exchange(a: array<int>, k: nat, p: nat)
    requires k < p < a.Length && AllInt16(a[..])
    modifies a
    ensures a[..] == old(a[..])[k := old(a[p])][p := old(a[k])] && AllInt16(a[..])
  {
    var n2 := a[k] % 65536;
    assert Int16(n2) == a[k];
    a[k] := a[p];
    a[p] := Int16(n2);
  }

  /** The reordering loop of ifft. */
  method Reorder(xre: array<int>, xim: array<int>, n: nat, nu: nat)
    requires xre != xim && xre.Length == xim.Length == n == Pow2(nu) && nu <= 15
    requires AllInt16(xre[..]) && AllInt16(xim[..])
    modifies xre, xim
    ensures Signal(xre[..], xim[..]) == Reordered(old(Signal(xre[..], xim[..])), nu)
  {
    hide Swapped, BitRev, Int16, AllInt16;
    ghost var re, im := xre[..], xim[..];
    SwapStart(re, nu);
    SwapStart(im, nu);
    Bits16(nu);
    for k := 0 to n
      invariant Swapped(re, xre[..], nu, k) && Swapped(im, xim[..], nu, k)
      invariant AllInt16(xre[..]) && AllInt16(xim[..])
    {
      ghost var tre, tim := xre[..], xim[..];
      var p := Bitrev(k, nu);
      if p > k {
        Exchange(xre, k, p);
        Exchange(xim, k, p);
      }
      SwapStep(re, tre, nu, k, p, xre[..]);
      SwapStep(im, tim, nu, k, p, xim[..]);
    }
    SwapEnd(re, xre[..], nu);
    SwapEnd(im, xim[..], nu);
  }

  /** The magnitude loop of ifft. */
  method Magnitude(xre: array<int>, xim: array<int>, n: nat, ghost nu: nat)
    requires xre != xim && xre.Length == xim.Length == n == Pow2(nu)
    modifies xre
    ensures Signal(xre[..], xim[..]) == Magnitudes(old(Signal(xre[..], xim[..])), nu, false)
  {
    ghost var re := xre[..];
    for i := 0 to n / 2
      invariant forall j | 0 <= j < i :: xre[j] == Int16(Abs(re[j]) + Abs(xim[j]))
      invariant forall j | i <= j < n :: xre[j] == re[j]
    {
      xre[i] := Int16(Abs(xre[i]) + Abs(xim[i]));
    }
  }

  lemma StagesInt16(x: Signal, nu: nat, l: nat)
    requires l <= nu && Sized(x, Pow2(nu)) && AllInt16(x.re) && AllInt16(x.im)
    ensures AllInt16(Stages(x, nu, l, false).re) && AllInt16(Stages(x, nu, l, false).im)
  {
    if l > 0 {
      var y := Stages(x, nu, l - 1, false);
      forall k | 0 <= k < Pow2(nu)
        ensures -32768 <= Stage(y, nu, l, false).re[k] < 32768 && -32768 <= Stage(y, nu, l, false).im[k] < 32768
      {
        hide Turned, Lower;
        Partner(nu, l, k);
      }
    }
  }

  lemma PowHalf(k: nat)
    ensures k > 0 ==> Pow2(k) / 2 == Pow2(k - 1)
  { }

  lemma StagesStart(x: Signal, nu: nat)
    requires Sized(x, Pow2(nu))
    ensures Stages(x, nu, 0, false) == x
  { }

  lemma StagesNext(x: Signal, nu: nat, l: nat)
    requires 1 <= l <= nu && Sized(x, Pow2(nu))
    ensures Stages(x, nu, l, false) == Stage(Stages(x, nu, l - 1, false), nu, l, false)
  { }

  /** ifft: the fixed-point transform of 2^nu samples, in place. */
  method Ifft(xre: array<int>, xim: array<int>, n: nat, ghost e: nat)
    requires xre != xim && xre.Length == xim.Length == n == Pow2(e) && e <= 15
    requires AllInt16(xre[..])
    modifies xre, xim
    ensures Signal(xre[..], xim[..]) == Transform(old(xre[..]), e, false)
    ensures e <= 7 && Small(old(xre[..])) ==> Signal(xre[..], xim[..]) == Transform(old(xre[..]), e, true)
  {
    hide Reordered, Magnitudes, Stage, Stages, Int16, Pow2;
    var nu := Ilog2(n);
    Pow2Injective(nu, e);
    PowHalf(nu);
    var nu1 := (nu + 65535) % 65536;
    var n2 := n / 2;
    for i := 0 to n
      invariant forall j | 0 <= j < i :: xim[j] == 0
      invariant xre[..] == old(xre[..])
    {
      xim[i] := 0;
    }
    ghost var x := Signal(xre[..], xim[..]);
    assert x.im == Fill(0, n);
    StagesStart(x, nu);
    var l := 1;
    while l <= nu
      invariant 1 <= l <= nu + 1
      invariant Signal(xre[..], xim[..]) == Stages(x, nu, l - 1, false)
      invariant l <= nu ==> nu1 == nu - l && n2 == Pow2(nu - l)
    {
      RunStage(xre, xim, n, l, nu, nu1, n2);
      StagesNext(x, nu, l);
      PowHalf(nu - l);
      nu1 := (nu1 + 65535) % 65536;
      n2 := n2 / 2;
      l := l + 1;
    }
    StagesInt16(x, nu, nu);
    Reorder(xre, xim, n, nu);
    Magnitude(xre, xim, n, nu);
    if e <= 7 && Small(old(xre[..])) { TransformExact(old(xre[..]), e); }
  }
}
