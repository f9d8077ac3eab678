/**
 * os/lib/crc16.c: CRC-16 by shifts and exclusive-ors, against long division of polynomials over GF(2).
 * A machine word is the sequence of its bits, the bit of weight 2^i at index i.
 */
module Crc16 {
  import opened Common

  type Word = w: seq<bool> | |w| == 16 witness seq(16, _ => false)
  type Octet = b: seq<bool> | |b| == 8 witness seq(8, _ => false)

  // ---- Division ----

  /** x^16 + x^12 + x^5 + 1 without its leading term, highest degree first: also the word 0x8408. */
  const GENERATOR: Word := [false, false, false, true, false, false, false, false, false, false, true, false, false, false, false, true]

  function Plus(p: seq<bool>, q: seq<bool>): (r: seq<bool>)
    requires |p| == |q|
    ensures |r| == |p|
  {
    seq(|p|, i requires 0 <= i < |p| => p[i] != q[i])
  }

  /** q added to the leading terms of p. */
  function PlusFront(p: seq<bool>, q: seq<bool>): (r: seq<bool>)
    requires |q| <= |p|
    ensures |r| == |p|
  {
    Plus(p[..|q|], q) + p[|q|..]
  }

  /** Long division of polynomials, coefficients from the highest degree down: the 16 terms of the remainder. */
  function Remainder(p: seq<bool>): (r: Word)
    requires |p| >= 16
    decreases |p|
  {
    if |p| == 16 then p
    else if p[0] then Remainder(PlusFront(p[1..], GENERATOR))
    else Remainder(p[1..])
  }

  // ---- The register, a bit at a time ----

  /** One step of the register: the lowest bit falls out and, if set, brings the generator in. */
  function Shift(x: Word): (y: Word) {
    if x[0] then Plus(x[1..] + [false], GENERATOR) else x[1..] + [false]
  }

  /** One bit of the message meets the register. */
  function Feed(acc: Word, bit: bool): Word { Shift(acc[0 := acc[0] != bit]) }

  function FeedAll(acc: Word, bits: seq<bool>): Word
    decreases bits
  {
    if bits == [] then acc else FeedAll(Feed(acc, bits[0]), bits[1..])
  }

  lemma FeedAt(acc: Word, bit: bool, i: int)
    requires 0 <= i < 16
    ensures Feed(acc, bit)[i] == ((i < 15 && acc[i + 1]) != (GENERATOR[i] && acc[0] != bit))
  { }

  lemma {:induction false} FeedConcat(acc: Word, a: seq<bool>, b: seq<bool>)
    ensures FeedAll(acc, a + b) == FeedAll(FeedAll(acc, a), b)
    decreases a
  {
    hide Feed;
    if a == [] {
      assert a + b == b;
    } else {
      assert (a + b)[1..] == a[1..] + b;
      FeedConcat(Feed(acc, a[0]), a[1..], b);
    }
  }

  lemma PlusFrontAt(p: seq<bool>, q: seq<bool>, i: nat)
    requires |q| <= |p| && i < |p|
    ensures PlusFront(p, q)[i] == (p[i] != (i < |q| && q[i]))
  { }

  /** One bit is one step of the division. */
  lemma DivisionStep(m: seq<bool>, acc: Word)
    requires |m| > 16
    ensures Remainder(PlusFront(m, acc)) == Remainder(PlusFront(m[1..], Feed(acc, m[0])))
  {
    var p := PlusFront(m, acc);
    var q, r := if p[0] then PlusFront(p[1..], GENERATOR) else p[1..], PlusFront(m[1..], Feed(acc, m[0]));
    hide PlusFront, Feed;
    PlusFrontAt(m, acc, 0);
    forall i | 0 <= i < |m| - 1 ensures q[i] == r[i] {
      if i < 16 { FeedAt(acc, m[0], i); }
      PlusFrontAt(m, acc, i + 1);
      PlusFrontAt(p[1..], GENERATOR, i);
      PlusFrontAt(m[1..], Feed(acc, m[0]), i);
    }
    assert q == r;
  }

  /** Feeding a message leaves the remainder of the message times x^16, the initial register added in front. */
  lemma {:induction false} FeedDivides(acc: Word, bits: seq<bool>)
    ensures FeedAll(acc, bits) == Remainder(PlusFront(bits + Fill(false, 16), acc))
    decreases bits
  {
    var m := bits + Fill(false, 16);
    if bits == [] {
      assert PlusFront(m, acc) == acc;
    } else {
      assert m[1..] == bits[1..] + Fill(false, 16);
      DivisionStep(m, acc);
      hide Feed, Remainder, PlusFront;
      FeedDivides(Feed(acc, bits[0]), bits[1..]);
    }
  }

  // ---- The register, a byte at a time ----

  function Shifts(x: Word, n: nat): Word
    decreases n
  {
    if n == 0 then x else Shifts(Shift(x), n - 1)
  }

  /** Up to 16 bits may meet the register together, ahead of the steps. */
  lemma {:induction false} FeedEarly(acc: Word, bits: seq<bool>)
    requires |bits| <= 16
    ensures FeedAll(acc, bits) == Shifts(Plus(acc, bits + Fill(false, 16 - |bits|)), |bits|)
    decreases bits
  {
    var x := Plus(acc, bits + Fill(false, 16 - |bits|));
    if bits == [] {
      assert x == acc;
    } else {
      var rest := bits[1..] + Fill(false, 17 - |bits|);
      assert Shift(x) == Plus(Feed(acc, bits[0]), rest) by {
        forall i | 0 <= i < 16 ensures Shift(x)[i] == Plus(Feed(acc, bits[0]), rest)[i] { FeedAt(acc, bits[0], i); }
      }
      hide Shift, Feed, Plus;
      FeedEarly(Feed(acc, bits[0]), bits[1..]);
    }
  }

  /** Bit i after n steps, n up to four: the bits that fall out land on each of the three taps. */
  predicate JumpAt(x: Word, n: nat, i: int)
    requires n <= 4 && 0 <= i < 16
  {
    var tap := if 16 - n <= i then x[i - (16 - n)] else if 11 - n <= i < 11 then x[i - (11 - n)] else 4 - n <= i < 4 && x[i - (4 - n)];
    (i + n < 16 && x[i + n]) != tap
  }

  function Jump(x: Word, n: nat): (y: seq<bool>)
    requires n <= 4
    ensures |y| == 16 && forall i | 0 <= i < 16 :: y[i] == JumpAt(x, n, i)
  {
    seq(16, i requires 0 <= i < 16 => JumpAt(x, n, i))
  }

  lemma ShiftAt(x: Word, i: int)
    requires 0 <= i < 16
    ensures Shift(x)[i] == ((i < 15 && x[i + 1]) != (GENERATOR[i] && x[0]))
  { }

  lemma JumpShiftAt(x: Word, n: nat, i: int)
    requires n < 4 && 0 <= i < 16
    ensures JumpAt(Shift(x), n, i) == JumpAt(x, n + 1, i)
  {
    hide Shift;
    if i + n < 16 { ShiftAt(x, i + n); }
    if 16 - n <= i { ShiftAt(x, i - (16 - n)); }
    if 11 - n <= i < 11 { ShiftAt(x, i - (11 - n)); }
    if 4 - n <= i < 4 { ShiftAt(x, i - (4 - n)); }
  }

  lemma {:induction false} JumpShifts(x: Word, n: nat)
    requires n <= 4
    ensures Shifts(x, n) == Jump(x, n)
    decreases n
  {
    if n == 0 {
      assert Jump(x, 0) == x;
    } else {
      JumpShifts(Shift(x), n - 1);
      forall i | 0 <= i < 16 ensures Jump(Shift(x), n - 1)[i] == Jump(x, n)[i] { JumpShiftAt(x, n - 1, i); }
      assert Jump(Shift(x), n - 1) == Jump(x, n);
    }
  }

  lemma {:induction false} ShiftsConcat(x: Word, m: nat, n: nat)
    ensures Shifts(x, m + n) == Shifts(Shifts(x, m), n)
    decreases m
  {
    if m > 0 { ShiftsConcat(Shift(x), m - 1, n); }
  }

  function Shr(w: Word, n: nat): Word
    requires n <= 16
  {
    w[n..] + Fill(false, n)
  }

  function Shl(w: Word, n: nat): Word
    requires n <= 16
  {
    Fill(false, n) + w[..16 - n]
  }

  /** w & 0xff00 */
  function HighByte(w: Word): Word { Fill(false, 8) + w[8..] }

  function Or(v: Word, w: Word): (r: seq<bool>)
    ensures |r| == 16
  {
    seq(16, i requires 0 <= i < 16 => v[i] || w[i])
  }

  /** Bit i of the register before the last statement of crc16_add, from the bits of the sum of register and byte. */
  predicate Folded(x: Word, i: int)
    requires 0 <= i < 16
  {
    if i < 4 then (x[i + 4] != x[i]) != x[i + 8]
    else if i < 8 then x[i + 8]
    else if i < 12 then x[i - 8]
    else x[i - 12] != x[i - 8]
  }

  lemma FoldedBits(x: Word, a2: Word, a3: Word, a4: Word)
    requires a2 == Or(Shr(x, 8), Shl(x, 8))
    requires a3 == Plus(a2, Shl(HighByte(a2), 4))
    requires a4 == Plus(a3, Shr(Shr(a3, 8), 4))
    ensures forall i | 0 <= i < 16 :: a4[i] == Folded(x, i)
  {
    assert forall i | 0 <= i < 16 :: a2[i] == x[if i < 8 then i + 8 else i - 8];
    assert forall i | 0 <= i < 16 :: a3[i] == (a2[i] != (i >= 12 && a2[i - 4]));
    assert forall i | 0 <= i < 16 :: a4[i] == (a3[i] != (i < 4 && a3[i + 12]));
    hide Plus, Or, Shr, Shl, HighByte;
    forall i | 0 <= i < 16 ensures a4[i] == Folded(x, i) {
      assert i < 4 ==> a3[i + 12] == (a2[i + 12] != a2[i + 8]) == (x[i + 4] != x[i]);
    }
  }

  lemma FoldedJumps(x: Word, i: int)
    requires 0 <= i < 16
    ensures JumpAt(Jump(x, 4), 4, i) == (Folded(x, i) != (3 <= i < 11 && Folded(x, i + 5)))
  {
    var y := Jump(x, 4);
    assert forall j | 0 <= j < 4 :: y[j] == (x[j + 4] != x[j]);
    assert forall j | 4 <= j < 12 :: y[j] == (x[j + 4] != (7 <= j < 11 && x[j - 7]));
    assert forall j | 12 <= j < 16 :: y[j] == x[j - 12];
    assert JumpAt(y, 4, i)
      == ((i < 12 && y[i + 4]) != if i >= 12 then y[i - 12] else if 7 <= i < 11 then y[i - 7] else i < 4 && y[i]);
  }

  /** The statements of crc16_add, bit by bit, are eight steps. */
  lemma Mixed(x: Word, a2: Word, a3: Word, a4: Word, a5: Word)
    requires a2 == Or(Shr(x, 8), Shl(x, 8))
    requires a3 == Plus(a2, Shl(HighByte(a2), 4))
    requires a4 == Plus(a3, Shr(Shr(a3, 8), 4))
    requires a5 == Plus(a4, Shr(HighByte(a4), 5))
    ensures a5 == Jump(Jump(x, 4), 4)
  {
    FoldedBits(x, a2, a3, a4);
    assert forall i | 0 <= i < 16 :: a5[i] == (a4[i] != (3 <= i < 11 && a4[i + 5]));
    hide Plus, Or, Shr, Shl, HighByte, Jump, JumpAt, Folded;
    forall i | 0 <= i < 16 ensures a5[i] == Jump(Jump(x, 4), 4)[i] { FoldedJumps(x, i); }
  }

  /** crc16_add: eight steps of the division in a few shifts. */
  method Crc16Add(b: Octet, start: Word) returns (acc: Word)
    ensures acc == FeedAll(start, b)
  {
    var a1: Word := Plus(start, b + Fill(false, 8));
    var a2: Word := Or(Shr(a1, 8), Shl(a1, 8));
    var a3: Word := Plus(a2, Shl(HighByte(a2), 4));
    var a4: Word := Plus(a3, Shr(Shr(a3, 8), 4));
    acc := Plus(a4, Shr(HighByte(a4), 5));
    Mixed(a1, a2, a3, a4, acc);
    FeedEarly(start, b);
    ShiftsConcat(a1, 4, 4);
    JumpShifts(a1, 4);
    JumpShifts(Jump(a1, 4), 4);
  }

  // ---- Messages ----

  /** The bits of a message in the order they are divided: first byte first, lowest bit first. */
  function Message(data: seq<Octet>): (r: seq<bool>)
    ensures |r| == 8 * |data|
  {
    if data == [] then [] else Message(data[..|data| - 1]) + data[|data| - 1]
  }

  /** The remainder that crc16_data computes from an initial value. */
  function Crc(data: seq<Octet>, start: Word): Word { FeedAll(start, Message(data)) }

  /** crc16_data; a length below 1 leaves the initial value. */
  method Crc16Data(data: array<Octet>, len: int, start: Word) returns (acc: Word)
    requires len <= data.Length
    ensures acc == Crc(data[..if len < 0 then 0 else len], start)
  {
    acc := start;
    var i := 0;
    while i < len
      invariant 0 <= i && (len >= 0 ==> i <= len) && (len < 0 ==> i == 0)
      invariant acc == Crc(data[..i], start)
    {
      assert data[..i + 1][..i] == data[..i];
      FeedConcat(start, Message(data[..i]), data[i]);
      acc := Crc16Add(data[i], acc);
      i := i + 1;
    }
  }

  /** The CRC is the remainder of dividing the message times x^16, with the initial value added in front. */
  lemma CrcDivides(data: seq<Octet>, start: Word)
    ensures Crc(data, start) == Remainder(PlusFront(Message(data) + Fill(false, 16), start))
  {
    FeedDivides(start, Message(data));
  }

  lemma {:induction false} MessageConcat(a: seq<Octet>, b: seq<Octet>)
    ensures Message(a + b) == Message(a) + Message(b)
  {
    if b == [] {
      assert a + b == a;
    } else {
      assert (a + b)[..|a + b| - 1] == a + b[..|b| - 1];
      MessageConcat(a, b[..|b| - 1]);
    }
  }

  /** The CRC may be computed piece by piece. */
  lemma CrcConcat(a: seq<Octet>, b: seq<Octet>, start: Word)
    ensures Crc(a + b, start) == Crc(b, Crc(a, start))
  {
    MessageConcat(a, b);
    FeedConcat(start, Message(a), Message(b));
  }

  // ---- Errors that are detected ----

  lemma FeedInjective(r: Word, s: Word, bit: bool)
    requires r != s
    ensures Feed(r, bit) != Feed(s, bit)
  {
    var i :| 0 <= i < 16 && r[i] != s[i];
    if r[0] != s[0] {
      FeedAt(r, bit, 15);
      FeedAt(s, bit, 15);
    } else {
      FeedAt(r, bit, i - 1);
      FeedAt(s, bit, i - 1);
    }
  }

  lemma {:induction false} FeedAllInjective(r: Word, s: Word, bits: seq<bool>)
    requires r != s
    ensures FeedAll(r, bits) != FeedAll(s, bits)
    decreases bits
  {
    if bits != [] {
      FeedInjective(r, s, bits[0]);
      FeedAllInjective(Feed(r, bits[0]), Feed(s, bits[0]), bits[1..]);
    }
  }

  /** A difference at bit i takes more than i steps to leave the register. */
  lemma {:induction false} ApartStays(r: Word, s: Word, u: seq<bool>, v: seq<bool>, i: nat)
    requires |u| == |v| <= i < 16 && r[i] != s[i]
    ensures FeedAll(r, u) != FeedAll(s, v)
    decreases u
  {
    hide Feed;
    if u != [] {
      var r', s' := Feed(r, u[0]), Feed(s, v[0]);
      FeedAt(r, u[0], i - 1);
      FeedAt(s, v[0], i - 1);
      FeedAt(r, u[0], 15);
      FeedAt(s, v[0], 15);
      ApartStays(r', s', u[1..], v[1..], if r'[15] != s'[15] then 15 else i - 1);
    }
  }

  /** Two different bit strings of equal length, up to 16, drive the register apart. */
  lemma {:induction false} BurstApart(r: Word, u: seq<bool>, v: seq<bool>)
    requires |u| == |v| <= 16 && u != v
    ensures FeedAll(r, u) != FeedAll(r, v)
    decreases u
  {
    if u[0] == v[0] {
      assert u == [u[0]] + u[1..] && v == [v[0]] + v[1..];
      BurstApart(Feed(r, u[0]), u[1..], v[1..]);
    } else {
      FeedAt(r, u[0], 15);
      FeedAt(r, v[0], 15);
      ApartStays(Feed(r, u[0]), Feed(r, v[0]), u[1..], v[1..], 15);
    }
  }

  /** Two bit streams of equal length that differ only within 16 consecutive bits never share a remainder. */
  lemma BurstDetected(start: Word, before: seq<bool>, u: seq<bool>, v: seq<bool>, after: seq<bool>)
    requires |u| == |v| <= 16 && u != v
    ensures FeedAll(start, before + u + after) != FeedAll(start, before + v + after)
  {
    var r := FeedAll(start, before);
    FeedConcat(start, before + u, after);
    FeedConcat(start, before + v, after);
    FeedConcat(start, before, u);
    FeedConcat(start, before, v);
    BurstApart(r, u, v);
    FeedAllInjective(FeedAll(r, u), FeedAll(r, v), after);
  }

  lemma {:induction false} MessageInjective(u: seq<Octet>, v: seq<Octet>)
    requires |u| == |v| && Message(u) == Message(v)
    ensures u == v
  {
    if u != [] {
      var m, n := |u| - 1, 8 * (|u| - 1);
      assert Message(u)[..n] == Message(u[..m]) && Message(u)[n..] == u[m];
      assert Message(v)[..n] == Message(v[..m]) && Message(v)[n..] == v[m];
      MessageInjective(u[..m], v[..m]);
      assert u == u[..m] + [u[m]] && v == v[..m] + [v[m]];
    }
  }

  /** Messages of equal length that differ only within two consecutive bytes never share a CRC. */
  lemma TwoBytesDetected(start: Word, before: seq<Octet>, u: seq<Octet>, v: seq<Octet>, after: seq<Octet>)
    requires |u| == |v| <= 2 && u != v
    ensures Crc(before + u + after, start) != Crc(before + v + after, start)
  {
    MessageConcat(before + u, after);
    MessageConcat(before, u);
    MessageConcat(before + v, after);
    MessageConcat(before, v);
    if Message(u) == Message(v) { MessageInjective(u, v); }
    BurstDetected(start, Message(before), Message(u), Message(v), Message(after));
  }

  /** Feeding a register its own bits shifts zeros in. */
  lemma {:induction false} FeedOwn(acc: Word, n: nat)
    requires n <= 16
    ensures FeedAll(acc, acc[..n]) == acc[n..] + Fill(false, n)
    decreases n
  {
    if n == 0 {
      assert acc[..0] == [];
    } else {
      var next := Feed(acc, acc[0]);
      assert next == acc[1..] + [false];
      assert acc[..n][1..] == next[..n - 1];
      FeedOwn(next, n - 1);
      assert next[n - 1..] + Fill(false, n - 1) == acc[n..] + Fill(false, n);
    }
  }

  /** A message followed by two bytes has CRC zero exactly if they are its own CRC, low byte first. */
  lemma Residue(data: seq<Octet>, low: Octet, high: Octet, start: Word)
    ensures Crc(data + [low, high], start) == Fill(false, 16) <==> Crc(data, start) == low + high
  {
    var c := Crc(data, start);
    CrcConcat(data, [low, high], start);
    assert [low, high][..1] == [low] && [low][..0] == [];
    assert Message([low, high]) == low + high;
    FeedOwn(c, 16);
    assert c[..16] == c && c[16..] + Fill(false, 16) == Fill(false, 16);
    if c != low + high { BurstApart(c, low + high, c); }
  }

  /** Is the number of ones odd? */
  predicate OddBits(bits: seq<bool>) {
    if bits == [] then false else bits[0] != OddBits(bits[1..])
  }

  lemma {:induction false} OddConcat(p: seq<bool>, q: seq<bool>)
    ensures OddBits(p + q) == (OddBits(p) != OddBits(q))
  {
    if p == [] {
      assert p + q == q;
    } else {
      assert (p + q)[1..] == p[1..] + q;
      OddConcat(p[1..], q);
    }
  }

  lemma {:induction false} OddPlus(p: seq<bool>, q: seq<bool>)
    requires |p| == |q|
    ensures OddBits(Plus(p, q)) == (OddBits(p) != OddBits(q))
  {
    if p != [] {
      OddPlus(p[1..], q[1..]);
      assert Plus(p, q)[1..] == Plus(p[1..], q[1..]);
    }
  }

  lemma {:induction false} OddRun(n: nat)
    ensures OddBits(Fill(false, n) + [true])
    decreases n
  {
    if n > 0 {
      OddRun(n - 1);
      assert (Fill(false, n) + [true])[1..] == Fill(false, n - 1) + [true];
    }
  }

  lemma OddGenerator()
    ensures OddBits(GENERATOR)
  {
    var a, b, c := Fill(false, 3) + [true], Fill(false, 6) + [true], Fill(false, 4) + [true];
    OddRun(3);
    OddRun(6);
    OddRun(4);
    assert GENERATOR == a + (b + c);
    hide OddBits;
    OddConcat(a, b + c);
    OddConcat(b, c);
  }

  /** x + 1 divides the generator: a step keeps the parity of register and bit together. */
  lemma FeedOdd(acc: Word, bit: bool)
    ensures OddBits(Feed(acc, bit)) == (OddBits(acc) != bit)
  {
    var x := acc[0 := acc[0] != bit];
    OddConcat(x[1..], [false]);
    OddGenerator();
    OddPlus(x[1..] + [false], GENERATOR);
    assert x[1..] == acc[1..];
    assert OddBits([false]) == false;
  }

  lemma {:induction false} FeedAllOdd(acc: Word, bits: seq<bool>)
    ensures OddBits(FeedAll(acc, bits)) == (OddBits(acc) != OddBits(bits))
    decreases bits
  {
    if bits != [] {
      FeedOdd(acc, bits[0]);
      FeedAllOdd(Feed(acc, bits[0]), bits[1..]);
    }
  }

  /** Messages of equal length that differ in an odd number of bits, anywhere, never share a CRC. */
  lemma OddErrorsDetected(start: Word, u: seq<Octet>, v: seq<Octet>)
    requires |u| == |v| && OddBits(Plus(Message(u), Message(v)))
    ensures Crc(u, start) != Crc(v, start)
  {
    OddPlus(Message(u), Message(v));
    FeedAllOdd(start, Message(u));
    FeedAllOdd(start, Message(v));
  }
}
