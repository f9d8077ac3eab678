/**
 * CCM block by block and byte by byte, as sections 2.2 and 2.3 of RFC 3610 write it down, and what the tag of a
 * message binds.
 */
module CcmBlocks {
  import opened CcmSpec

  /** Number of blocks that n bytes are cut into. */
  function Count(n: nat): nat { (n + 15) / 16 }

  /** Block i of d, the last one filled up with zeros. */
  function Nth(d: Bytes, i: nat): (b: Block)
    ensures forall j | 0 <= j < 16 :: b[j] == if 16 * i + j < |d| then d[16 * i + j] else 0
  {
    seq(16, j requires 0 <= j < 16 => if 16 * i + j < |d| then d[16 * i + j] else 0)
  }

  /** Chaining value i + 1 comes from chaining value i and block b. */
  predicate LinkAt(e: Block -> Block, xs: seq<Block>, i: nat, b: Block) {
    i + 1 < |xs| && xs[i + 1] == e(Xor(xs[i], b))
  }

  /** xs are the chaining values over the blocks of d, from x on. */
  ghost predicate Links(e: Block -> Block, x: Block, d: Bytes, xs: seq<Block>) {
    && |xs| == Count(|d|) + 1 && xs[0] == x
    && forall i: nat | i < Count(|d|) :: LinkAt(e, xs, i, Nth(d, i))
  }

  lemma NthTail(d: Bytes)
    requires d != []
    ensures Padded(d) == Nth(d, 0)
    ensures var rest := if |d| <= 16 then [] else d[16..];
      Count(|d|) == Count(|rest|) + 1 && forall i: nat :: Nth(rest, i) == Nth(d, i + 1)
  {
    var rest := if |d| <= 16 then [] else d[16..];
    assert Padded(d) == Nth(d, 0);
    forall i: nat ensures Nth(rest, i) == Nth(d, i + 1) {
      var a, b := Nth(rest, i), Nth(d, i + 1);
      forall j | 0 <= j < 16 ensures a[j] == b[j] { }
      assert a == b;
    }
  }

  lemma {:induction false} LinksEnd(e: Block -> Block, x: Block, d: Bytes, xs: seq<Block>)
    requires Links(e, x, d, xs)
    ensures |xs| > 0 && xs[|xs| - 1] == Chain(e, x, d)
    decreases |d|
  {
    if d != [] {
      var rest := if |d| <= 16 then [] else d[16..];
      NthTail(d);
      hide Nth, Padded, Xor;
      var ys := xs[1..];
      assert LinkAt(e, xs, 0, Nth(d, 0));
      forall i: nat | i < Count(|rest|) ensures LinkAt(e, ys, i, Nth(rest, i)) {
        assert LinkAt(e, xs, i + 1, Nth(d, i + 1));
      }
      LinksEnd(e, e(Xor(x, Padded(d))), rest, ys);
    }
  }

  /** Chaining values exist for any data. */
  lemma {:induction false} LinksExist(e: Block -> Block, x: Block, d: Bytes) returns (xs: seq<Block>)
    ensures |xs| > 0 && Links(e, x, d, xs)
    decreases |d|
  {
    if d == [] {
      xs := [x];
    } else {
      var rest := if |d| <= 16 then [] else d[16..];
      NthTail(d);
      hide Nth, Padded, Xor;
      var ys := LinksExist(e, e(Xor(x, Padded(d))), rest);
      xs := [x] + ys;
      forall i: nat | i < Count(|d|) ensures LinkAt(e, xs, i, Nth(d, i)) {
        if i > 0 { assert LinkAt(e, ys, i - 1, Nth(rest, i - 1)) && Nth(rest, i - 1) == Nth(d, i - 1 + 1); }
      }
    }
  }

  // ---- The MIC ----

  /**
   * The MIC u of m and a: chaining values xs over the length of a and a itself, from B_0 on, then ys over m; the
   * last of them, combined with S_0, begins with u.
   */
  ghost predicate MicChain(e: Block -> Block, nonce: Nonce, m: Bytes, a: Bytes, u: Bytes, xs: seq<Block>, ys: seq<Block>)
    requires |m| < 65536 && |a| < 0xFF00 && MicLength(|u|)
  {
    var flags := (if a == [] then 0 else 64) + 8 * ((|u| - 2) / 2) + 1;
    var first: Block := [Byte(flags)] + nonce + [Byte(|m| / 256), Byte(|m| % 256)];
    var data := if a == [] then [] else [Byte(|a| / 256), Byte(|a| % 256)] + a;
    var s0 := e([1] + nonce + [0, 0]);
    && Links(e, e(first), data, xs) && Links(e, xs[|xs| - 1], m, ys)
    && forall j | 0 <= j < |u| :: u[j] == ys[|ys| - 1][j] ^ s0[j]
  }

  ghost predicate IsMic(e: Block -> Block, nonce: Nonce, m: Bytes, a: Bytes, u: Bytes) {
    |m| < 65536 && |a| < 0xFF00 && MicLength(|u|) && exists xs, ys :: MicChain(e, nonce, m, a, u, xs, ys)
  }

  lemma MicParts(nonce: Nonce, m: Bytes, a: Bytes, micLen: nat)
    requires |m| < 65536 && |a| < 0xFF00 && MicLength(micLen)
    ensures FirstBlock(nonce, |m|, a != [], micLen)
      == [Byte((if a == [] then 0 else 64) + 8 * ((micLen - 2) / 2) + 1)] + nonce + [Byte(|m| / 256), Byte(|m| % 256)]
    ensures AuthData(a) == if a == [] then [] else [Byte(|a| / 256), Byte(|a| % 256)] + a
    ensures CounterBlock(nonce, 0) == [1] + nonce + [0, 0]
  { }

  lemma MicBytes(x: Block, s0: Block, u: Bytes)
    requires |u| <= 16
    ensures u == Xor(x, s0)[..|u|] <==> forall j | 0 <= j < |u| :: u[j] == x[j] ^ s0[j]
  { }

  lemma MicUnfold(e: Block -> Block, nonce: Nonce, m: Bytes, a: Bytes, u: Bytes, xs: seq<Block>, ys: seq<Block>)
    requires |m| < 65536 && |a| < 0xFF00 && MicLength(|u|)
    ensures MicChain(e, nonce, m, a, u, xs, ys) <==>
      && Links(e, e(FirstBlock(nonce, |m|, a != [], |u|)), AuthData(a), xs) && |xs| > 0
      && Links(e, xs[|xs| - 1], m, ys) && |ys| > 0
      && u == Xor(ys[|ys| - 1], e(CounterBlock(nonce, 0)))[..|u|]
  {
    MicParts(nonce, m, a, |u|);
    hide Byte, FirstBlock, AuthData, CounterBlock, Xor, LinkAt;
    if |ys| > 0 { MicBytes(ys[|ys| - 1], e(CounterBlock(nonce, 0)), u); }
  }

  /** The MIC of RFC 3610 is the tag that is computed, and no other string is. */
  lemma MicIsTag(e: Block -> Block, nonce: Nonce, m: Bytes, a: Bytes, u: Bytes)
    requires |m| < 65536 && |a| < 0xFF00 && MicLength(|u|)
    ensures IsMic(e, nonce, m, a, u) <==> u == Tag(e, nonce, m, a, |u|)
  {
    hide Links, Chain, Xor, FirstBlock, AuthData, CounterBlock, MicChain;
    var first := e(FirstBlock(nonce, |m|, a != [], |u|));
    if IsMic(e, nonce, m, a, u) {
      var xs, ys :| MicChain(e, nonce, m, a, u, xs, ys);
      MicUnfold(e, nonce, m, a, u, xs, ys);
      LinksEnd(e, first, AuthData(a), xs);
      LinksEnd(e, xs[|xs| - 1], m, ys);
    }
    if u == Tag(e, nonce, m, a, |u|) {
      var xs := LinksExist(e, first, AuthData(a));
      LinksEnd(e, first, AuthData(a), xs);
      var ys := LinksExist(e, xs[|xs| - 1], m);
      LinksEnd(e, xs[|xs| - 1], m, ys);
      MicUnfold(e, nonce, m, a, u, xs, ys);
    }
  }

  // ---- Encryption ----

  /** Byte j of m is combined with byte j % 16 of S_i, i = j / 16 + 1. */
  ghost predicate IsCrypt(e: Block -> Block, nonce: Nonce, m: Bytes, c: Bytes) {
    && |c| == |m| < 65536
    && forall j | 0 <= j < |m| ::
      var i := j / 16 + 1; c[j] == m[j] ^ e([1] + nonce + [Byte(i / 256), Byte(i % 256)])[j % 16]
  }

  lemma CryptIs(e: Block -> Block, nonce: Nonce, m: Bytes)
    requires |m| < 65536
    ensures IsCrypt(e, nonce, m, Crypt(e, nonce, m))
  {
    hide Byte;
  }

  // ---- What the MIC binds ----

  ghost predicate Injective(e: Block -> Block) { forall x, y :: e(x) == e(y) ==> x == y }

  lemma CombineCancels(a: bv8, b: bv8, c: bv8)
    ensures a ^ c == b ^ c <==> a == b
    ensures c ^ a == c ^ b <==> a == b
  { }

  lemma XorApart(x: Block, y: Block, b: Block)
    requires x != y
    ensures Xor(x, b) != Xor(y, b) && Xor(b, x) != Xor(b, y)
  {
    var j :| 0 <= j < 16 && x[j] != y[j];
    CombineCancels(x[j], y[j], b[j]);
    assert Xor(x, b)[j] != Xor(y, b)[j] && Xor(b, x)[j] != Xor(b, y)[j];
  }

  /** Different chaining values stay different. */
  lemma {:induction false} ChainApart(e: Block -> Block, x: Block, y: Block, d: Bytes)
    requires Injective(e) && x != y
    ensures Chain(e, x, d) != Chain(e, y, d)
    decreases |d|
  {
    if d != [] {
      XorApart(x, y, Padded(d));
      ChainApart(e, e(Xor(x, Padded(d))), e(Xor(y, Padded(d))), if |d| <= 16 then [] else d[16..]);
    }
  }

  /** c and d have the same length and differ, but only in block k. */
  ghost predicate ApartInBlock(c: Bytes, d: Bytes, k: nat) {
    |c| == |d| && c != d && forall p | 0 <= p < |c| && p / 16 != k :: c[p] == d[p]
  }

  lemma {:induction false} ChainBinds(e: Block -> Block, x: Block, c: Bytes, d: Bytes, k: nat)
    requires Injective(e) && ApartInBlock(c, d, k)
    ensures Chain(e, x, c) != Chain(e, x, d)
    decreases |c|
  {
    var c', d' := if |c| <= 16 then [] else c[16..], if |d| <= 16 then [] else d[16..];
    if k == 0 {
      FirstApart(c, d);
      hide Padded, Xor;
      assert c' == d';
      XorApart(Padded(c), Padded(d), x);
      ChainApart(e, e(Xor(x, Padded(c))), e(Xor(x, Padded(d))), c');
    } else {
      LaterApart(c, d, k);
      hide Padded, Xor;
      ChainBinds(e, e(Xor(x, Padded(c))), c', d', k - 1);
    }
  }

  lemma FirstApart(c: Bytes, d: Bytes)
    requires ApartInBlock(c, d, 0)
    ensures Padded(c) != Padded(d) && (|c| > 16 ==> c[16..] == d[16..])
  {
    var p :| 0 <= p < |c| && c[p] != d[p];
    assert Padded(c)[p] != Padded(d)[p];
  }

  lemma LaterApart(c: Bytes, d: Bytes, k: nat)
    requires ApartInBlock(c, d, k) && k > 0
    ensures |c| > 16 && Padded(c) == Padded(d) && ApartInBlock(c[16..], d[16..], k - 1)
  {
    var p :| 0 <= p < |c| && c[p] != d[p];
    assert p / 16 == k;
    assert c[16..][p - 16] != d[16..][p - 16];
    forall q | 0 <= q < |c| - 16 && q / 16 != k - 1 ensures c[16..][q] == d[16..][q] {
      assert (q + 16) / 16 != k;
    }
  }

  /** Additional data of equal length that differ within one block never share a full MIC. */
  lemma AuthBinds(e: Block -> Block, nonce: Nonce, m: Bytes, a: Bytes, b: Bytes, k: nat, u: Bytes, v: Bytes)
    requires Injective(e) && |a| == |b| && a != b && forall p | 0 <= p < |a| && (p + 2) / 16 != k :: a[p] == b[p]
    requires |u| == |v| == 16 && IsMic(e, nonce, m, a, u) && IsMic(e, nonce, m, b, v)
    ensures u != v
  {
    MicIsTag(e, nonce, m, a, u);
    MicIsTag(e, nonce, m, b, v);
    var c, d := AuthData(a), AuthData(b);
    var p :| 0 <= p < |a| && a[p] != b[p];
    assert c[p + 2] != d[p + 2];
    assert ApartInBlock(c, d, k);
    var x := e(FirstBlock(nonce, |m|, true, 16));
    hide AuthData, Chain, FirstBlock, CounterBlock, Xor, IsMic;
    ChainBinds(e, x, c, d, k);
    ChainApart(e, Chain(e, x, c), Chain(e, x, d), m);
    XorApart(Chain(e, Chain(e, x, c), m), Chain(e, Chain(e, x, d), m), e(CounterBlock(nonce, 0)));
  }

  /** Messages of equal length that differ within one block never share a full MIC. */
  lemma MessageBinds(e: Block -> Block, nonce: Nonce, m: Bytes, m': Bytes, a: Bytes, k: nat, u: Bytes, v: Bytes)
    requires Injective(e) && ApartInBlock(m, m', k)
    requires |u| == |v| == 16 && IsMic(e, nonce, m, a, u) && IsMic(e, nonce, m', a, v)
    ensures u != v
  {
    MicIsTag(e, nonce, m, a, u);
    MicIsTag(e, nonce, m', a, v);
    var x := Chain(e, e(FirstBlock(nonce, |m|, a != [], 16)), AuthData(a));
    hide AuthData, Chain, FirstBlock, CounterBlock, Xor, IsMic;
    ChainBinds(e, x, m, m', k);
    XorApart(Chain(e, x, m), Chain(e, x, m'), e(CounterBlock(nonce, 0)));
  }

  /** No block of the key stream is used twice, nor is B_0 ever one of its inputs. */
  lemma BlocksApart(nonce: Nonce, i: nat, j: nat, mLen: nat, hasA: bool, micLen: nat)
    requires i < 65536 && j < 65536 && mLen < 65536 && MicLength(micLen)
    ensures i != j ==> CounterBlock(nonce, i) != CounterBlock(nonce, j)
    ensures CounterBlock(nonce, i) != FirstBlock(nonce, mLen, hasA, micLen)
  {
    var x, y, f := CounterBlock(nonce, i), CounterBlock(nonce, j), FirstBlock(nonce, mLen, hasA, micLen);
    var flags := 64 * (if hasA then 1 else 0) + 8 * ((micLen - 2) / 2) + 1;
    ByteApart(1, flags);
    assert x[0] == 1 && f[0] == Byte(flags);
    if i / 256 != j / 256 {
      ByteApart(i / 256, j / 256);
      assert x[14] == Byte(i / 256) && y[14] == Byte(j / 256);
    } else if i != j {
      ByteApart(i % 256, j % 256);
      assert x[15] == Byte(i % 256) && y[15] == Byte(j % 256);
    }
  }

  /** A byte is the number it stands for. */
  lemma ByteValue(a: nat)
    requires a < 256
    ensures Byte(a) as nat == a
  {
    var x := CountUp(a);
    assert (x as nat) as bv8 == x;
  }

  lemma {:induction false} CountUp(a: nat) returns (x: bv8)
    requires a < 256
    ensures x as nat == a
  {
    if a == 0 {
      x := 0;
    } else {
      var y := CountUp(a - 1);
      x := y + 1;
    }
  }

  lemma ByteApart(a: nat, b: nat)
    requires a < 256 && b < 256 && a != b
    ensures Byte(a) != Byte(b)
  {
    ByteValue(a);
    ByteValue(b);
  }
}
