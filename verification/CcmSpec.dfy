/** CCM with two-byte lengths (L = 2) as sections 2.2 and 2.3 of RFC 3610 define it, over any block function. */
module CcmSpec {
  import opened Common

  type Bytes = seq<bv8>
  type Block = b: Bytes | |b| == 16 witness [0, 0, 0, 0, 0, 0, 0, 0, 0, 0, 0, 0, 0, 0, 0, 0]
  type Nonce = n: Bytes | |n| == 13 witness [0, 0, 0, 0, 0, 0, 0, 0, 0, 0, 0, 0, 0]

  function Byte(n: nat): bv8
    requires n < 256
  {
    n as bv8
  }

  /** A number below 2^16, most significant byte first. */
  function TwoBytes(n: nat): (r: Bytes)
    requires n < 65536
    ensures |r| == 2
  {
    [Byte(n / 256), Byte(n % 256)]
  }

  /** The first block of d, filled up with zeros. */
  function Padded(d: Bytes): Block {
    if |d| >= 16 then d[..16] else d + Fill(0, 16 - |d|)
  }

  /** Exclusive or of two bytes. */
  function Combine(a: bv8, b: bv8): bv8 { a ^ b }

  lemma CombineTwice(a: bv8, b: bv8)
    ensures Combine(Combine(a, b), b) == a && Combine(a, 0) == a
  { }

  function Xor(x: Block, y: Block): Block {
    seq(16, i requires 0 <= i < 16 => Combine(x[i], y[i]))
  }

  /** The valid MIC lengths. */
  predicate MicLength(m: nat) { 4 <= m <= 16 && m % 2 == 0 }

  /** B_0: flags, nonce, message length. */
  function FirstBlock(nonce: Nonce, mLen: nat, hasA: bool, micLen: nat): Block
    requires mLen < 65536 && MicLength(micLen)
  {
    [Byte(64 * (if hasA then 1 else 0) + 8 * ((micLen - 2) / 2) + 1)] + nonce + TwoBytes(mLen)
  }

  /** A_i: flags, nonce, block counter. */
  function CounterBlock(nonce: Nonce, i: nat): Block
    requires i < 65536
  {
    [1] + nonce + TwoBytes(i)
  }

  /** CBC over d, zero-padded to whole blocks, from the chaining value x. */
  function Chain(e: Block -> Block, x: Block, d: Bytes): Block
    decreases |d|
  {
    if d == [] then x else Chain(e, e(Xor(x, Padded(d))), if |d| <= 16 then [] else d[16..])
  }

  /** The additional data with its length in front, or nothing if there is none. */
  function AuthData(a: Bytes): Bytes
    requires |a| < 0xFF00
  {
    if a == [] then [] else TwoBytes(|a|) + a
  }

  /** U: the tag of section 2.2, encrypted with S_0 as in section 2.3. */
  function Tag(e: Block -> Block, nonce: Nonce, m: Bytes, a: Bytes, micLen: nat): (r: Bytes)
    requires |m| < 65536 && |a| < 0xFF00 && MicLength(micLen)
    ensures |r| == micLen
  {
    var x := Chain(e, Chain(e, e(FirstBlock(nonce, |m|, a != [], micLen)), AuthData(a)), m);
    Xor(x, e(CounterBlock(nonce, 0)))[..micLen]
  }

  /** Byte j of the key stream S_1 S_2 ... */
  function KeyByte(e: Block -> Block, nonce: Nonce, j: nat): bv8
    requires j < 65536
  {
    e(CounterBlock(nonce, j / 16 + 1))[j % 16]
  }

  /** Section 2.3: byte j of the message is combined with byte j of S_1 S_2 ... */
  function Crypt(e: Block -> Block, nonce: Nonce, m: Bytes): (r: Bytes)
    requires |m| < 65536
    ensures |r| == |m|
  {
    seq(|m|, j requires 0 <= j < |m| => Combine(m[j], KeyByte(e, nonce, j)))
  }

  /** Encrypting twice with the same nonce gives the message back. */
  lemma CryptInvolution(e: Block -> Block, nonce: Nonce, m: Bytes)
    requires |m| < 65536
    ensures Crypt(e, nonce, Crypt(e, nonce, m)) == m
  {
    hide KeyByte, Combine;
    var c := Crypt(e, nonce, m);
    forall j | 0 <= j < |m| ensures Crypt(e, nonce, c)[j] == m[j] {
      var k := KeyByte(e, nonce, j);
      CombineTwice(m[j], k);
    }
  }

  // ---- Partial blocks ----

  /** x with the bytes of d combined into its front. */
  function XorFront(x: Block, d: Bytes): Block
    requires |d| <= 16
  {
    seq(16, i requires 0 <= i < 16 => if i < |d| then Combine(x[i], d[i]) else x[i])
  }

  lemma PaddingIsNeutral(x: Block, d: Bytes)
    ensures Xor(x, Padded(d)) == XorFront(x, if |d| <= 16 then d else d[..16])
  {
  }

  /** A whole first block can be chained on its own. */
  lemma ChainBlock(e: Block -> Block, x: Block, d: Bytes, rest: Bytes)
    requires |d| == 16
    ensures Chain(e, x, d + rest) == Chain(e, e(XorFront(x, d)), rest)
  {
    PaddingIsNeutral(x, d + rest);
    assert (d + rest)[..16] == d;
    if rest == [] {
      assert d + rest == d;
    } else {
      assert (d + rest)[16..] == rest;
    }
  }

  lemma ChainLast(e: Block -> Block, x: Block, d: Bytes)
    requires 0 < |d| <= 16
    ensures Chain(e, x, d) == e(XorFront(x, d))
  {
    PaddingIsNeutral(x, d);
  }

  // ---- Counters and lengths that fit one byte ----

  lemma SmallTwoBytes(n: nat)
    requires n < 256
    ensures TwoBytes(n) == [0, Byte(n)]
  { }

  lemma SmallCounterBlock(nonce: Nonce, i: nat)
    requires i < 256
    ensures CounterBlock(nonce, i) == [1] + nonce + [0, Byte(i)]
  {
    SmallTwoBytes(i);
  }
}
