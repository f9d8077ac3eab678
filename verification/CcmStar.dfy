/** os/lib/ccm-star.c: authentication and encryption in place. Positions and lengths are uint8_t. */
module CcmStar {
  import opened CcmSpec
  import opened CcmBlocks

  /** CCM_STAR_AUTH_FLAGS. */
  function AuthFlags(hasA: bool, micLen: bv8): bv8 {
    (if hasA then 64 else 0) | (((micLen - 2) >> 1) << 3) | 1
  }

  const ENCRYPTION_FLAGS: bv8 := 1

  /** The flags byte built with shifts is the sum that RFC 3610 asks for. */
  lemma AuthFlagsSum(hasA: bool, m: nat)
    requires MicLength(m)
    ensures AuthFlags(hasA, Byte(m)) == Byte(64 * (if hasA then 1 else 0) + 8 * ((m - 2) / 2) + 1)
  {
    assert m == 4 || m == 6 || m == 8 || m == 10 || m == 12 || m == 14 || m == 16;
  }

  method SetIv(iv: array<bv8>, flags: bv8, nonce: Nonce, counter: bv8)
    requires iv.Length == 16
    modifies iv
    ensures iv[..] == [flags] + nonce + [0, counter]
  {
    iv[0] := flags;
    for i := 0 to 13
      invariant iv[0] == flags && forall j | 0 <= j < i :: iv[1 + j] == nonce[j]
    {
      iv[1 + i] := nonce[i];
    }
    iv[14] := 0;
    iv[15] := counter;
  }

  /** AES_128.encrypt: one block, in place. */
  method Encrypt(e: Block -> Block, x: array<bv8>)
    requires x.Length == 16
    modifies x
    ensures x[..] == e(old(x[..]))
  {
    var y: Block := e(x[..]);
    for i := 0 to 16
      invariant forall j | 0 <= j < i :: x[j] == y[j]
    {
      x[i] := y[i];
    }
  }

  /** Up to 16 bytes of d from index pos on, and all of them. */
  function Slice(d: Bytes, pos: nat): (r: Bytes)
    requires pos <= |d|
    ensures |r| <= 16
  {
    if |d| - pos <= 16 then d[pos..] else d[pos..pos + 16]
  }

  function From(d: Bytes, pos: nat): Bytes { if pos <= |d| then d[pos..] else [] }

  /** Combines x with up to 16 bytes of d from index pos on: the inner loops of mic. */
  method XorBlock(x: array<bv8>, d: Bytes, pos: nat)
    requires x.Length == 16 && pos <= |d| < 256
    modifies x
    ensures x[..] == XorFront(old(x[..]), Slice(d, pos))
  {
    var i := 0;
    while pos + i < |d| && i < 16
      invariant 0 <= i <= 16 && pos + i <= |d|
      invariant forall j | 0 <= j < i :: x[j] == Combine(old(x[j]), d[pos + j])
      invariant forall j | i <= j < 16 :: x[j] == old(x[j])
    {
      x[i] := Combine(x[i], d[pos + i]);
      i := i + 1;
    }
  }

  /** ctr_step: combines the block of m at pos with the key stream block of `counter`. */
  method CtrStep(e: Block -> Block, nonce: Nonce, pos: nat, m: array<bv8>, mLen: nat, counter: nat)
    requires mLen <= m.Length && mLen < 256 && counter < 256
    modifies m
    ensures forall j | 0 <= j < m.Length ::
      m[j] == if pos <= j < mLen && j < pos + 16 then Combine(old(m[j]), e(CounterBlock(nonce, counter))[j - pos]) else old(m[j])
  {
    hide CounterBlock, Byte, Combine;
    var a := new bv8[16];
    SetIv(a, ENCRYPTION_FLAGS, nonce, Byte(counter));
    SmallCounterBlock(nonce, counter);
    Encrypt(e, a);
    ghost var k: Block := e(CounterBlock(nonce, counter));
    var i := 0;
    while pos + i < mLen && i < 16
      invariant 0 <= i <= 16 && a[..] == k
      invariant forall j | 0 <= j < m.Length ::
        m[j] == if pos <= j < mLen && j < pos + i then Combine(old(m[j]), k[j - pos]) else old(m[j])
    {
      m[pos + i] := Combine(m[pos + i], a[i]);
      i := i + 1;
    }
  }

  /** The loop of mic over whole and partial blocks of d from index `start` on. */
  method ChainBlocks(e: Block -> Block, x: array<bv8>, d: Bytes, start: nat)
    requires x.Length == 16 && start <= |d|
    requires (start == 0 && |d| <= 240) || (start == 14 && |d| <= 254)
    modifies x
    ensures x[..] == Chain(e, old(x[..]), d[start..])
  {
    hide XorFront, Chain, Slice, From;
    var pos := start;
    ghost var k := 0;
    ChainEnds(e, x[..], d, start);
    while pos < |d|
      invariant 0 <= k && pos == start + 16 * k && pos < 256
      invariant Chain(e, x[..], From(d, pos)) == Chain(e, old(x[..]), d[start..])
      decreases |d| + 16 - pos
    {
      ChainStep(e, x[..], d, pos);
      XorBlock(x, d, pos);
      pos := (pos + 16) % 256;
      k := k + 1;
      Encrypt(e, x);
    }
    ChainEnds(e, x[..], d, pos);
  }

  lemma ChainEnds(e: Block -> Block, x: Block, d: Bytes, pos: nat)
    ensures pos >= |d| ==> Chain(e, x, From(d, pos)) == x
    ensures pos <= |d| ==> From(d, pos) == d[pos..]
  { }

  /** One round of the loop. */
  lemma ChainStep(e: Block -> Block, x: Block, d: Bytes, pos: nat)
    requires pos < |d|
    ensures Chain(e, x, From(d, pos)) == Chain(e, e(XorFront(x, Slice(d, pos))), From(d, pos + 16))
  {
    if |d| - pos <= 16 {
      ChainLast(e, x, d[pos..]);
      assert From(d, pos + 16) == [];
    } else {
      assert d[pos..] == d[pos..pos + 16] + d[pos + 16..];
      ChainBlock(e, x, d[pos..pos + 16], d[pos + 16..]);
    }
  }

  lemma XorFrontStep(x: Block, d: Bytes, i: nat)
    requires i < |d| && i < 16
    ensures XorFront(x, d[..i + 1]) == XorFront(x, d[..i])[i := Combine(XorFront(x, d[..i])[i], d[i])]
  {
    var y, z := XorFront(x, d[..i + 1]), XorFront(x, d[..i]);
    assert y[i] == Combine(x[i], d[i]) && z[i] == x[i];
    forall j | 0 <= j < 16 && j != i ensures y[j] == z[j] { }
  }

  /** A leading zero byte changes nothing. */
  lemma XorFrontZero(x: Block, d: Bytes)
    requires |d| > 0 && d[0] == 0
    ensures XorFront(x, d[..1]) == x
  {
    CombineTwice(x[0], 0);
    forall j | 0 <= j < 16 ensures XorFront(x, d[..1])[j] == x[j] { }
  }

  /** The first block of the additional data, and what is left to chain. */
  lemma AuthFirst(e: Block -> Block, x: Block, a: Bytes)
    requires 0 < |a| <= 254
    ensures AuthData(a) == [0, Byte(|a|)] + a
    ensures Chain(e, x, AuthData(a)) ==
      Chain(e, e(XorFront(x, if |a| <= 14 then AuthData(a) else AuthData(a)[..16])), if |a| <= 14 then [] else a[14..])
  {
    SmallTwoBytes(|a|);
    hide Byte, TwoBytes, XorFront, Chain;
    var d := [0, Byte(|a|)] + a;
    if |a| <= 14 {
      ChainLast(e, x, d);
      ChainNothing(e, e(XorFront(x, d)));
    } else {
      assert d == d[..16] + a[14..];
      ChainBlock(e, x, d[..16], a[14..]);
    }
  }

  lemma ChainNothing(e: Block -> Block, x: Block)
    ensures Chain(e, x, []) == x
  { }

  /** The additional-data part of mic. */
  method Authenticate(e: Block -> Block, x: array<bv8>, a: Bytes)
    requires x.Length == 16 && 0 < |a| <= 254
    modifies x
    ensures x[..] == Chain(e, old(x[..]), AuthData(a))
  {
    hide Byte, AuthData, XorFront, Chain;
    ghost var x0: Block := x[..];
    AuthFirst(e, x0, a);
    ghost var d := [0, Byte(|a|)] + a;
    XorFrontZero(x0, d);
    XorFrontStep(x0, d, 1);
    x[1] := Combine(x[1], Byte(|a|));
    var i := 2;
    while i - 2 < |a| && i < 16
      invariant 2 <= i <= 16 && i <= |d|
      invariant x[..] == XorFront(x0, d[..i])
    {
      XorFrontStep(x0, d, i);
      x[i] := Combine(x[i], a[i - 2]);
      i := i + 1;
    }
    assert d[..|d|] == d;
    Encrypt(e, x);
    ChainNothing(e, x[..]);
    if 14 < |a| {
      ChainBlocks(e, x, a, 14);
    }
  }

  /** mic: the encrypted tag of m and a. */
  method Mic(e: Block -> Block, nonce: Nonce, m: Bytes, a: Bytes, result: array<bv8>, micLen: nat)
    requires |m| <= 240 && |a| <= 254 && MicLength(micLen) && micLen <= result.Length
    modifies result
    ensures result[..] == Tag(e, nonce, m, a, micLen) + old(result[..])[micLen..]
    ensures IsMic(e, nonce, m, a, result[..micLen])
  {
    hide Byte, CounterBlock, FirstBlock, Chain, AuthData, AuthFlags, Combine, IsMic;
    var x := new bv8[16];
    SetIv(x, AuthFlags(a != [], Byte(micLen)), nonce, Byte(|m|));
    FirstBlockSmall(nonce, |m|, a != [], micLen);
    Encrypt(e, x);
    ghost var x0: Block := x[..];
    NoAuthData(e, x0);
    if |a| > 0 {
      Authenticate(e, x, a);
    }
    ChainBlocks(e, x, m, 0);
    assert m[0..] == m;
    ghost var x1: Block := x[..];
    CtrStep(e, nonce, 0, x, 16, 0);
    assert x[..] == Xor(x1, e(CounterBlock(nonce, 0)));
    CopyOut(x, result, micLen);
    assert result[..micLen] == Tag(e, nonce, m, a, micLen);
    MicIsTag(e, nonce, m, a, result[..micLen]);
  }

  /** memcpy of the first n bytes of a block. */
  method CopyOut(x: array<bv8>, result: array<bv8>, n: nat)
    requires x != result && n <= x.Length && n <= result.Length
    modifies result
    ensures result[..] == x[..n] + old(result[..])[n..]
  {
    for i := 0 to n
      invariant forall j | 0 <= j < result.Length :: result[j] == if j < i then x[j] else old(result[j])
    {
      result[i] := x[i];
    }
  }

  lemma NoAuthData(e: Block -> Block, x: Block)
    ensures Chain(e, x, AuthData([])) == x
  { }

  lemma FirstBlockSmall(nonce: Nonce, mLen: nat, hasA: bool, micLen: nat)
    requires mLen < 256 && MicLength(micLen)
    ensures FirstBlock(nonce, mLen, hasA, micLen) == [AuthFlags(hasA, Byte(micLen))] + nonce + [0, Byte(mLen)]
  {
    AuthFlagsSum(hasA, micLen);
    SmallTwoBytes(mLen);
    hide Byte, TwoBytes, AuthFlags;
  }

  /** ctr: encrypts or decrypts the first mLen bytes of m. */
  method Ctr(e: Block -> Block, nonce: Nonce, m: array<bv8>, mLen: nat)
    requires mLen <= m.Length && mLen <= 240
    modifies m
    ensures m[..] == Crypt(e, nonce, old(m[..mLen])) + old(m[mLen..])
    ensures IsCrypt(e, nonce, old(m[..mLen]), m[..mLen])
  {
    hide KeyByte, CounterBlock, Combine, IsCrypt;
    var pos, counter := 0, 1;
    ghost var m0, b := m[..], 0;
    while pos < mLen
      invariant 0 <= b && pos == 16 * b && pos <= 240 && counter == b + 1
      invariant forall j | 0 <= j < m.Length ::
        m[j] == if j < pos && j < mLen then Combine(m0[j], KeyByte(e, nonce, j)) else m0[j]
    {
      KeyBlock(e, nonce, b);
      CtrStep(e, nonce, pos, m, mLen, counter);
      counter := (counter + 1) % 256;
      pos := (pos + 16) % 256;
      b := b + 1;
    }
    assert m[..mLen] == Crypt(e, nonce, m0[..mLen]);
    CryptIs(e, nonce, m0[..mLen]);
    assert m[..] == m[..mLen] + m0[mLen..];
  }

  lemma KeyBlock(e: Block -> Block, nonce: Nonce, b: nat)
    requires b < 4095
    ensures forall j | 16 * b <= j < 16 * b + 16 :: KeyByte(e, nonce, j) == e(CounterBlock(nonce, b + 1))[j - 16 * b]
  {
    hide CounterBlock;
    forall j | 16 * b <= j < 16 * b + 16
      ensures KeyByte(e, nonce, j) == e(CounterBlock(nonce, b + 1))[j - 16 * b]
    {
      assert j / 16 == b && j % 16 == j - 16 * b;
    }
  }

  /** aead: in place, forward for encryption; the MIC is always that of the plain message. */
  method Aead(e: Block -> Block, nonce: Nonce, m: array<bv8>, mLen: nat, a: Bytes, result: array<bv8>, micLen: nat, forward: bool)
    requires mLen <= m.Length && mLen <= 240 && |a| <= 254 && MicLength(micLen) && micLen <= result.Length && m != result
    modifies m, result
    ensures m[..] == Crypt(e, nonce, old(m[..mLen])) + old(m[mLen..])
    ensures result[..micLen] == Tag(e, nonce, if forward then old(m[..mLen]) else Crypt(e, nonce, old(m[..mLen])), a, micLen)
    ensures result[micLen..] == old(result[micLen..])
    ensures IsCrypt(e, nonce, old(m[..mLen]), m[..mLen])
    ensures IsMic(e, nonce, if forward then old(m[..mLen]) else m[..mLen], a, result[..micLen])
  {
    hide IsCrypt, IsMic, Tag;
    if !forward {
      Ctr(e, nonce, m, mLen);
    }
    Mic(e, nonce, m[..mLen], a, result, micLen);
    if forward {
      Ctr(e, nonce, m, mLen);
    }
  }

  /** Decrypting what was encrypted restores the message and computes the same MIC. */
  method Loopback(e: Block -> Block, nonce: Nonce, m: array<bv8>, mLen: nat, a: Bytes, sent: array<bv8>, received: array<bv8>, micLen: nat)
    requires mLen <= m.Length && mLen <= 240 && |a| <= 254 && MicLength(micLen)
    requires micLen <= sent.Length && micLen <= received.Length && m != sent && m != received && sent != received
    modifies m, sent, received
    ensures m[..] == old(m[..])
    ensures sent[..micLen] == received[..micLen]
  {
    hide Crypt, Tag, IsCrypt, IsMic;
    ghost var m0 := m[..];
    Aead(e, nonce, m, mLen, a, sent, micLen, true);
    assert m[..mLen] == Crypt(e, nonce, m0[..mLen]);
    CryptInvolution(e, nonce, m0[..mLen]);
    Aead(e, nonce, m, mLen, a, received, micLen, false);
  }
}
