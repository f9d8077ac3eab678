/** SLIP framing (RFC 1055) and the meaning of the receive buffer of os/dev/slip.c. */
module SlipSpec {
  import opened Common

  const END: byte := 0xC0
  const ESC: byte := 0xDB
  const ESC_END: byte := 0xDC
  const ESC_ESC: byte := 0xDD

  // ---- Encoding and decoding ----

  function EscapeByte(b: byte): seq<byte> {
    if b == END then [ESC, ESC_END] else if b == ESC then [ESC, ESC_ESC] else [b]
  }

  function Escape(p: seq<byte>): seq<byte> {
    if p == [] then [] else Escape(p[..|p| - 1]) + EscapeByte(p[|p| - 1])
  }

  /** The wire form of a packet: its escaped bytes between two END bytes. */
  function Frame(p: seq<byte>): seq<byte> { [END] + Escape(p) + [END] }

  /** A decoder: the bytes put out so far, and whether the last byte was ESC. */
  datatype Decoder = Decoder(out: seq<byte>, esc: bool)

  function DecodeByte(d: Decoder, b: byte): Decoder {
    if d.esc then Decoder(d.out + (if b == ESC_ESC then [ESC] else if b == ESC_END then [END] else []), false)
    else if b == ESC then d.(esc := true)
    else d.(out := d.out + [b])
  }

  function Decoding(raw: seq<byte>): Decoder {
    if raw == [] then Decoder([], false) else DecodeByte(Decoding(raw[..|raw| - 1]), raw[|raw| - 1])
  }

  function Decode(raw: seq<byte>): seq<byte> { Decoding(raw).out }

  lemma DecodingStep(raw: seq<byte>, b: byte)
    ensures Decoding(raw + [b]) == DecodeByte(Decoding(raw), b)
  {
    assert (raw + [b])[..|raw|] == raw;
  }

  /** Decoding the escaped form of one byte puts that byte out. */
  lemma DecodingEscaped(raw: seq<byte>, b: byte)
    requires !Decoding(raw).esc
    ensures Decoding(raw + EscapeByte(b)) == Decoder(Decoding(raw).out + [b], false)
  {
    if b == END || b == ESC {
      var c := if b == END then ESC_END else ESC_ESC;
      DecodingStep(raw, ESC);
      DecodingStep(raw + [ESC], c);
      assert raw + EscapeByte(b) == raw + [ESC] + [c];
    } else {
      DecodingStep(raw, b);
    }
  }

  /** Decoding undoes escaping. */
  lemma {:induction false} DecodeEscape(p: seq<byte>)
    ensures Decoding(Escape(p)) == Decoder(p, false)
  {
    if p != [] {
      var q, b := p[..|p| - 1], p[|p| - 1];
      assert p == q + [b] && Escape(p) == Escape(q) + EscapeByte(b);
      hide Escape, EscapeByte, Decoding;
      DecodeEscape(q);
      DecodingEscaped(Escape(q), b);
    }
  }

  /** Escaped data contains no END byte. */
  lemma {:induction false} EscapeHasNoEnd(p: seq<byte>)
    ensures END !in Escape(p) && |p| <= |Escape(p)|
  {
    if p != [] { EscapeHasNoEnd(p[..|p| - 1]); }
  }

  // ---- The cyclic buffer ----

  type Positive = n: nat | n >= 1 witness 1

  const BUFSIZE_BEYOND_TWO: nat
  /** RX_BUFSIZE. */
  const RX_BUFSIZE: Positive := BUFSIZE_BEYOND_TWO + 2

  function Wrap(x: int): int { if x >= RX_BUFSIZE then x - RX_BUFSIZE else x }

  function Distance(a: int, b: int): int { if a <= b then b - a else b - a + RX_BUFSIZE }

  predicate Index(a: int) { 0 <= a < RX_BUFSIZE }

  /** The bytes from index a up to index b, going round. */
  function Cyclic(buf: seq<byte>, a: int, b: int): (r: seq<byte>)
    requires |buf| == RX_BUFSIZE && Index(a) && Index(b)
    ensures |r| == Distance(a, b)
    ensures forall i {:trigger r[i]} | 0 <= i < |r| :: r[i] == buf[Wrap(a + i)]
  {
    seq(Distance(a, b), i requires 0 <= i < Distance(a, b) => buf[Wrap(a + i)])
  }

  lemma CyclicAppend(buf: seq<byte>, a: int, b: int, c: byte)
    requires |buf| == RX_BUFSIZE && Index(a) && Index(b) && Wrap(b + 1) != a
    ensures Index(Wrap(b + 1)) && Cyclic(buf[b := c], a, Wrap(b + 1)) == Cyclic(buf, a, b) + [c]
  {
    var l, s := Cyclic(buf[b := c], a, Wrap(b + 1)), Cyclic(buf, a, b);
    forall i | 0 <= i < |l| ensures l[i] == (s + [c])[i] {
      if i < |s| { assert s[i] == buf[Wrap(a + i)]; }
    }
  }

  lemma CyclicSplit(buf: seq<byte>, a: int, b: int, k: int)
    requires |buf| == RX_BUFSIZE && Index(a) && Index(b) && 0 <= k <= Distance(a, b)
    ensures Index(Wrap(a + k)) && Distance(a, Wrap(a + k)) == k && Distance(Wrap(a + k), b) == Distance(a, b) - k
    ensures Cyclic(buf, Wrap(a + k), b) == Cyclic(buf, a, b)[k..]
    ensures Cyclic(buf, a, Wrap(a + k)) == Cyclic(buf, a, b)[..k]
  {
    var l, s := Cyclic(buf, Wrap(a + k), b), Cyclic(buf, a, b);
    forall i | 0 <= i < |l| ensures l[i] == s[k..][i] {
      assert s[k..][i] == s[k + i] == buf[Wrap(a + (k + i))];
    }
  }
}
