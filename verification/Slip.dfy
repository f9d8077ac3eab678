/** os/dev/slip.c: the driver with its static variables. */
module Slip {
  import opened Common
  import opened SlipSpec
  import opened SlipState

  /** slip_write: the bytes put on the wire for a packet. The loop counter of the driver has 16 bits. */
  method SlipWrite(p: seq<byte>) returns (wire: seq<byte>)
    requires |p| < 65536
    ensures wire == Frame(p)
  {
    wire := [END];
    for i := 0 to |p|
      invariant wire == [END] + Escape(p[..i])
    {
      var c := p[i];
      assert p[..i + 1][..i] == p[..i];
      if c == END {
        wire := wire + [ESC];
        c := ESC_END;
      } else if c == ESC {
        wire := wire + [ESC];
        c := ESC_ESC;
      }
      wire := wire + [c];
    }
    assert p[..|p|] == p;
    wire := wire + [END];
  }

  class Driver {
    var state: Mode
    var begin: int
    var nextFree: int
    var pktEnd: int
    const rxbuf: array<byte>
    /** Has process_poll been called since the last poll? */
    var pollRequested: bool

    ghost function Snap(): State
      reads this, rxbuf
    {
      State(state, begin, nextFree, pktEnd, rxbuf[..], pollRequested)
    }

    ghost predicate Valid()
      reads this, rxbuf
    {
      Sane(Snap())
    }

    constructor ()
      ensures Valid() && fresh(rxbuf)
      ensures Holds(Snap(), Inbox([], [], Okay))
    {
      rxbuf := new byte[RX_BUFSIZE](_ => 0);
      state := TwoPackets;
      begin, nextFree, pktEnd, pollRequested := 0, 0, 0, false;
      new;
      RxbufInit();
    }

    method RxbufInit()
      requires rxbuf.Length == RX_BUFSIZE
      modifies this
      ensures Valid() && Holds(Snap(), Inbox([], [], Okay)) && pollRequested == old(pollRequested)
    {
      begin, nextFree, pktEnd := 0, 0, 0;
      state := Okay;
      assert Cyclic(rxbuf[..], begin, nextFree) == [];
    }

    /** slip_input_byte: one byte from the serial line. */
    method InputByte(c: byte) returns (newPacket: bool)
      requires Valid()
      modifies this, rxbuf
      ensures Valid() && Snap() == InputStep(old(Snap()), c)
      ensures newPacket == (old(state) != Rubbish && c == END && old(state) != Escaped && Wrap(old(nextFree) + 1) != old(begin) && old(nextFree) != old(pktEnd))
    {
      if state == Rubbish {
        if c == END {
          state := Okay;
        }
        return false;
      }
      if state == Escaped {
        if c != ESC_END && c != ESC_ESC {
          state := Rubbish;
          nextFree := pktEnd;
          return false;
        }
        state := Okay;
      }
      if c == ESC {
        state := Escaped;
      }
      var curEnd := nextFree;
      nextFree := nextFree + 1;
      if nextFree == RX_BUFSIZE {
        nextFree := 0;
      }
      if nextFree == begin {
        state := Rubbish;
        nextFree := pktEnd;
        return false;
      }
      rxbuf[curEnd] := c;
      if c == END {
        if curEnd != pktEnd {
          if begin == pktEnd {
            pktEnd := curEnd;
          }
          pollRequested := true;
          return true;
        } else {
          nextFree := curEnd;
        }
      }
      return false;
    }

    /** The decoding loop over rxbuf[lo..hi), going on from `len` bytes already put out. */
    method DecodeRange(outbuf: array<byte>, blen: nat, lo: int, hi: int, len0: nat, esc0: bool, ghost raw: seq<byte>)
      returns (len: nat, esc: bool)
      requires 0 <= lo <= hi <= rxbuf.Length && outbuf != rxbuf && len0 <= blen + 1
      requires blen <= outbuf.Length && (|Decode(raw + rxbuf[lo..hi])| <= blen || blen < outbuf.Length)
      requires |Decode(raw + rxbuf[lo..hi])| <= blen ==> Decoded(raw, outbuf[..], len0, esc0)
      modifies outbuf
      ensures len <= blen + 1
      ensures |Decode(raw + rxbuf[lo..hi])| <= blen ==> Decoded(raw + rxbuf[lo..hi], outbuf[..], len, esc)
    {
      hide Decode, Decoded;
      len, esc := len0, esc0;
      var i := lo;
      ghost var whole := raw + rxbuf[lo..hi];
      ghost var fits := |Decode(whole)| <= blen;
      assert raw + rxbuf[lo..lo] == raw;
      while i < hi
        invariant lo <= i <= hi && len <= blen + 1
        invariant fits ==> Decoded(raw + rxbuf[lo..i], outbuf[..], len, esc)
      {
        ghost var seen, b, out := raw + rxbuf[lo..i], rxbuf[i], outbuf[..];
        assert whole == seen + [b] + rxbuf[i + 1..hi] && raw + rxbuf[lo..i + 1] == seen + [b];
        if fits { DecodedByte(seen, b, rxbuf[i + 1..hi], out, len, esc); }
        if len > blen {
          len := 0;
          break;
        }
        if esc {
          if rxbuf[i] == ESC_ESC {
            outbuf[len] := ESC;
            len := len + 1;
          } else if rxbuf[i] == ESC_END {
            outbuf[len] := END;
            len := len + 1;
          }
          esc := false;
        } else if rxbuf[i] == ESC {
          esc := true;
        } else {
          outbuf[len] := rxbuf[i];
          len := len + 1;
        }
        i := i + 1;
      }
    }

    /** The decoding half of slip_poll_handler: one loop, or two if the packet wraps round. */
    method DecodePacket(outbuf: array<byte>, blen: nat) returns (len: nat)
      requires Valid() && outbuf != rxbuf && begin != pktEnd
      requires blen <= outbuf.Length && (|Decode(Buffered(Snap()))| <= blen || blen < outbuf.Length)
      modifies outbuf
      ensures |Decode(Buffered(Snap()))| <= blen ==>
        len == |Decode(Buffered(Snap()))| && outbuf[..len] == Decode(Buffered(Snap()))
    {
      hide Decode, Cyclic, Decoded;
      var esc;
      CyclicSlices(rxbuf[..], begin, pktEnd);
      DecodeNothing();
      if begin < pktEnd {
        assert [] + rxbuf[begin..pktEnd] == Buffered(Snap());
        len, esc := DecodeRange(outbuf, blen, begin, pktEnd, 0, false, []);
      } else {
        DecodePrefix(rxbuf[begin..], rxbuf[..pktEnd]);
        assert [] + rxbuf[begin..RX_BUFSIZE] == rxbuf[begin..] && rxbuf[0..pktEnd] == rxbuf[..pktEnd];
        len, esc := DecodeRange(outbuf, blen, begin, RX_BUFSIZE, 0, false, []);
        len, esc := DecodeRange(outbuf, blen, 0, pktEnd, len, esc, rxbuf[begin..]);
      }
      if |Decode(Buffered(Snap()))| <= blen { DecodedFacts(Buffered(Snap()), outbuf[..], len, esc); }
    }

    /** slip_poll_handler: decodes the oldest packet into outbuf and takes it off the buffer. */
    method PollHandler(outbuf: array<byte>, blen: nat) returns (len: nat)
      requires Valid() && outbuf != rxbuf
      requires blen <= outbuf.Length && (|Decode(Buffered(Snap()))| <= blen || blen < outbuf.Length)
      modifies this, outbuf
      ensures Valid() && Snap() == PollStep(old(Snap()))
      ensures |Decode(Buffered(old(Snap())))| <= blen ==>
        len == |Decode(Buffered(old(Snap())))| && outbuf[..len] == Decode(Buffered(old(Snap())))
    {
      hide Decode, Cyclic, Buffered;
      ghost var s := Snap();
      if begin == pktEnd {
        EmptyCyclic(s);
        pollRequested := false;
        return 0;
      }
      len := DecodePacket(outbuf, blen);
      pollRequested := false;
      pktEnd := pktEnd + 1;
      if pktEnd == RX_BUFSIZE {
        pktEnd := 0;
      }
      if pktEnd != nextFree {
        var curNextFree, curPtr := nextFree, pktEnd;
        ghost var next := pktEnd;
        while curPtr != curNextFree
          invariant Index(curPtr) && ScanEnd(s.buf, curPtr, s.free) == ScanEnd(s.buf, next, s.free)
          invariant Valid() && Snap() == s.(pktEnd := next, poll := false)
          decreases Distance(curPtr, curNextFree)
        {
          if rxbuf[curPtr] == END {
            var tmpBegin := pktEnd;
            pktEnd := curPtr;
            begin := tmpBegin;
            pollRequested := true;
            break;
          }
          curPtr := curPtr + 1;
          if curPtr == RX_BUFSIZE {
            curPtr := 0;
          }
        }
        if curPtr == curNextFree {
          begin := pktEnd;
        }
      } else {
        begin := pktEnd;
      }
    }
  }

  /** The decoder has put `len` bytes into `out` for the bytes of raw. */
  predicate Decoded(raw: seq<byte>, out: seq<byte>, len: int, esc: bool) {
    0 <= len <= |out| && out[..len] == Decode(raw) && esc == Decoding(raw).esc
  }

  lemma DecodedFacts(raw: seq<byte>, out: seq<byte>, len: int, esc: bool)
    requires Decoded(raw, out, len, esc)
    ensures 0 <= len <= |out| && len == |Decode(raw)| && out[..len] == Decode(raw)
  { }

  /** The byte that the decoder stores for b, if any. */
  function Stored(esc: bool, b: byte): seq<byte> {
    if !esc then (if b == ESC then [] else [b])
    else if b == ESC_ESC then [ESC]
    else if b == ESC_END then [END]
    else []
  }

  /** One more byte: what it stores has room if the whole packet fits. */
  lemma DecodedByte(raw: seq<byte>, b: byte, more: seq<byte>, out: seq<byte>, len: int, esc: bool)
    requires Decoded(raw, out, len, esc)
    ensures len <= |Decode(raw + [b] + more)| && (Stored(esc, b) != [] ==> len < |Decode(raw + [b] + more)|)
    ensures var c := Stored(esc, b);
      if c == [] then Decoded(raw + [b], out, len, !esc && b == ESC)
      else len < |out| ==> Decoded(raw + [b], out[len := c[0]], len + 1, false)
  {
    DecodingStep(raw, b);
    StoredByte(Decoding(raw), b);
    DecodePrefix(raw + [b], more);
    hide Decoding, DecodeByte, Stored;
    var c := Stored(esc, b);
    if c != [] && len < |out| { assert out[len := c[0]][..len + 1] == out[..len] + [c[0]]; }
  }

  lemma StoredByte(d: Decoder, b: byte)
    ensures var c := Stored(d.esc, b);
      && DecodeByte(d, b) == Decoder(d.out + c, !d.esc && b == ESC)
      && (c == [] || (c == [c[0]] && !(!d.esc && b == ESC)))
  { }

  lemma DecodeNothing()
    ensures forall out: seq<byte> :: Decoded([], out, 0, false)
  { }

  lemma EmptyCyclic(s: State)
    requires Sane(s) && s.begin == s.pktEnd
    ensures Buffered(s) == [] && Decode(Buffered(s)) == []
  { }

  lemma CyclicSlices(buf: seq<byte>, a: int, b: int)
    requires |buf| == RX_BUFSIZE && Index(a) && Index(b)
    ensures a <= b ==> Cyclic(buf, a, b) == buf[a..b]
    ensures a > b ==> Cyclic(buf, a, b) == buf[a..] + buf[..b]
  {
    var r := Cyclic(buf, a, b);
    if a > b {
      forall i | 0 <= i < |r| ensures r[i] == (buf[a..] + buf[..b])[i] { }
    }
  }

  /** A prefix never decodes to more bytes than the whole. */
  lemma {:induction false} DecodePrefix(raw: seq<byte>, more: seq<byte>)
    ensures |Decode(raw)| <= |Decode(raw + more)|
  {
    if more == [] {
      assert raw + more == raw;
    } else {
      var front, b := more[..|more| - 1], more[|more| - 1];
      DecodePrefix(raw, front);
      DecodingStep(raw + front, b);
      assert raw + more == raw + front + [b];
    }
  }
}
