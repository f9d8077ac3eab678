/** The receive state machine of os/dev/slip.c as a function, and the queue of frames it stands for. */
module SlipState {
  import opened Common
  import opened SlipSpec

  datatype Mode = TwoPackets | Okay | Escaped | Rubbish

  /** The static variables of the driver; `poll` records a requested poll of the SLIP process. */
  datatype State = State(mode: Mode, begin: int, free: int, pktEnd: int, buf: seq<byte>, poll: bool)

  predicate Sane(s: State) { |s.buf| == RX_BUFSIZE && Index(s.begin) && Index(s.free) && Index(s.pktEnd) }

  predicate BadEscape(mode: Mode, c: byte) { mode == Escaped && c != ESC_END && c != ESC_ESC }

  /** slip_input_byte. */
  function InputStep(s: State, c: byte): (t: State)
    requires Sane(s)
    ensures Sane(t)
  {
    if s.mode == Rubbish then (if c == END then s.(mode := Okay) else s)
    else if BadEscape(s.mode, c) then s.(mode := Rubbish, free := s.pktEnd)
    else if Wrap(s.free + 1) == s.begin then s.(mode := Rubbish, free := s.pktEnd)
    else
      var mode := if c == ESC then Escaped else if s.mode == Escaped then Okay else s.mode;
      var t := s.(mode := mode, free := Wrap(s.free + 1), buf := s.buf[s.free := c]);
      if c != END then t
      else if s.free == s.pktEnd then t.(free := s.free)
      else t.(pktEnd := if s.begin == s.pktEnd then s.free else s.pktEnd, poll := true)
  }

  /** The index of the first END byte from `cur` on, or `free` if there is none. */
  function ScanEnd(buf: seq<byte>, cur: int, free: int): (e: int)
    requires |buf| == RX_BUFSIZE && Index(cur) && Index(free)
    ensures Index(e)
    decreases Distance(cur, free)
  {
    if cur == free then free
    else if buf[cur] == END then cur
    else ScanEnd(buf, Wrap(cur + 1), free)
  }

  /** slip_poll_handler, but for the bytes it copies out. */
  function PollStep(s: State): (t: State)
    requires Sane(s)
    ensures Sane(t)
  {
    if s.begin == s.pktEnd then s.(poll := false)
    else
      var next := Wrap(s.pktEnd + 1);
      var e := ScanEnd(s.buf, next, s.free);
      if e == s.free then s.(begin := next, pktEnd := next, poll := false) else s.(begin := next, pktEnd := e, poll := true)
  }

  /** The escaped bytes that the poll handler decodes. */
  function Buffered(s: State): seq<byte>
    requires Sane(s)
  {
    Cyclic(s.buf, s.begin, s.pktEnd)
  }

  // ---- The queue behind the buffer ----

  /** Complete frames, oldest first, without their END bytes; then the frame in progress. */
  datatype Inbox = Inbox(frames: seq<seq<byte>>, partial: seq<byte>, mode: Mode)

  function Flat(frames: seq<seq<byte>>): seq<byte> {
    if frames == [] then [] else frames[0] + [END] + Flat(frames[1..])
  }

  predicate Sound(frames: seq<seq<byte>>) { forall f | f in frames :: f != [] && END !in f }

  ghost predicate Holds(s: State, q: Inbox) {
    && Sane(s)
    && Cyclic(s.buf, s.begin, s.free) == Flat(q.frames) + q.partial
    && s.mode == q.mode
    && Sound(q.frames) && END !in q.partial
    && (if q.frames == [] then s.pktEnd == s.begin else s.pktEnd == Wrap(s.begin + |q.frames[0]|) && s.poll)
    && (q.mode == Rubbish ==> q.frames == [] && q.partial == [])
  }

  /** Is there room for one more byte? */
  predicate Room(q: Inbox) { |Flat(q.frames)| + |q.partial| + 1 < RX_BUFSIZE }

  /** What a byte does to the queue. */
  function Receive(q: Inbox, c: byte): Inbox {
    if q.mode == Rubbish then (if c == END then q.(mode := Okay) else q)
    else if BadEscape(q.mode, c) || !Room(q) then q.(partial := [], mode := Rubbish)
    else
      var mode := if c == ESC then Escaped else if q.mode == Escaped then Okay else q.mode;
      if c != END then Inbox(q.frames, q.partial + [c], mode)
      else if q.partial == [] then q.(mode := mode)
      else Inbox(q.frames + [q.partial], [], mode)
  }

  /** While a complete frame waits, the driver copes with bytes that need no discarding and close no empty frame. */
  predicate Clean(q: Inbox, c: byte) {
    q.frames == [] || (Room(q) && !BadEscape(q.mode, c) && !(c == END && q.partial == []))
  }

  lemma {:induction false} FlatAppend(frames: seq<seq<byte>>, f: seq<byte>)
    ensures Flat(frames + [f]) == Flat(frames) + f + [END]
  {
    if frames == [] {
      assert [f][1..] == [];
    } else {
      FlatAppend(frames[1..], f);
      assert (frames + [f])[1..] == frames[1..] + [f];
    }
  }

  lemma FlatLength(frames: seq<seq<byte>>)
    requires frames != []
    ensures |Flat(frames)| >= |frames[0]| + 1
    ensures Flat(frames)[..|frames[0]|] == frames[0] && Flat(frames)[|frames[0]|] == END
    ensures Flat(frames)[|frames[0]| + 1..] == Flat(frames[1..])
  { }

  lemma WrapDistance(a: int, b: int)
    requires Index(a) && Index(b)
    ensures Wrap(a + Distance(a, b)) == b && (Distance(a, b) == 0 <==> a == b)
  { }

  lemma SoundAppend(frames: seq<seq<byte>>, f: seq<byte>)
    requires Sound(frames) && f != [] && END !in f
    ensures Sound(frames + [f])
  { }

  /** A byte inside a frame goes to the end of the frame in progress. */
  lemma StoresData(s: State, q: Inbox, c: byte)
    requires Holds(s, q) && s.mode != Rubbish && !BadEscape(s.mode, c) && Wrap(s.free + 1) != s.begin && Room(q) && c != END
    ensures Holds(InputStep(s, c), Receive(q, c))
  {
    CyclicAppend(s.buf, s.begin, s.free, c);
    hide Cyclic, Flat, Sound;
    assert Flat(q.frames) + (q.partial + [c]) == Flat(q.frames) + q.partial + [c];
  }

  /** The END byte of a frame that is not empty completes it. */
  lemma StoresEnd(s: State, q: Inbox)
    requires Holds(s, q) && s.mode != Rubbish && !BadEscape(s.mode, END) && Wrap(s.free + 1) != s.begin && Room(q) && q.partial != []
    ensures Holds(InputStep(s, END), Receive(q, END))
  {
    CyclicAppend(s.buf, s.begin, s.free, END);
    FlatAppend(q.frames, q.partial);
    SoundAppend(q.frames, q.partial);
    WrapDistance(s.begin, s.free);
    if q.frames == [] {
      assert Flat(q.frames) + q.partial == q.partial;
    } else {
      FlatLength(q.frames);
      PartialBehind(s, q);
    }
    hide Cyclic, Flat, Sound, Wrap, Distance;
    var frames := q.frames + [q.partial];
    assert Flat(frames) + [] == Flat(q.frames) + q.partial + [END];
    assert frames[0] == if q.frames == [] then q.partial else q.frames[0];
  }

  /** With a complete frame waiting and another in progress, the free index is past the first frame's end. */
  lemma PartialBehind(s: State, q: Inbox)
    requires Holds(s, q) && q.frames != []
    ensures s.free != s.pktEnd && s.begin != s.pktEnd
  {
    FlatLength(q.frames);
    assert q.frames[0] in q.frames;
    WrapDistance(s.begin, s.free);
    CyclicSplit(s.buf, s.begin, s.free, |q.frames[0]|);
    WrapDistance(s.pktEnd, s.free);
  }

  /** A byte that goes into the buffer. */
  lemma InputStores(s: State, q: Inbox, c: byte)
    requires Holds(s, q) && s.mode != Rubbish && !BadEscape(s.mode, c) && Wrap(s.free + 1) != s.begin
    requires q.frames == [] || !(c == END && q.partial == [])
    requires Room(q)
    ensures Holds(InputStep(s, c), Receive(q, c))
  {
    if c != END {
      StoresData(s, q, c);
    } else if q.partial != [] {
      StoresEnd(s, q);
    } else {
      assert Flat(q.frames) + q.partial == [];
      WrapDistance(s.begin, s.free);
    }
  }

  /** A clean byte keeps the buffer a queue of frames, and does to the queue what Receive says. */
  lemma InputRefines(s: State, q: Inbox, c: byte)
    requires Holds(s, q) && Clean(q, c)
    ensures Holds(InputStep(s, c), Receive(q, c))
  {
    assert Wrap(s.free + 1) == s.begin <==> !Room(q);
    if s.mode != Rubbish {
      if BadEscape(s.mode, c) || !Room(q) {
        assert Cyclic(s.buf, s.begin, s.pktEnd) == [];
      } else {
        InputStores(s, q, c);
        hide Holds, Receive, InputStep;
      }
    }
  }

  // ---- Bytes that are not clean ----

  /** The contents of a queue never start with END and never have two END bytes in a row. */
  predicate NoEmptyFrame(r: seq<byte>) {
    && (r != [] ==> r[0] != END)
    && forall i | 0 < i < |r| :: !(r[i - 1] == END && r[i] == END)
  }

  lemma {:induction false} QueueHasNoEmptyFrame(frames: seq<seq<byte>>, partial: seq<byte>)
    requires Sound(frames) && END !in partial
    ensures NoEmptyFrame(Flat(frames) + partial)
  {
    if frames == [] {
      assert Flat(frames) + partial == partial;
      forall i | 0 <= i < |partial| ensures partial[i] != END { assert partial[i] in partial; }
    } else {
      var f, rest := frames[0], Flat(frames[1..]) + partial;
      assert f in frames;
      forall g | g in frames[1..] ensures g != [] && END !in g { assert g in frames; }
      QueueHasNoEmptyFrame(frames[1..], partial);
      var r := Flat(frames) + partial;
      assert r == f + [END] + rest;
      forall i | 0 < i < |r| ensures !(r[i - 1] == END && r[i] == END) {
        if i <= |f| {
          assert r[i - 1] == f[i - 1] && f[i - 1] in f;
        } else if i == |f| + 1 {
          assert r[i] == rest[0];
        } else {
          assert r[i - 1] == rest[i - |f| - 2] && r[i] == rest[i - |f| - 1];
        }
      }
      assert r[0] == f[0] && f[0] in f;
    }
  }

  lemma HoldsShape(t: State, q: Inbox)
    requires Holds(t, q)
    ensures NoEmptyFrame(Cyclic(t.buf, t.begin, t.free))
    ensures t.begin != t.pktEnd ==> END in Cyclic(t.buf, t.begin, t.free)
  {
    QueueHasNoEmptyFrame(q.frames, q.partial);
    if q.frames != [] {
      FlatLength(q.frames);
      var r := Cyclic(t.buf, t.begin, t.free);
      assert r[|q.frames[0]|] == END;
    }
  }

  /** A byte that is not clean leaves a buffer that is no queue of frames any more. */
  lemma UncleanBreaks(s: State, q: Inbox, c: byte, q': Inbox)
    requires Holds(s, q) && !Clean(q, c)
    ensures !Holds(InputStep(s, c), q')
  {
    assert Wrap(s.free + 1) == s.begin <==> !Room(q);
    if BadEscape(s.mode, c) || !Room(q) { DiscardLosesEnd(s, q, c); } else { EmptyStays(s, q); }
    var t := InputStep(s, c);
    hide InputStep, Cyclic, Flat, Sound, Clean, Room;
    if Holds(t, q') { HoldsShape(t, q'); }
  }

  /** Discarding rewinds over the END byte of the first frame, so nothing buffered ends it any more. */
  lemma DiscardLosesEnd(s: State, q: Inbox, c: byte)
    requires Holds(s, q) && q.frames != [] && (BadEscape(s.mode, c) || Wrap(s.free + 1) == s.begin)
    ensures var t := InputStep(s, c); t.begin != t.pktEnd && END !in Cyclic(t.buf, t.begin, t.free)
  {
    hide Cyclic;
    var f := q.frames[0];
    assert f in q.frames;
    FlatLength(q.frames);
    CyclicSplit(s.buf, s.begin, s.free, |f|);
    WrapDistance(s.begin, s.pktEnd);
    assert Cyclic(s.buf, s.begin, s.pktEnd) == (Flat(q.frames) + q.partial)[..|f|] == f;
  }

  /** An END byte right behind a complete frame is stored as an empty one. */
  lemma EmptyStays(s: State, q: Inbox)
    requires Holds(s, q) && q.frames != [] && q.partial == [] && !BadEscape(s.mode, END) && Wrap(s.free + 1) != s.begin
    ensures var t := InputStep(s, END); !NoEmptyFrame(Cyclic(t.buf, t.begin, t.free))
  {
    var t, n := InputStep(s, END), |Flat(q.frames)|;
    PartialBehind(s, q);
    CyclicAppend(s.buf, s.begin, s.free, END);
    FlatEnds(q.frames);
    hide Cyclic, Flat, Sound;
    var r := Cyclic(t.buf, t.begin, t.free);
    assert r == Flat(q.frames) + [] + [END];
    assert r[n - 1] == END && r[n] == END;
  }

  lemma {:induction false} FlatEnds(frames: seq<seq<byte>>)
    requires frames != []
    ensures Flat(frames) != [] && Flat(frames)[|Flat(frames)| - 1] == END
  {
    if |frames| > 1 { FlatEnds(frames[1..]); } else { assert Flat(frames[1..]) == []; }
  }

  /** The buffer stays a queue of frames exactly on clean bytes. */
  lemma CleanExactly(s: State, q: Inbox, c: byte)
    requires Holds(s, q)
    ensures Clean(q, c) <==> exists q' :: Holds(InputStep(s, c), q')
  {
    if Clean(q, c) {
      InputRefines(s, q, c);
    } else {
      forall q' ensures !Holds(InputStep(s, c), q') { UncleanBreaks(s, q, c, q'); }
    }
  }

  // ---- Polling ----

  function Polled(q: Inbox): Inbox {
    if q.frames == [] then q else q.(frames := q.frames[1..])
  }

  /** Scanning finds the END byte k bytes ahead if it is the first one. */
  lemma {:induction false} ScanFinds(buf: seq<byte>, cur: int, free: int, k: int)
    requires |buf| == RX_BUFSIZE && Index(cur) && Index(free) && 0 <= k <= Distance(cur, free)
    requires END !in Cyclic(buf, cur, free)[..k] && (k < Distance(cur, free) ==> Cyclic(buf, cur, free)[k] == END)
    ensures ScanEnd(buf, cur, free) == Wrap(cur + k)
    decreases k
  {
    WrapDistance(cur, free);
    if cur != free {
      CyclicCons(buf, cur, free);
      var r, next := Cyclic(buf, cur, free), Wrap(cur + 1);
      if k == 0 {
        WrapDistance(cur, cur);
      } else {
        hide Cyclic, Distance, Wrap;
        assert r[..k][0] in r[..k];
        assert r[1..] == Cyclic(buf, next, free);
        assert r[1..][..k - 1] == r[..k][1..];
        ScanFinds(buf, next, free, k - 1);
        WrapSum(cur, k);
      }
    }
  }

  lemma WrapSum(a: int, k: int)
    requires Index(a) && 0 < k < RX_BUFSIZE
    ensures Wrap(Wrap(a + 1) + (k - 1)) == Wrap(a + k)
  { }

  lemma CyclicCons(buf: seq<byte>, a: int, b: int)
    requires |buf| == RX_BUFSIZE && Index(a) && Index(b) && a != b
    ensures 0 < Distance(a, b) < RX_BUFSIZE && Index(Wrap(a + 1)) && Distance(Wrap(a + 1), b) == Distance(a, b) - 1
    ensures Cyclic(buf, a, b) == [buf[a]] + Cyclic(buf, Wrap(a + 1), b)
  {
    CyclicSplit(buf, a, b, 1);
    assert Cyclic(buf, a, b)[0] == buf[Wrap(a + 0)] == buf[a];
  }

  /** Cutting the buffered bytes at the END byte k bytes ahead. */
  lemma CutAt(s: State, k: int)
    requires Sane(s) && 0 <= k < Distance(s.begin, s.free) && s.pktEnd == Wrap(s.begin + k)
    ensures Buffered(s) == Cyclic(s.buf, s.begin, s.free)[..k]
    ensures Cyclic(s.buf, Wrap(s.pktEnd + 1), s.free) == Cyclic(s.buf, s.begin, s.free)[k + 1..]
  {
    hide Cyclic;
    CyclicSplit(s.buf, s.begin, s.free, k);
    CyclicSplit(s.buf, s.begin, s.free, k + 1);
    assert Wrap(s.pktEnd + 1) == Wrap(s.begin + (k + 1));
  }

  lemma FirstPart(frames: seq<seq<byte>>, partial: seq<byte>)
    requires frames != []
    ensures var r, f := Flat(frames) + partial, frames[0];
      |r| > |f| && r[..|f|] == f && r[|f| + 1..] == Flat(frames[1..]) + partial
  {
    Parts(frames[0], Flat(frames[1..]), partial);
  }

  lemma Parts(f: seq<byte>, g: seq<byte>, p: seq<byte>)
    ensures var r := f + [END] + g + p; |r| > |f| && r[..|f|] == f && r[|f| + 1..] == g + p
  {
    var r, rest := f + [END] + g + p, g + p;
    forall i | 0 <= i < |rest| ensures r[|f| + 1 + i] == rest[i] { }
    assert |r[|f| + 1..]| == |rest|;
  }

  /** What lies behind the oldest frame is the rest of the queue. */
  lemma BehindFirst(s: State, q: Inbox)
    requires Holds(s, q) && q.frames != []
    ensures Buffered(s) == q.frames[0] && Sound(q.frames[1..])
    ensures Cyclic(s.buf, Wrap(s.pktEnd + 1), s.free) == Flat(q.frames[1..]) + q.partial
  {
    hide Cyclic;
    var f, r := q.frames[0], Cyclic(s.buf, s.begin, s.free);
    FlatLength(q.frames);
    forall g | g in q.frames[1..] ensures g != [] && END !in g { assert g in q.frames; }
    FirstPart(q.frames, q.partial);
    hide Flat, Sound;
    CutAt(s, |f|);
  }

  /** Scanning a queue finds the end of its first frame, or nothing. */
  lemma ScanQueue(buf: seq<byte>, cur: int, free: int, frames: seq<seq<byte>>, partial: seq<byte>)
    requires |buf| == RX_BUFSIZE && Index(cur) && Index(free) && Sound(frames) && END !in partial
    requires Cyclic(buf, cur, free) == Flat(frames) + partial
    ensures frames == [] ==> ScanEnd(buf, cur, free) == free
    ensures frames != [] ==> ScanEnd(buf, cur, free) == Wrap(cur + |frames[0]|) != free
  {
    hide Cyclic;
    var r := Cyclic(buf, cur, free);
    if frames == [] {
      assert r == partial && r[..|r|] == r;
      ScanFinds(buf, cur, free, |r|);
    } else {
      var g := frames[0];
      FlatLength(frames);
      assert g in frames;
      assert r[..|g|] == g && r[|g|] == END;
      ScanFinds(buf, cur, free, |g|);
    }
  }

  /** A poll takes exactly the oldest frame off the queue. */
  lemma PollRefines(s: State, q: Inbox)
    requires Holds(s, q)
    ensures Holds(PollStep(s), Polled(q))
    ensures Buffered(s) == if q.frames == [] then [] else q.frames[0]
  {
    hide Cyclic;
    if q.frames != [] {
      BehindFirst(s, q);
      var next := Wrap(s.pktEnd + 1);
      ScanQueue(s.buf, next, s.free, q.frames[1..], q.partial);
      assert s.begin != s.pktEnd by { assert q.frames[0] in q.frames; }
    }
  }

  /** Whatever byte arrives, clean or not, the packet that waits to be polled is still there whole, and is still polled next. */
  lemma WaitingSafe(s: State, q: Inbox, c: byte)
    requires Holds(s, q) && q.frames != []
    ensures var t := InputStep(s, c); t.begin != t.pktEnd && t.poll && Buffered(t) == q.frames[0]
  {
    BehindFirst(s, q);
    WaitingPlace(s, q);
    assert Sane(s);
    hide Holds, Cyclic, Distance;
    if Wrap(s.free + 1) != s.begin { StoreKeepsFront(s.buf, s.begin, s.free, c, |q.frames[0]|); }
  }

  lemma StoreKeepsFront(buf: seq<byte>, a: int, b: int, c: byte, k: nat)
    requires |buf| == RX_BUFSIZE && Index(a) && Index(b) && Wrap(b + 1) != a && k <= Distance(a, b) && k <= Distance(a, Wrap(b + 1))
    ensures Index(Wrap(a + k)) && Cyclic(buf[b := c], a, Wrap(a + k)) == Cyclic(buf, a, Wrap(a + k))
  {
    var r := Cyclic(buf, a, b);
    CyclicSplit(buf, a, b, k);
    CyclicAppend(buf, a, b, c);
    CyclicSplit(buf[b := c], a, Wrap(b + 1), k);
    hide Cyclic, Distance;
    assert (r + [c])[..k] == r[..k];
  }

  /** The first frame lies between begin and pktEnd, inside what is buffered. */
  lemma WaitingPlace(s: State, q: Inbox)
    requires Holds(s, q) && q.frames != []
    ensures var k := |q.frames[0]|; k > 0 && s.begin != s.pktEnd == Wrap(s.begin + k) && k < Distance(s.begin, s.free)
    ensures Wrap(s.free + 1) != s.begin ==> |q.frames[0]| < Distance(s.begin, Wrap(s.free + 1))
  {
    assert q.frames[0] in q.frames;
    FlatLength(q.frames);
    hide Flat, Sound;
  }
}
