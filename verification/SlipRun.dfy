/** Whole runs of the SLIP receiver: the order of frames, and the fate of packets sent with slip_write. */
module SlipRun {
  import opened Common
  import opened SlipSpec
  import opened SlipState

  datatype Event = Byte(c: byte) | Poll

  /** A run of input bytes and polls: the final state, and the raw frames handed to the decoder. */
  function Run(s: State, events: seq<Event>): (r: (State, seq<seq<byte>>))
    requires Sane(s)
    ensures Sane(r.0)
    decreases |events|
  {
    if events == [] then (s, [])
    else match events[0]
      case Byte(c) => Run(InputStep(s, c), events[1..])
      case Poll =>
        var (t, out) := Run(PollStep(s), events[1..]);
        (t, (if s.begin == s.pktEnd then [] else [Buffered(s)]) + out)
  }

  function Step(s: State, e: Event): (t: State)
    requires Sane(s)
    ensures Sane(t)
  {
    match e case Byte(c) => InputStep(s, c) case Poll => PollStep(s)
  }

  /** The queue after the same events, and whether every byte was clean when it arrived. */
  function Served(q: Inbox, events: seq<Event>): Inbox
    decreases |events|
  {
    if events == [] then q
    else match events[0]
      case Byte(c) => Served(Receive(q, c), events[1..])
      case Poll => Served(Polled(q), events[1..])
  }

  predicate CleanRun(q: Inbox, events: seq<Event>)
    decreases |events|
  {
    events == [] || match events[0]
      case Byte(c) => Clean(q, c) && CleanRun(Receive(q, c), events[1..])
      case Poll => CleanRun(Polled(q), events[1..])
  }

  /** Every byte finds room when it arrives. */
  predicate RoomyRun(q: Inbox, events: seq<Event>)
    decreases |events|
  {
    events == [] || match events[0]
      case Byte(c) => Room(q) && RoomyRun(Receive(q, c), events[1..])
      case Poll => RoomyRun(Polled(q), events[1..])
  }

  function Bytes(events: seq<Event>): seq<byte>
  {
    if events == [] then [] else (if events[0].Byte? then [events[0].c] else []) + Bytes(events[1..])
  }

  // ---- The reference: framing of a byte stream, without buffers and polls ----

  datatype Framer = Framer(partial: seq<byte>, mode: Mode)

  function FramerOf(q: Inbox): Framer { Framer(q.partial, q.mode) }

  /** The frames that a stream completes. */
  function Split(p: Framer, stream: seq<byte>): seq<seq<byte>>
    decreases |stream|
  {
    if stream == [] then []
    else
      var c := stream[0];
      if p.mode == Rubbish then Split(if c == END then p.(mode := Okay) else p, stream[1..])
      else if BadEscape(p.mode, c) then Split(Framer([], Rubbish), stream[1..])
      else
        var mode := if c == ESC then Escaped else if p.mode == Escaped then Okay else p.mode;
        if c != END then Split(Framer(p.partial + [c], mode), stream[1..])
        else (if p.partial == [] then [] else [p.partial]) + Split(Framer([], mode), stream[1..])
  }

  /** One byte moves frames from the stream into the queue, in order. */
  lemma SplitByte(q: Inbox, c: byte, stream: seq<byte>)
    requires Room(q)
    ensures q.frames + Split(FramerOf(q), [c] + stream) == Receive(q, c).frames + Split(FramerOf(Receive(q, c)), stream)
  {
    var whole, next := [c] + stream, FramerOf(Receive(q, c));
    var rest := Split(next, stream);
    assert whole[0] == c && whole[1..] == stream;
    var done := if q.mode != Rubbish && !BadEscape(q.mode, c) && c == END && q.partial != [] then [q.partial] else [];
    assert Split(FramerOf(q), whole) == done + rest;
    assert Receive(q, c).frames == q.frames + done;
    hide Split, Receive;
    assert q.frames + (done + rest) == q.frames + done + rest;
  }

  /**
   * First in, first out: however polls and bytes interleave, the frames handed over and the frames still
   * waiting are, in order, those that waited before and those that the stream completes.
   */
  lemma {:induction false} Fifo(s: State, q: Inbox, events: seq<Event>)
    requires Holds(s, q) && CleanRun(q, events) && RoomyRun(q, events)
    ensures Holds(Run(s, events).0, Served(q, events))
    ensures Run(s, events).1 + Served(q, events).frames == q.frames + Split(FramerOf(q), Bytes(events))
    decreases |events|
  {
    if events != [] {
      var rest := events[1..];
      match events[0]
      case Byte(c) =>
        InputRefines(s, q, c);
        SplitByte(q, c, Bytes(rest));
        assert Bytes(events) == [c] + Bytes(rest);
        hide Receive, InputStep, Holds, Split, Clean, Room;
        Fifo(InputStep(s, c), Receive(q, c), rest);
      case Poll =>
        PollRefines(s, q);
        assert (if s.begin == s.pktEnd then [] else [Buffered(s)]) + Polled(q).frames == q.frames by { PolledFrame(s, q); }
        hide PollStep, Holds, Split, Buffered;
        Fifo(PollStep(s), Polled(q), rest);
        assert Bytes(events) == Bytes(rest) && FramerOf(Polled(q)) == FramerOf(q);
        Regroup(if s.begin == s.pktEnd then [] else [Buffered(s)], Run(PollStep(s), rest).1, Served(q, events).frames,
          q.frames, Polled(q).frames, Split(FramerOf(q), Bytes(rest)));
    }
  }

  lemma Regroup<T>(first: seq<T>, out: seq<T>, left: seq<T>, all: seq<T>, behind: seq<T>, more: seq<T>)
    requires out + left == behind + more && first + behind == all
    ensures (first + out) + left == all + more
  {
    assert (first + out) + left == first + (out + left);
    assert first + (behind + more) == (first + behind) + more;
  }

  lemma PolledFrame(s: State, q: Inbox)
    requires Holds(s, q)
    ensures (if s.begin == s.pktEnd then [] else [Buffered(s)]) + Polled(q).frames == q.frames
  {
    hide Cyclic;
    PollRefines(s, q);
    if q.frames != [] {
      assert q.frames[0] in q.frames;
      assert q.frames == [q.frames[0]] + q.frames[1..];
    }
  }

  // ---- Packets sent with slip_write ----

  function Inputs(stream: seq<byte>): (events: seq<Event>)
    ensures |events| == |stream|
  {
    seq(|stream|, i requires 0 <= i < |stream| => Byte(stream[i]))
  }

  /** Feeding escaped data grows the frame in progress, as long as there is room. */
  lemma {:induction false} FeedEscaped(q: Inbox, p: seq<byte>, tail: seq<Event>)
    requires q.mode == Okay && |Flat(q.frames)| + |q.partial| + |Escape(p)| < RX_BUFSIZE
    ensures CleanRun(q, Inputs(Escape(p)) + tail) <==> CleanRun(q.(partial := q.partial + Escape(p)), tail)
    ensures Served(q, Inputs(Escape(p)) + tail) == Served(q.(partial := q.partial + Escape(p)), tail)
    decreases |p|
  {
    if p == [] {
      assert Inputs(Escape(p)) + tail == tail && q.partial + Escape(p) == q.partial;
    } else {
      var front, b := p[..|p| - 1], p[|p| - 1];
      var e := EscapeByte(b);
      InputsParts(Escape(front), e, tail);
      hide Inputs, CleanRun, Served;
      FeedEscaped(q, front, Inputs(e) + tail);
      var q1 := q.(partial := q.partial + Escape(front));
      FeedOne(q1, b, tail);
      assert q1.partial + e == q.partial + Escape(p);
    }
  }

  lemma InputsParts(a: seq<byte>, b: seq<byte>, tail: seq<Event>)
    ensures Inputs(a + b) + tail == Inputs(a) + (Inputs(b) + tail)
  { }

  lemma FeedOne(q: Inbox, b: byte, tail: seq<Event>)
    requires q.mode == Okay && |Flat(q.frames)| + |q.partial| + |EscapeByte(b)| < RX_BUFSIZE
    ensures CleanRun(q, Inputs(EscapeByte(b)) + tail) <==> CleanRun(q.(partial := q.partial + EscapeByte(b)), tail)
    ensures Served(q, Inputs(EscapeByte(b)) + tail) == Served(q.(partial := q.partial + EscapeByte(b)), tail)
  {
    var e := EscapeByte(b);
    var events := Inputs(e) + tail;
    assert events[0] == Byte(e[0]);
    var q1 := Receive(q, e[0]);
    if |e| == 2 {
      assert events[1..][0] == Byte(e[1]) && events[1..][1..] == tail;
      assert Receive(q1, e[1]).partial == q.partial + e;
    } else {
      assert events[1..] == tail;
    }
  }

  /** Bytes that the frame in progress will take once it is closed. */
  function Behind(q: Inbox): nat { if q.partial == [] then 0 else |q.partial| + 1 }

  /** What slip_write sends for p arrives as one frame behind a receiver with no packet buffered. */
  lemma FrameArrives(q: Inbox, p: seq<byte>)
    requires q.frames == [] && (q.mode == Okay || q.mode == Rubbish) && (q.mode == Rubbish ==> q.partial == [])
    requires p != [] && Behind(q) + |Escape(p)| + 1 < RX_BUFSIZE
    ensures CleanRun(q, Inputs(Frame(p)))
    ensures Served(q, Inputs(Frame(p))) == Inbox((if q.partial == [] then [] else [q.partial]) + [Escape(p)], [], Okay)
  {
    var e := Escape(p);
    var q1 := Inbox(if q.partial == [] then [] else [q.partial], [], Okay);
    var events := Inputs(Frame(p));
    assert events[0] == Byte(END) && events[1..] == Inputs(e) + Inputs([END]);
    assert Receive(q, END) == q1;
    if q.partial != [] { assert [q.partial][1..] == []; }
    assert |Flat(q1.frames)| <= |q.partial| + 1;
    FeedEscaped(q1, p, Inputs([END]));
    var q2 := q1.(partial := q1.partial + e);
    assert q2.partial == e;
    EscapeHasNoEnd(p);
    assert Inputs([END])[0] == Byte(END) && Inputs([END])[1..] == [];
    assert Receive(q2, END) == Inbox(q1.frames + [e], [], Okay);
  }

  /**
   * The round trip: at any ring position, a packet sent with slip_write to a receiver with no data
   * buffered is what the next poll decodes; and the receiver is then ready for the next one.
   */
  lemma RoundTrip(s: State, q: Inbox, p: seq<byte>)
    requires Holds(s, q) && q.frames == [] && q.partial == [] && (q.mode == Okay || q.mode == Rubbish)
    requires p != [] && |Escape(p)| + 1 < RX_BUFSIZE
    ensures Decode(Buffered(Run(s, Inputs(Frame(p))).0)) == p
    ensures Holds(Run(s, Inputs(Frame(p)) + [Poll]).0, Inbox([], [], Okay))
  {
    FrameArrives(q, p);
    assert [] + [Escape(p)] == [Escape(p)];
    RunRefines(s, q, Inputs(Frame(p)));
    hide Holds, Served, CleanRun, Inputs, InputStep, PollStep, Escape, Frame, Cyclic;
    var t := Run(s, Inputs(Frame(p))).0;
    PollRefines(t, Inbox([Escape(p)], [], Okay));
    DecodeEscape(p);
    RunAppend(s, Inputs(Frame(p)), Poll);
  }

  /**
   * With no packet buffered, a bad escape or an overflow discards the frame in progress and nothing else,
   * and the packet that slip_write sends next is what the next poll decodes.
   */
  lemma Resync(s: State, q: Inbox, c: byte, p: seq<byte>)
    requires Holds(s, q) && q.frames == [] && q.mode != Rubbish && (BadEscape(q.mode, c) || !Room(q))
    requires p != [] && |Escape(p)| + 1 < RX_BUFSIZE
    ensures Holds(InputStep(s, c), Inbox([], [], Rubbish))
    ensures Decode(Buffered(Run(InputStep(s, c), Inputs(Frame(p))).0)) == p
  {
    InputRefines(s, q, c);
    hide Holds;
    RoundTrip(InputStep(s, c), Inbox([], [], Rubbish), p);
  }

  lemma {:induction false} RunRefines(s: State, q: Inbox, events: seq<Event>)
    requires Holds(s, q) && CleanRun(q, events)
    ensures Holds(Run(s, events).0, Served(q, events))
    decreases |events|
  {
    if events != [] {
      match events[0]
      case Byte(c) => InputRefines(s, q, c); RunRefines(InputStep(s, c), Receive(q, c), events[1..]);
      case Poll => PollRefines(s, q); RunRefines(PollStep(s), Polled(q), events[1..]);
    }
  }

  lemma {:induction false} RunSplit(s: State, a: seq<Event>, b: seq<Event>)
    requires Sane(s)
    ensures Run(s, a + b) == (Run(Run(s, a).0, b).0, Run(s, a).1 + Run(Run(s, a).0, b).1)
    decreases |a|
  {
    hide InputStep, PollStep, Buffered;
    if a == [] {
      assert a + b == b && Run(s, a).1 + Run(s, b).1 == Run(s, b).1;
    } else {
      assert (a + b)[0] == a[0] && (a + b)[1..] == a[1..] + b;
      if a[0].Byte? {
        var t := InputStep(s, a[0].c);
        assert Run(s, a + b) == Run(t, a[1..] + b);
        assert Run(s, a) == Run(t, a[1..]);
        RunSplit(t, a[1..], b);
      } else {
        RunSplit(PollStep(s), a[1..], b);
        var first, x, y := if s.begin == s.pktEnd then [] else [Buffered(s)], Run(PollStep(s), a[1..]).1, Run(Run(s, a).0, b).1;
        assert first + (x + y) == first + x + y;
      }
    }
  }

  lemma {:induction false} RunAppend(s: State, events: seq<Event>, e: Event)
    requires Sane(s)
    ensures Run(s, events + [e]).0 == Step(Run(s, events).0, e)
    decreases |events|
  {
    if events == [] {
      assert events + [e] == [e] && [e][1..] == [];
    } else {
      assert (events + [e])[1..] == events[1..] + [e];
      match events[0]
      case Byte(c) => RunAppend(InputStep(s, c), events[1..], e);
      case Poll => RunAppend(PollStep(s), events[1..], e);
    }
  }

  /**
   * The limit of the driver: if the next slip_write begins before the packet of the last one has been
   * polled, its leading END byte is stored as an empty frame, and the buffer is no queue of frames any more.
   */
  lemma BackToBackBreaks(s: State, q: Inbox, p: seq<byte>, q': Inbox)
    requires Holds(s, q) && q.frames == [] && q.partial == [] && (q.mode == Okay || q.mode == Rubbish)
    requires p != [] && |Escape(p)| + 1 < RX_BUFSIZE
    ensures !Holds(Run(s, Inputs(Frame(p)) + [Byte(END)]).0, q')
  {
    FrameArrives(q, p);
    assert [] + [Escape(p)] == [Escape(p)];
    RunRefines(s, q, Inputs(Frame(p)));
    RunAppend(s, Inputs(Frame(p)), Byte(END));
    UncleanBreaks(Run(s, Inputs(Frame(p))).0, Inbox([Escape(p)], [], Okay), END, q');
  }

  /** Inputs leave nothing to hand over; only polls do. */
  lemma {:induction false} InputsQuiet(s: State, stream: seq<byte>)
    requires Sane(s)
    ensures Run(s, Inputs(stream)).1 == []
    decreases |stream|
  {
    hide InputStep;
    if stream != [] {
      assert Inputs(stream)[0] == Byte(stream[0]) && Inputs(stream)[1..] == Inputs(stream[1..]);
      InputsQuiet(InputStep(s, stream[0]), stream[1..]);
    }
  }

  /** Two polls hand over the two oldest frames, as far as there are that many. */
  lemma PollTwice(s: State, q: Inbox)
    requires Holds(s, q) && |q.frames| <= 2
    ensures Run(s, [Poll, Poll]).1 == q.frames && Holds(Run(s, [Poll, Poll]).0, Inbox([], q.partial, q.mode))
  {
    RunTwice(s);
    PolledFrame(s, q);
    PollRefines(s, q);
    assert Sane(s);
    hide Holds, PollStep, Buffered, Run;
    PolledFrame(PollStep(s), Polled(q));
    PollRefines(PollStep(s), Polled(q));
    assert Polled(Polled(q)).frames == [];
  }

  /** What two polls hand over. */
  lemma RunTwice(s: State)
    requires Sane(s)
    ensures Run(s, [Poll, Poll]) == (PollStep(PollStep(s)), Handed(s) + Handed(PollStep(s)))
  {
    hide PollStep, Buffered;
    var t := PollStep(s);
    assert [Poll, Poll][1..] == [Poll] && [Poll][1..] == [];
    assert Run(PollStep(t), []) == (PollStep(t), []);
    assert Run(t, [Poll]) == (PollStep(t), Handed(t)) by { assert Handed(t) + [] == Handed(t); }
  }

  /** What a poll hands over. */
  function Handed(s: State): seq<seq<byte>>
    requires Sane(s)
  {
    if s.begin == s.pktEnd then [] else [Buffered(s)]
  }

  /**
   * A packet sent after a frame that was cut off: the next polls hand over what there was of that frame, if
   * anything, and then the packet. It is lost exactly if the cut came right after an ESC byte: its leading END is
   * then a bad escape, the receiver drops everything up to its final END, and holds no data afterwards.
   */
  lemma Recovery(s: State, q: Inbox, p: seq<byte>)
    requires Holds(s, q) && q.frames == [] && q.mode != TwoPackets
    requires p != [] && Behind(q) + |Escape(p)| + 1 < RX_BUFSIZE
    ensures Decode(Escape(p)) == p
    ensures Holds(Run(s, Inputs(Frame(p)) + [Poll, Poll]).0, Inbox([], [], Okay))
    ensures Run(s, Inputs(Frame(p)) + [Poll, Poll]).1
      == if q.mode == Escaped then [] else (if q.partial == [] then [] else [q.partial]) + [Escape(p)]
  {
    DecodeEscape(p);
    RecoveryServed(q, p);
    var events, q1 := Inputs(Frame(p)), Served(q, Inputs(Frame(p)));
    hide Holds, CleanRun, Served, Escape, Frame, Decoding, Run;
    RunRefines(s, q, events);
    InputsQuiet(s, Frame(p));
    RunSplit(s, events, [Poll, Poll]);
    PollTwice(Run(s, events).0, q1);
  }

  /** What becomes of the queue. */
  lemma RecoveryServed(q: Inbox, p: seq<byte>)
    requires q.frames == [] && q.mode != TwoPackets && (q.mode == Rubbish ==> q.partial == [])
    requires p != [] && Behind(q) + |Escape(p)| + 1 < RX_BUFSIZE
    ensures CleanRun(q, Inputs(Frame(p)))
    ensures Served(q, Inputs(Frame(p)))
      == Inbox(if q.mode == Escaped then [] else (if q.partial == [] then [] else [q.partial]) + [Escape(p)], [], Okay)
  {
    if q.mode != Escaped {
      FrameArrives(q, p);
    } else {
      var events := Inputs(Frame(p));
      EscapeHasNoEnd(p);
      assert events[0] == Byte(END) && events[1..] == Inputs(Escape(p) + [END]);
      assert Receive(q, END) == Inbox([], [], Rubbish);
      hide Escape, Frame;
      SkipRubbish(Escape(p));
    }
  }

  /** In the rubbish state everything up to the next END byte is dropped. */
  lemma {:induction false} SkipRubbish(data: seq<byte>)
    requires END !in data
    ensures Served(Inbox([], [], Rubbish), Inputs(data + [END])) == Inbox([], [], Okay)
    ensures CleanRun(Inbox([], [], Rubbish), Inputs(data + [END]))
  {
    var events := Inputs(data + [END]);
    if data == [] {
      assert events[0] == Byte(END) && events[1..] == [];
    } else {
      assert data[0] in data;
      assert events[0] == Byte(data[0]) && events[1..] == Inputs(data[1..] + [END]);
      SkipRubbish(data[1..]);
    }
  }
}
