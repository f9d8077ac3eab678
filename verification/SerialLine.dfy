/** os/dev/serial-line.c: the interrupt handler and the process that assembles lines. */
module SerialLine {
  import opened Common
  import opened RingBuf
  import opened SerialSpec

  /** The part of a line that fits the application buffer of n bytes. */
  function Capped(n: RingSize, text: seq<byte>): (r: seq<byte>)
    ensures r <= text && |r| == if |text| <= n - 1 then |text| else n - 1
  {
    if |text| <= n - 1 then text else text[..n - 1]
  }

  function Bytes(tagged: seq<Tagged>): (r: seq<byte>)
    ensures |r| == |tagged|
  {
    seq(|tagged|, i requires 0 <= i < |tagged| => tagged[i].b)
  }

  /** What is posted are the assembled lines, cut to the buffer. */
  ghost predicate Matches(n: RingSize, posted: seq<seq<byte>>, lines: seq<Delivered>) {
    |posted| == |lines| && forall i | 0 <= i < |posted| :: posted[i] == Capped(n, lines[i].text)
  }

  lemma MatchesAppended(n: RingSize, posted: seq<seq<byte>>, lines: seq<Delivered>, d: Delivered)
    requires Matches(n, posted, lines)
    ensures Matches(n, posted + [Capped(n, d.text)], lines + [d])
  {
    hide Capped;
  }

  /** Taking the oldest byte of the ring takes the oldest accepted byte. */
  lemma OldestTaken(accepted: seq<Tagged>, consumed: nat, c: byte, rest: seq<byte>)
    requires consumed < |accepted| && [c] + rest == Bytes(accepted[consumed..])
    ensures c == accepted[consumed].b && rest == Bytes(accepted[consumed + 1..])
    ensures accepted[..consumed + 1] == accepted[..consumed] + [accepted[consumed]]
  {
    var t, later := accepted[consumed], accepted[consumed + 1..];
    assert accepted[consumed..] == [t] + later;
    BytesCons(t, later);
    assert c == ([c] + rest)[0] == t.b;
    assert rest == ([c] + rest)[1..] == ([t.b] + Bytes(later))[1..] == Bytes(later);
  }

  lemma BytesCons(t: Tagged, rest: seq<Tagged>)
    ensures Bytes([t] + rest) == [t.b] + Bytes(rest)
  { }

  lemma AcceptedGrows(accepted: seq<Tagged>, t: Tagged, consumed: nat)
    requires consumed <= |accepted|
    ensures Bytes((accepted + [t])[consumed..]) == Bytes(accepted[consumed..]) + [t.b]
    ensures (accepted + [t])[..consumed] == accepted[..consumed]
  {
    assert (accepted + [t])[consumed..] == accepted[consumed..] + [t];
  }

  /** The buffer takes a byte exactly while the line fits it. */
  lemma CappedStep(n: RingSize, text: seq<byte>, c: byte)
    ensures Capped(n, text + [c]) == if |Capped(n, text)| < n - 1 then Capped(n, text) + [c] else Capped(n, text)
    ensures Capped(n, []) == []
  { }

  /** What the next byte does to the line buffer and the posted lines. */
  lemma TakeOne(n: RingSize, accepted: seq<Tagged>, k: nat, text: seq<byte>, posted: seq<seq<byte>>)
    requires k < |accepted| && text == Capped(n, Assemble(accepted[..k]).text) && Matches(n, posted, Assemble(accepted[..k]).out)
    ensures var a', b := Assemble(accepted[..k + 1]), accepted[k].b;
      if b == END then Capped(n, a'.text) == [] && Matches(n, posted + [text], a'.out)
      else Capped(n, a'.text) == (if |text| < n - 1 then text + [b] else text) && Matches(n, posted, a'.out)
  {
    var a, t := Assemble(accepted[..k]), accepted[k];
    assert accepted[..k + 1] == accepted[..k] + [t];
    AssembleStep(accepted[..k], t);
    CappedStep(n, a.text, t.b);
    hide Assemble, Matches, Capped;
    MatchesAppended(n, posted, a.out, Delivered(a.text, if a.text == [] then t.line else if a.line >= 0 then a.line else 0));
  }

  /** When the ring takes a byte, and when bytes are dropped afterwards, case by case. */
  lemma Verdict(overflow: bool, c: byte, room: bool)
    ensures c == IGNORED ==> !Accepts(overflow, c, room) && Overflows(overflow, c, room) == overflow
    ensures c != IGNORED && !overflow ==> Accepts(overflow, c, room) == room && Overflows(overflow, c, room) == !room
    ensures c != IGNORED && overflow ==> Accepts(overflow, c, room) == (c == END && room) && Overflows(overflow, c, room) == !(c == END && room)
  { }

  /** All that is kept between the bytes received and those that reached the ring. */
  ghost predicate Related(h: seq<Arrival>, accepted: seq<Tagged>, overflow: bool, lost: bool) {
    && Orderly(Received(h), Assemble(accepted), overflow)
    && Recovering(h, Assemble(accepted), overflow)
    && (!lost ==> !overflow && Complete(Received(h), Assemble(accepted)))
  }

  /** A finished handler call, its byte stored or dropped, keeps the relation of received and stored bytes. */
  lemma CallDone(h: seq<Arrival>, accepted: seq<Tagged>, overflow: bool, c: byte, room: bool, lost: bool)
    requires Related(h, accepted, overflow, lost) && c != IGNORED
    ensures var stored := room && (!overflow || c == END);
      Related(h + [Arrival(c, room)], if stored then accepted + [Tagged(c, LineNo(Received(h)))] else accepted, !stored,
              lost || overflow || !room)
  {
    var input, a, x := Received(h), Assemble(accepted), Arrival(c, room);
    assert Received(h + [x]) == input + [c];
    OrderlyStep(input, a, overflow, c, room);
    RecoverStep(h, a, overflow, x);
    AssembleStep(accepted, Tagged(c, LineNo(input)));
    if !lost { CompleteStep(input, a, c); }
    Verdict(overflow, c, room);
    hide Orderly, Recovering, Complete, Assemble, Accepts, Overflows;
  }

  /** A carriage return is dropped and breaks nothing. */
  lemma IgnoredDone(h: seq<Arrival>, accepted: seq<Tagged>, overflow: bool, room: bool, lost: bool)
    requires Related(h, accepted, overflow, lost)
    ensures Related(h + [Arrival(IGNORED, room)], accepted, overflow, lost)
  {
    var input, a, x := Received(h), Assemble(accepted), Arrival(IGNORED, room);
    assert Received(h + [x]) == input + [IGNORED];
    OrderlyStep(input, a, overflow, IGNORED, room);
    RecoverStep(h, a, overflow, x);
    if !lost { CompleteStep(input, a, IGNORED); }
    Verdict(overflow, IGNORED, room);
    hide Orderly, Recovering, Complete, Assemble, Accepts, Overflows;
  }

  /** A line that is complete among the stored bytes stays so, and is posted once they have all been taken. */
  lemma DeliveredPosted(n: RingSize, posted: seq<seq<byte>>, lines: seq<Delivered>, d: Delivered)
    requires Matches(n, posted, lines) && d in lines
    ensures exists i :: 0 <= i < |posted| && i < |lines| && lines[i] == d && posted[i] == Capped(n, d.text)
  {
    var i :| 0 <= i < |lines| && lines[i] == d;
    assert lines[i] == d && posted[i] == Capped(n, d.text);
  }

  class Driver {
    const rxbuf: Ring
    var overflow: bool
    const buf: array<byte>
    var ptr: int

    /**
     * Bytes received, with the room they found; bytes that reached the ring, how many of those the process has
     * taken, and the lines it has posted.
     */
    ghost var history: seq<Arrival>
    ghost var accepted: seq<Tagged>
    ghost var consumed: nat
    ghost var posted: seq<seq<byte>>
    /** Has any byte been dropped? */
    ghost var lost: bool

    /** The bytes received. */
    ghost function Input(): seq<byte>
      reads this
    {
      Received(history)
    }

    /** The lines behind the posted events. */
    ghost function Lines(): seq<Delivered>
      requires consumed <= |accepted|
      reads this
    {
      Assemble(accepted[..consumed]).out
    }

    ghost predicate Valid()
      reads this, rxbuf, rxbuf.data, buf
    {
      && rxbuf.Valid() && buf.Length == rxbuf.size && buf != rxbuf.data
      && consumed <= |accepted| && rxbuf.Contents() == Bytes(accepted[consumed..])
      && 0 <= ptr < buf.Length && buf[..ptr] == Capped(rxbuf.size, Assemble(accepted[..consumed]).text)
      && Matches(rxbuf.size, posted, Lines())
      && Related(history, accepted, overflow, lost)
    }

    constructor (n: RingSize)
      ensures Valid() && fresh(rxbuf) && fresh(rxbuf.data) && fresh(buf) && Input() == [] && posted == [] && !lost
    {
      rxbuf := new Ring(n);
      buf := new byte[n](_ => 0);
      overflow, ptr := false, 0;
      history, accepted, consumed, posted, lost := [], [], 0, [], false;
    }

    /** serial_line_input_byte, in the interrupt. */
    method InputByte(c: byte) returns (woken: bool)
      requires Valid()
      modifies this`overflow, this`history, this`accepted, this`lost, rxbuf, rxbuf.data
      ensures Valid() && woken == (c != IGNORED)
      ensures history == old(history) + [Arrival(c, |old(rxbuf.Contents())| < rxbuf.size - 1)]
      ensures var room := |old(rxbuf.Contents())| < rxbuf.size - 1;
        if c == IGNORED then overflow == old(overflow) && rxbuf.Contents() == old(rxbuf.Contents())
        else if room && (!old(overflow) || c == END) then !overflow && rxbuf.Contents() == old(rxbuf.Contents()) + [c]
        else overflow && rxbuf.Contents() == old(rxbuf.Contents())
      ensures lost == (old(lost) || (c != IGNORED && (old(overflow) || |old(rxbuf.Contents())| >= rxbuf.size - 1)))
    {
      hide Related, Assemble, Content, Bytes, Capped, Matches, Pending, Repeat, Ring.Idle, Ring.Contents, Ring.Valid;
      ghost var room := |rxbuf.Contents()| < rxbuf.size - 1;
      ghost var over0, t := overflow, Tagged(c, LineNo(Input()));
      if c == IGNORED {
        IgnoredDone(history, accepted, overflow, room, lost);
        history := history + [Arrival(c, room)];
        return false;
      }
      CallDone(history, accepted, overflow, c, room, lost);
      var ok := false;
      if !overflow {
        ok := rxbuf.Put(c);
        if !ok {
          overflow := true;
        }
      } else {
        if c == END {
          ok := rxbuf.Put(c);
          if ok {
            overflow := false;
          }
        }
      }
      if ok {
        AcceptedGrows(accepted, t, consumed);
        accepted := accepted + [t];
      }
      lost := lost || over0 || !room;
      history := history + [Arrival(c, room)];
      return true;
    }

    /** One turn of the loop in serial_line_process; returns whether it must wait for more bytes. */
    method ProcessByte() returns (wait: bool)
      requires Valid()
      modifies this`ptr, this`consumed, this`posted, rxbuf`getPtr, buf
      ensures Valid() && wait == (|old(rxbuf.Contents())| == 0)
      ensures consumed == old(consumed) + if wait then 0 else 1
      ensures old(posted) <= posted
      ensures posted != old(posted) ==>
        var line := posted[|posted| - 1];
        |posted| == |old(posted)| + 1 && |line| < buf.Length && buf[..|line|] == line && buf[|line|] == 0
    {
      hide Related, Assemble, Content, Capped, Bytes, Matches, Pending, Next, Repeat, Ring.Idle, Ring.Contents, Ring.Valid;
      ghost var line := buf[..ptr];
      var c := rxbuf.Get();
      if c == -1 {
        return true;
      }
      OldestTaken(accepted, consumed, c, rxbuf.Contents());
      TakeOne(rxbuf.size, accepted, consumed, line, posted);
      if c != END {
        if ptr < buf.Length - 1 {
          buf[ptr] := c;
          ptr := ptr + 1;
          assert buf[..ptr] == line + [c];
        }
      } else {
        posted := posted + [buf[..ptr]];
        assert posted[|posted| - 1] == line;
        buf[ptr] := 0;
        assert buf[..|line|] == line && buf[|line|] == 0;
        ptr := 0;
        assert buf[..ptr] == [];
      }
      consumed := consumed + 1;
      return false;
    }

    /**
     * Every posted line is a prefix of one complete input line, cut to the buffer if need be; posted lines
     * come from increasing input lines, whatever was dropped in between.
     */
    lemma PostedLines()
      requires Valid()
      ensures |posted| == |Lines()|
      ensures forall i | 0 <= i < |posted| ::
        posted[i] <= Line(Input(), Lines()[i].line) && |posted[i]| <= rxbuf.size - 1 && Lines()[i].line < LineNo(Input())
      ensures forall i, j | 0 <= i < j < |posted| :: Lines()[i].line < Lines()[j].line
    {
      AssembleGrows(accepted, consumed);
      hide Assemble;
      var out := Assemble(accepted).out;
      assert forall i | 0 <= i < |Lines()| :: Lines()[i] == out[i];
    }

    /** As long as nothing is dropped, the posted lines are the first input lines, one by one. */
    lemma PostedAll()
      requires Valid() && !lost
      ensures forall i | 0 <= i < |posted| ::
        posted[i] == var line := Line(Input(), i); if |line| < rxbuf.size then line else line[..rxbuf.size - 1]
      ensures rxbuf.Contents() == [] ==> |posted| == LineNo(Input())
    {
      AssembleGrows(accepted, consumed);
      var out := Assemble(accepted).out;
      assert forall i | 0 <= i < |Lines()| :: Lines()[i] == out[i];
      if rxbuf.Contents() == [] { assert accepted[..consumed] == accepted; }
    }

    /**
     * Whatever was lost before: a line that begins behind an END for which there was room, and each of whose bytes found
     * room, has reached the ring whole, and is posted, cut to the buffer, by the time the ring is empty.
     */
    lemma PostedAgain(n: nat)
      requires Valid() && n < LineNo(Input()) && Spared(history, n)
      ensures Delivered(Line(Input(), n), n) in Assemble(accepted).out
      ensures rxbuf.Contents() == [] ==>
        exists i :: 0 <= i < |posted| && i < |Lines()| && Lines()[i].line == n &&
          posted[i] == var line := Line(Input(), n); if |line| < rxbuf.size then line else line[..rxbuf.size - 1]
    {
      hide Assemble, Orderly, Capped, Matches;
      var d := Delivered(Line(Input(), n), n);
      assert d in Assemble(accepted).out;
      if rxbuf.Contents() == [] {
        assert accepted[..consumed] == accepted;
        DeliveredPosted(rxbuf.size, posted, Lines(), d);
      }
    }
  }
}
