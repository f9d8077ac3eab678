/**
 * os/dev/serial-line.c with the interrupt handler and the process cut into the atomic steps of their ring
 * accesses, in any interleaving.
 */
module SerialRace {
  import opened Common
  import opened RingBuf
  import opened SerialSpec
  import opened SerialLine

  /**
   * The ring with both sides inside their calls, the handler's overflow flag, the process's line buffer up to
   * ptr and the lines it has posted. `history` are the bytes of finished handler calls, with the room they found
   * when the call began, `accepted` those that reached the ring, with their input lines; `lost` tells whether any
   * byte was dropped.
   */
  datatype System = System(ring: Shared, overflow: bool, text: seq<byte>, posted: seq<seq<byte>>,
                           history: seq<Arrival>, accepted: seq<Tagged>, lost: bool)
  {
    function Input(): seq<byte> { Received(history) }
  }

  function Boot(n: RingSize): System { System(Start(n), false, [], [], [], [], false) }

  /** One atomic step of serial_line_input_byte; c is the byte if a call begins. */
  function Interrupt(n: RingSize, s: System, c: byte): (s': System)
    requires Shaped(n, s.ring)
    ensures Shaped(n, s'.ring)
  {
    var ring := Step(n, s.ring, Produce(c));
    match s.ring.producer
    case Outside =>
      var s' := s.(history := s.history + [Arrival(c, Pending(n, s.ring.put, s.ring.get) != n - 1)]);
      if c == IGNORED then s'
      else if s.overflow && c != END then s'.(lost := true)
      else if ring.producer.Outside? then s'.(overflow := true, lost := true)
      else s.(ring := ring)
    case Writing(_) => s.(ring := ring)
    case Advancing(b) =>
      s.(ring := ring, overflow := false, history := s.history + [Arrival(b, true)],
         accepted := s.accepted + [Tagged(b, LineNo(s.Input()))], lost := s.lost || s.overflow)
  }

  /** One atomic step of the loop in serial_line_process; what it does with a byte touches nothing that is shared. */
  function Process(n: RingSize, s: System): (s': System)
    requires Shaped(n, s.ring)
    ensures Shaped(n, s'.ring)
  {
    var ring := Step(n, s.ring, Consume);
    match s.ring.consumer
    case Leaving(b) =>
      if b == END then s.(ring := ring, text := [], posted := s.posted + [s.text])
      else s.(ring := ring, text := if |s.text| < n - 1 then s.text + [b] else s.text)
    case _ => s.(ring := ring)
  }

  function Advance(n: RingSize, s: System, t: Turn): (s': System)
    requires Shaped(n, s.ring)
    ensures Shaped(n, s'.ring)
  {
    match t case Produce(c) => Interrupt(n, s, c) case Consume => Process(n, s)
  }

  function After(n: RingSize, turns: seq<Turn>): (s: System)
    ensures Shaped(n, s.ring)
  {
    if turns == [] then Boot(n) else Advance(n, After(n, turns[..|turns| - 1]), turns[|turns| - 1])
  }

  // ---- What every interleaving keeps ----

  /** What the process has made of the bytes it has taken. */
  function Taken(s: System): Assembler {
    Assemble(if |s.ring.returned| <= |s.accepted| then s.accepted[..|s.ring.returned|] else s.accepted)
  }

  /** Only bytes that the handler means to store are on their way into the ring. */
  predicate OnItsWay(s: System) {
    s.ring.producer.Outside? || (s.ring.producer.c != IGNORED && (s.overflow ==> s.ring.producer.c == END))
  }

  ghost predicate Kept(n: RingSize, s: System)
    requires Shaped(n, s.ring)
  {
    && Safe(n, s.ring) && OnItsWay(s)
    && Bytes(s.accepted) == s.ring.accepted && |s.ring.returned| <= |s.accepted|
    && s.text == Capped(n, Taken(s).text) && Matches(n, s.posted, Taken(s).out)
    && Related(s.history, s.accepted, s.overflow, s.lost)
  }

  lemma BytesAppend(accepted: seq<Tagged>, t: Tagged)
    ensures Bytes(accepted + [t]) == Bytes(accepted) + [t.b]
  { }

  lemma InterruptKeeps(n: RingSize, s: System, c: byte)
    requires Shaped(n, s.ring) && Kept(n, s)
    ensures Kept(n, Interrupt(n, s, c))
  {
    hide Related, Assemble, Content, Safe, Bytes, Matches, Capped;
    StepSafe(n, s.ring, Produce(c));
    match s.ring.producer
    case Outside =>
      var room := Pending(n, s.ring.put, s.ring.get) != n - 1;
      if c == IGNORED {
        IgnoredDone(s.history, s.accepted, s.overflow, room, s.lost);
      } else {
        CallDone(s.history, s.accepted, s.overflow, c, room, s.lost);
      }
    case Writing(_) =>
    case Advancing(b) =>
      CallDone(s.history, s.accepted, s.overflow, b, true, s.lost);
      var t := Tagged(b, LineNo(s.Input()));
      BytesAppend(s.accepted, t);
      var k := |s.ring.returned|;
      assert (s.accepted + [t])[..k] == s.accepted[..k];
  }

  /** The byte that the process leaves the ring with is the next of the stored ones. */
  lemma LeavingNext(n: RingSize, ring: Shared, accepted: seq<Tagged>)
    requires Shaped(n, ring) && Safe(n, ring) && ring.consumer.Leaving? && Bytes(accepted) == ring.accepted
    ensures |ring.returned| < |accepted| && accepted[|ring.returned|].b == ring.consumer.c
  {
    var k := |ring.returned|;
    assert Bytes(accepted)[k] == ring.accepted[k] == Content(n, ring.data, ring.put, ring.get)[0];
  }

  lemma ProcessKeeps(n: RingSize, s: System)
    requires Shaped(n, s.ring) && Kept(n, s)
    ensures Kept(n, Process(n, s))
  {
    hide Related, Assemble, Content, Safe, Bytes, Matches, Capped;
    StepSafe(n, s.ring, Consume);
    if s.ring.consumer.Leaving? {
      LeavingNext(n, s.ring, s.accepted);
      TakeOne(n, s.accepted, |s.ring.returned|, s.text, s.posted);
    }
  }

  lemma {:induction false} AlwaysKept(n: RingSize, turns: seq<Turn>)
    ensures Kept(n, After(n, turns))
  {
    hide Kept, Interrupt, Process, Boot;
    if turns == [] {
      BootKept(n);
    } else {
      var s := After(n, turns[..|turns| - 1]);
      AlwaysKept(n, turns[..|turns| - 1]);
      match turns[|turns| - 1]
      case Produce(c) => InterruptKeeps(n, s, c);
      case Consume => ProcessKeeps(n, s);
    }
  }

  lemma BootKept(n: RingSize)
    ensures Kept(n, Boot(n))
  {
    assert Boot(n).accepted[..0] == [];
  }

  /** The input lines behind the posted ones. */
  function Sources(s: System): (lines: seq<nat>)
    ensures |lines| == |Taken(s).out| && forall i | 0 <= i < |lines| :: lines[i] == Taken(s).out[i].line
  {
    seq(|Taken(s).out|, i requires 0 <= i < |Taken(s).out| => Taken(s).out[i].line)
  }

  /**
   * However the steps of handler and process interleave, and whatever overflows: every posted line is a prefix
   * of one complete input line, cut to the buffer if need be, and posted lines come from strictly increasing
   * input lines. As long as nothing is dropped they are the first input lines, one by one.
   */
  lemma RacedLines(n: RingSize, turns: seq<Turn>)
    ensures var s := After(n, turns); var lines := Sources(s);
      && |s.posted| == |lines|
      && (forall i | 0 <= i < |lines| :: lines[i] < LineNo(s.Input()) && s.posted[i] <= Line(s.Input(), lines[i]) && |s.posted[i]| <= n - 1)
      && (forall i, j | 0 <= i < j < |lines| :: lines[i] < lines[j])
      && (!s.lost ==> forall i | 0 <= i < |lines| :: lines[i] == i && s.posted[i] == Capped(n, Line(s.Input(), i)))
  {
    var s := After(n, turns);
    AlwaysKept(n, turns);
    AssembleGrows(s.accepted, |s.ring.returned|);
    hide Assemble, Safe, After, Content;
    var lines, out := Taken(s).out, Assemble(s.accepted).out;
    assert forall i | 0 <= i < |lines| :: lines[i] == out[i];
  }

  /**
   * However the steps interleave, and whatever was lost before: a line that begins behind an END for which there
   * was room, and each of whose bytes found room, has reached the ring whole; once the process has taken all that
   * is in the ring, the line has been posted, cut to the buffer.
   */
  lemma RacedRecovery(n: RingSize, turns: seq<Turn>, m: nat)
    requires var s := After(n, turns); m < LineNo(s.Input()) && Spared(s.history, m)
    ensures var s := After(n, turns); var line := Line(s.Input(), m);
      && Delivered(line, m) in Assemble(s.accepted).out
      && (s.ring.returned == s.ring.accepted ==>
          exists i :: 0 <= i < |s.posted| && i < |Sources(s)| && Sources(s)[i] == m
            && s.posted[i] == if |line| <= n - 1 then line else line[..n - 1])
  {
    var s := After(n, turns);
    AlwaysKept(n, turns);
    hide Assemble, Safe, After, Content, Orderly, Matches;
    var d := Delivered(Line(s.Input(), m), m);
    assert d in Assemble(s.accepted).out;
    if s.ring.returned == s.ring.accepted {
      assert s.accepted[..|s.ring.returned|] == s.accepted;
      DeliveredPosted(n, s.posted, Taken(s).out, d);
    }
  }
}
