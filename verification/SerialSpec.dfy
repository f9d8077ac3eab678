/** Input lines, the bytes of them that reach the ring, and the lines assembled from those. */
module SerialSpec {
  import opened Common
  import opened RingBuf

  const END: byte := 0x0A
  const IGNORED: byte := 0x0D

  // ---- Lines of the input ----

  /** Number of the line that the next byte belongs to. */
  function LineNo(input: seq<byte>): nat {
    if input == [] then 0 else LineNo(input[..|input| - 1]) + if input[|input| - 1] == END then 1 else 0
  }

  /** The text of line n as far as it has come in, without carriage returns. */
  function Line(input: seq<byte>, n: nat): seq<byte> {
    if input == [] then []
    else
      var before, c := input[..|input| - 1], input[|input| - 1];
      Line(before, n) + if c != END && c != IGNORED && LineNo(before) == n then [c] else []
  }

  lemma Appended(input: seq<byte>, c: byte, n: nat)
    ensures LineNo(input + [c]) == LineNo(input) + if c == END then 1 else 0
    ensures Line(input + [c], n) == if c != END && c != IGNORED && LineNo(input) == n then Line(input, n) + [c] else Line(input, n)
  {
    assert (input + [c])[..|input|] == input;
  }

  /** A line that has not begun is empty. */
  lemma {:induction false} NotBegun(input: seq<byte>, n: nat)
    requires n > LineNo(input)
    ensures Line(input, n) == []
  {
    if input != [] { NotBegun(input[..|input| - 1], n); }
  }

  /** After one more byte, the line behind the one in progress is still empty. */
  lemma NextEmpty(input: seq<byte>, c: byte)
    ensures Line(input + [c], LineNo(input) + 1) == []
  {
    hide Line, LineNo;
    NotBegun(input, LineNo(input) + 1);
    Appended(input, c, LineNo(input) + 1);
  }

  /** The input without its carriage returns. */
  function Visible(input: seq<byte>): seq<byte> {
    if input == [] then []
    else Visible(input[..|input| - 1]) + if input[|input| - 1] == IGNORED then [] else [input[|input| - 1]]
  }

  /** Lines 0 to n, with an END between any two. */
  function Joined(input: seq<byte>, n: nat): seq<byte> {
    if n == 0 then Line(input, 0) else Joined(input, n - 1) + [END] + Line(input, n)
  }

  lemma {:induction false} JoinedStep(input: seq<byte>, c: byte, n: nat)
    requires n <= LineNo(input)
    ensures Joined(input + [c], n)
      == if n == LineNo(input) && c != END && c != IGNORED then Joined(input, n) + [c] else Joined(input, n)
  {
    Appended(input, c, n);
    hide Line, LineNo;
    if n > 0 {
      JoinedStep(input, c, n - 1);
      assert Joined(input, n - 1) + [END] + (Line(input, n) + [c]) == Joined(input, n - 1) + [END] + Line(input, n) + [c];
    }
  }

  lemma VisibleStep(input: seq<byte>, c: byte)
    ensures Visible(input + [c]) == if c == IGNORED then Visible(input) else Visible(input) + [c]
  {
    assert (input + [c])[..|input|] == input;
  }

  lemma JoinedNext(input: seq<byte>, c: byte)
    ensures Joined(input + [c], LineNo(input + [c]))
      == if c == IGNORED then Joined(input, LineNo(input)) else Joined(input, LineNo(input)) + [c]
  {
    var k := LineNo(input);
    JoinedStep(input, c, k);
    Appended(input, c, k);
    NextEmpty(input, c);
    hide Line, LineNo;
    if c == END { assert Joined(input + [c], k + 1) == Joined(input, k) + [END] + []; }
  }

  /** The lines are what the END bytes cut the input into: joined again they give it back, and none holds an END. */
  lemma {:induction false} LinesJoin(input: seq<byte>)
    ensures Joined(input, LineNo(input)) == Visible(input)
    ensures forall n: nat :: END !in Line(input, n)
  {
    if input != [] {
      var front, c := input[..|input| - 1], input[|input| - 1];
      assert input == front + [c];
      LinesJoin(front);
      forall n: nat ensures END !in Line(input, n) { Appended(front, c, n); }
      JoinedNext(front, c);
      VisibleStep(front, c);
      hide Line, LineNo, Joined, Visible;
    }
  }

  // ---- Bytes that reached the ring ----

  /** A byte and the number of the line it came in with. */
  datatype Tagged = Tagged(b: byte, line: nat)

  /** A line handed to the application, and the input line it is taken from. */
  datatype Delivered = Delivered(text: seq<byte>, line: nat)

  /** The assembler: text of the line in progress, its line, the lines completed, and the line of the last END. */
  datatype Assembler = Assembler(text: seq<byte>, line: int, out: seq<Delivered>, last: int)

  function AssembleOne(a: Assembler, t: Tagged): Assembler {
    if t.b != END then a.(text := a.text + [t.b], line := if a.text == [] then t.line else a.line)
    else Assembler([], -1, a.out + [Delivered(a.text, if a.text == [] then t.line else if a.line >= 0 then a.line else 0)], t.line)
  }

  function Assemble(bytes: seq<Tagged>): Assembler {
    if bytes == [] then Assembler([], -1, [], -1) else AssembleOne(Assemble(bytes[..|bytes| - 1]), bytes[|bytes| - 1])
  }

  lemma AssembleStep(bytes: seq<Tagged>, t: Tagged)
    ensures Assemble(bytes + [t]) == AssembleOne(Assemble(bytes), t)
  {
    assert (bytes + [t])[..|bytes|] == bytes;
  }

  predicate Increasing(out: seq<Delivered>, last: int) {
    && (forall i, j | 0 <= i < j < |out| :: out[i].line < out[j].line)
    && (forall i | 0 <= i < |out| :: out[i].line <= last)
  }

  /** Each completed line is a prefix of the input line it is taken from. */
  predicate FromLines(input: seq<byte>, out: seq<Delivered>) {
    forall i | 0 <= i < |out| :: out[i].text <= Line(input, out[i].line)
  }

  /**
   * How the bytes that reached the ring relate to the input: completed lines are prefixes of input lines
   * with increasing numbers; the line in progress is a prefix of one later line, and all of it so far
   * unless bytes are being dropped.
   */
  predicate Orderly(input: seq<byte>, a: Assembler, overflow: bool) {
    var n := LineNo(input);
    && a.last < n
    && Increasing(a.out, a.last)
    && FromLines(input, a.out)
    && (a.text != [] ==> a.last < a.line <= n && a.line >= 0 && a.text <= Line(input, a.line))
    && (!overflow ==> a.text == Line(input, n) && (a.text != [] ==> a.line == n))
  }

  /** What serial_line_input_byte does with a byte, given whether the ring would take it. */
  function Accepts(overflow: bool, c: byte, room: bool): bool {
    c != IGNORED && room && (!overflow || c == END)
  }

  function Overflows(overflow: bool, c: byte, room: bool): bool {
    if c == IGNORED then overflow else if !overflow then !room else !(c == END && room)
  }

  /** A byte that the ring does not take. */
  lemma OrderlyDropped(input: seq<byte>, a: Assembler, overflow: bool, c: byte, room: bool)
    requires Orderly(input, a, overflow) && !Accepts(overflow, c, room)
    ensures Orderly(input + [c], a, Overflows(overflow, c, room))
  {
    Appended(input, c, LineNo(input));
    NextEmpty(input, c);
    OutStays(input, a, c);
    hide Line, LineNo;
  }

  /** A byte that the ring takes into the line in progress. */
  lemma OrderlyData(input: seq<byte>, a: Assembler, c: byte)
    requires Orderly(input, a, false) && c != END && c != IGNORED
    ensures Orderly(input + [c], AssembleOne(a, Tagged(c, LineNo(input))), false)
  {
    Appended(input, c, LineNo(input));
    NextEmpty(input, c);
    OutStays(input, a, c);
    hide Line, LineNo, Increasing;
  }

  /** An END that the ring takes. */
  lemma OrderlyEnd(input: seq<byte>, a: Assembler, overflow: bool)
    requires Orderly(input, a, overflow)
    ensures Orderly(input + [END], AssembleOne(a, Tagged(END, LineNo(input))), false)
  {
    var n := LineNo(input);
    var d := Delivered(a.text, if a.text == [] then n else if a.line >= 0 then a.line else 0);
    Appended(input, END, LineNo(input));
    NextEmpty(input, END);
    OutStays(input, a, END);
    hide Line, LineNo, Increasing, FromLines;
    IncreasingMore(a.out, a.last, d, n);
    FromLinesMore(input + [END], a.out, d);
    assert AssembleOne(a, Tagged(END, n)) == Assembler([], -1, a.out + [d], n);
  }

  lemma FromLinesMore(input: seq<byte>, out: seq<Delivered>, d: Delivered)
    requires FromLines(input, out) && d.text <= Line(input, d.line)
    ensures FromLines(input, out + [d])
  {
    hide Line;
  }

  lemma IncreasingMore(out: seq<Delivered>, last: int, d: Delivered, now: int)
    requires Increasing(out, last) && last < d.line <= now
    ensures Increasing(out + [d], now)
  { }

  /** Every byte keeps the relation, whether the ring takes it or not. */
  lemma OrderlyStep(input: seq<byte>, a: Assembler, overflow: bool, c: byte, room: bool)
    requires Orderly(input, a, overflow)
    ensures Orderly(input + [c], if Accepts(overflow, c, room) then AssembleOne(a, Tagged(c, LineNo(input))) else a, Overflows(overflow, c, room))
  {
    hide Orderly;
    if !Accepts(overflow, c, room) {
      OrderlyDropped(input, a, overflow, c, room);
    } else if c == END {
      OrderlyEnd(input, a, overflow);
    } else {
      OrderlyData(input, a, c);
    }
  }

  lemma OutStays(input: seq<byte>, a: Assembler, c: byte)
    requires Orderly(input, a, false) || Orderly(input, a, true)
    ensures FromLines(input + [c], a.out)
    ensures a.text != [] ==> a.line >= 0 && a.text <= Line(input + [c], a.line)
  {
    forall i | 0 <= i < |a.out| ensures a.out[i].text <= Line(input + [c], a.out[i].line) { Appended(input, c, a.out[i].line); }
    if a.text != [] { Appended(input, c, a.line); }
  }

  /** Nothing has been dropped: the completed lines are exactly the input lines so far. */
  predicate Complete(input: seq<byte>, a: Assembler) {
    && |a.out| == LineNo(input) && a.text == Line(input, LineNo(input))
    && forall i | 0 <= i < |a.out| :: a.out[i] == Delivered(Line(input, i), i)
  }

  lemma CompleteStep(input: seq<byte>, a: Assembler, c: byte)
    requires Orderly(input, a, false) && Complete(input, a)
    ensures Complete(input + [c], if c == IGNORED then a else AssembleOne(a, Tagged(c, LineNo(input))))
  {
    Appended(input, c, LineNo(input));
    NextEmpty(input, c);
    assert a.text != [] ==> a.line == LineNo(input);
    hide Orderly, Line, LineNo;
    forall i | 0 <= i < |a.out| ensures Line(input + [c], i) == Line(input, i) { Appended(input, c, i); }
  }

  // ---- Recovery after losses ----

  /** A byte handed to the handler, and whether the ring had room for it then. */
  datatype Arrival = Arrival(c: byte, room: bool)

  function Received(h: seq<Arrival>): (r: seq<byte>)
    ensures |r| == |h| && forall i | 0 <= i < |h| :: r[i] == h[i].c
  {
    seq(|h|, i requires 0 <= i < |h| => h[i].c)
  }

  /** The line that the i-th byte belongs to. */
  function LineAt(h: seq<Arrival>, i: nat): nat
    requires i <= |h|
  {
    LineNo(Received(h)[..i])
  }

  /** There was room for every byte of line n so far, its END included. */
  ghost predicate AllFit(h: seq<Arrival>, n: nat) {
    forall i {:trigger LineAt(h, i)} | 0 <= i < |h| && LineAt(h, i) == n && h[i].c != IGNORED :: h[i].room
  }

  /** There was room for the END of line n. */
  ghost predicate EndFits(h: seq<Arrival>, n: nat) {
    exists i {:trigger LineAt(h, i)} :: 0 <= i < |h| && LineAt(h, i) == n && h[i].c == END && h[i].room
  }

  /** Line n must come through whole: it begins behind an END that found room, and so did each of its own bytes. */
  ghost predicate Spared(h: seq<Arrival>, n: nat) {
    AllFit(h, n) && (n > 0 ==> EndFits(h, n - 1))
  }

  /** Whatever was lost before: every such line has been completed in full, and the one in progress is being taken. */
  ghost predicate Recovering(h: seq<Arrival>, a: Assembler, overflow: bool) {
    var input := Received(h);
    && (forall n | 0 <= n < LineNo(input) && Spared(h, n) :: Delivered(Line(input, n), n) in a.out)
    && (Spared(h, LineNo(input)) ==> !overflow)
  }

  lemma SparedStep(h: seq<Arrival>, x: Arrival, n: nat)
    ensures var h', here := h + [x], LineNo(Received(h));
      && AllFit(h', n) == (AllFit(h, n) && (here == n && x.c != IGNORED ==> x.room))
      && EndFits(h', n) == (EndFits(h, n) || (here == n && x.c == END && x.room))
  {
    var h' := h + [x];
    forall i | 0 <= i <= |h| ensures LineAt(h', i) == LineAt(h, i) {
      assert Received(h')[..i] == Received(h)[..i];
    }
    assert Received(h)[..|h|] == Received(h);
    assert forall i | 0 <= i < |h| :: h'[i] == h[i];
    hide LineAt, LineNo;
    assert LineAt(h', |h|) == LineAt(h, |h|);
  }

  /** An END byte lies before the line in progress. */
  lemma {:induction false} EndBehind(input: seq<byte>, i: nat)
    requires i < |input| && input[i] == END
    ensures LineNo(input[..i]) < LineNo(input)
  {
    var front := input[..|input| - 1];
    if i < |front| {
      EndBehind(front, i);
      assert front[..i] == input[..i];
    }
  }

  lemma NoEndYet(h: seq<Arrival>)
    ensures !EndFits(h, LineNo(Received(h)))
  {
    if EndFits(h, LineNo(Received(h))) {
      var i :| 0 <= i < |h| && LineAt(h, i) == LineNo(Received(h)) && h[i].c == END && h[i].room;
      EndBehind(Received(h), i);
    }
  }

  /** What was complete stays complete. */
  lemma RecoveredStays(h: seq<Arrival>, a: Assembler, a': Assembler, overflow: bool, x: Arrival, m: nat)
    requires Recovering(h, a, overflow) && m < LineNo(Received(h)) && Spared(h + [x], m) && a.out <= a'.out
    ensures Delivered(Line(Received(h + [x]), m), m) in a'.out
  {
    assert Received(h + [x]) == Received(h) + [x.c];
    SparedStep(h, x, m);
    if m > 0 { SparedStep(h, x, m - 1); }
    Appended(Received(h), x.c, m);
    hide Line, LineNo, AllFit, EndFits;
    assert Delivered(Line(Received(h), m), m) in a.out;
  }

  /** The line that an END byte completes. */
  lemma RecoveredNow(h: seq<Arrival>, a: Assembler, overflow: bool, room: bool)
    requires Orderly(Received(h), a, overflow) && Recovering(h, a, overflow)
    requires Spared(h + [Arrival(END, room)], LineNo(Received(h)))
    ensures var n := LineNo(Received(h));
      room && !overflow && Delivered(Line(Received(h) + [END], n), n) in AssembleOne(a, Tagged(END, n)).out
  {
    var n, x := LineNo(Received(h)), Arrival(END, room);
    SparedStep(h, x, n);
    if n > 0 { SparedStep(h, x, n - 1); }
    Appended(Received(h), END, n);
    hide Line, LineNo, AllFit, EndFits, Increasing, FromLines;
    var out := AssembleOne(a, Tagged(END, n)).out;
    assert out[|out| - 1] == Delivered(a.text, n);
  }

  /** Every byte keeps this, whatever is dropped. */
  lemma RecoverStep(h: seq<Arrival>, a: Assembler, overflow: bool, x: Arrival)
    requires Orderly(Received(h), a, overflow) && Recovering(h, a, overflow)
    ensures Recovering(h + [x], if Accepts(overflow, x.c, x.room) then AssembleOne(a, Tagged(x.c, LineNo(Received(h)))) else a,
                       Overflows(overflow, x.c, x.room))
  {
    var n, h' := LineNo(Received(h)), h + [x];
    var a' := if Accepts(overflow, x.c, x.room) then AssembleOne(a, Tagged(x.c, n)) else a;
    assert Received(h') == Received(h) + [x.c];
    Appended(Received(h), x.c, n);
    SparedStep(h, x, n);
    if n > 0 { SparedStep(h, x, n - 1); }
    NoEndYet(h);
    forall m | 0 <= m < LineNo(Received(h')) && Spared(h', m) ensures Delivered(Line(Received(h'), m), m) in a'.out {
      if m < n { RecoveredStays(h, a, a', overflow, x, m); } else { RecoveredNow(h, a, overflow, x.room); }
    }
    hide Line, LineNo, AllFit, EndFits, Orderly;
  }

  /** What has been assembled early stays at the front of what is assembled later. */
  lemma {:induction false} AssembleGrows(bytes: seq<Tagged>, k: nat)
    requires k <= |bytes|
    ensures Assemble(bytes[..k]).out <= Assemble(bytes).out
    decreases |bytes|
  {
    if k == |bytes| {
      assert bytes[..k] == bytes;
    } else {
      var front := bytes[..|bytes| - 1];
      assert front[..k] == bytes[..k];
      AssembleGrows(front, k);
    }
  }
}
