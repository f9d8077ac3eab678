/** A packet on its way from slip_write through slip_input_byte to slip_poll_handler. */
module SlipLink {
  import opened Common
  import opened SlipSpec
  import opened SlipState
  import opened SlipRun
  import Slip

  lemma RunOne(s: State, stream: seq<byte>, i: nat)
    requires Sane(s) && i < |stream|
    ensures Run(s, Inputs(stream[..i + 1])).0 == InputStep(Run(s, Inputs(stream[..i])).0, stream[i])
  {
    assert Inputs(stream[..i + 1]) == Inputs(stream[..i]) + [Byte(stream[i])];
    hide Inputs, InputStep, PollStep, Run;
    RunAppend(s, Inputs(stream[..i]), Byte(stream[i]));
  }

  /**
   * A non-empty packet that fits, written to a receiver that holds no data, is what the next poll puts into
   * the output buffer; the receiver then holds no data again.
   */
  method Deliver(driver: Slip.Driver, ghost q: Inbox, p: seq<byte>, outbuf: array<byte>, blen: nat) returns (len: nat)
    requires driver.Valid() && Holds(driver.Snap(), q) && q.frames == [] && q.partial == [] && (q.mode == Okay || q.mode == Rubbish)
    requires p != [] && |p| < 65536 && |Escape(p)| + 1 < RX_BUFSIZE
    requires outbuf != driver.rxbuf && |p| <= blen <= outbuf.Length
    modifies driver, driver.rxbuf, outbuf
    ensures len == |p| && outbuf[..len] == p
    ensures driver.Valid() && Holds(driver.Snap(), Inbox([], [], Okay))
  {
    hide Holds, InputStep, PollStep, Run, Frame, Escape, Decode, Buffered;
    ghost var s := driver.Snap();
    var wire := Slip.SlipWrite(p);
    StartOfRun(s);
    assert wire[..0] == [];
    for i := 0 to |wire|
      invariant driver.Valid() && driver.Snap() == Run(s, Inputs(wire[..i])).0
    {
      RunOne(s, wire, i);
      var newPacket := driver.InputByte(wire[i]);
    }
    assert wire[..|wire|] == wire;
    RoundTrip(s, q, p);
    RunAppend(s, Inputs(wire), Poll);
    len := driver.PollHandler(outbuf, blen);
  }

  lemma StartOfRun(s: State)
    requires Sane(s)
    ensures Run(s, Inputs([])).0 == s
  { }
}
