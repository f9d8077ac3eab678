/**
 * What the SLIP receiver does with frames that arrive faster than it is polled. The buffer is read as plain
 * bytes here, not as a queue of frames, because it may stop being one.
 */
module SlipRaw {
  import opened Common
  import opened SlipSpec
  import opened SlipState
  import opened SlipRun

  /** The buffered bytes, the number of bytes that the next poll takes (0 if no packet is marked), and the mode. */
  datatype Raw = Raw(bytes: seq<byte>, end: nat, mode: Mode)

  ghost predicate Stands(s: State, r: Raw) {
    && Sane(s)
    && Cyclic(s.buf, s.begin, s.free) == r.bytes && s.mode == r.mode
    && (r.end == 0 || r.end < |r.bytes|) && s.pktEnd == Wrap(s.begin + r.end)
  }

  lemma HoldsStands(s: State, q: Inbox)
    requires Holds(s, q) && q.frames == [] && q.partial == []
    ensures Stands(s, Raw([], 0, q.mode))
  { }

  // ---- Single events ----

  function NextMode(mode: Mode, c: byte): Mode {
    if c == ESC then Escaped else if mode == Escaped then Okay else mode
  }

  /** A byte that is no END and needs no discarding is appended. */
  lemma DataByte(s: State, r: Raw, c: byte)
    requires Stands(s, r) && r.mode != Rubbish && !BadEscape(r.mode, c) && c != END && |r.bytes| + 1 < RX_BUFSIZE
    ensures Stands(InputStep(s, c), Raw(r.bytes + [c], r.end, NextMode(r.mode, c)))
  {
    WrapDistance(s.begin, s.free);
    CyclicAppend(s.buf, s.begin, s.free, c);
    hide Cyclic;
  }

  /** The indices tell how many bytes are buffered and where the mark is. */
  lemma Indices(s: State, r: Raw)
    requires Stands(s, r)
    ensures r.end == 0 <==> s.begin == s.pktEnd
    ensures r.bytes == [] <==> s.begin == s.free
    ensures r.bytes != [] ==> s.pktEnd != s.free
    ensures s.free == Wrap(s.begin + |r.bytes|) && (Wrap(s.free + 1) == s.begin <==> |r.bytes| + 1 == RX_BUFSIZE)
  {
    hide Cyclic;
    assert |r.bytes| == Distance(s.begin, s.free);
    WrapDistance(s.begin, s.free);
  }

  /** An END byte behind other bytes is appended, and marks a packet if none is marked yet. */
  lemma EndByte(s: State, r: Raw)
    requires Stands(s, r) && r.mode == Okay && r.bytes != [] && |r.bytes| + 1 < RX_BUFSIZE
    ensures Stands(InputStep(s, END), Raw(r.bytes + [END], if r.end == 0 then |r.bytes| else r.end, Okay))
  {
    Indices(s, r);
    CyclicAppend(s.buf, s.begin, s.free, END);
    hide Cyclic, Wrap, Distance;
  }

  /** An END byte in an empty buffer, or behind rubbish, only sets the mode. */
  lemma EmptyEnd(s: State, r: Raw)
    requires Stands(s, r) && r.bytes == [] && (r.mode == Okay || r.mode == Rubbish)
    ensures Stands(InputStep(s, END), Raw([], 0, Okay))
  {
    WrapDistance(s.begin, s.free);
  }

  function FirstEnd(d: seq<byte>): (k: nat)
    ensures k <= |d| && END !in d[..k] && (k < |d| ==> d[k] == END)
  {
    if d == [] || d[0] == END then 0 else 1 + FirstEnd(d[1..])
  }

  /** Where the next packet is marked in what a poll leaves. */
  function Mark(rest: seq<byte>): (end: nat)
    ensures end == 0 || end < |rest|
  {
    if FirstEnd(rest) == |rest| then 0 else FirstEnd(rest)
  }

  /** A poll takes the marked bytes and the END behind them, and marks the bytes up to the next END. */
  lemma PollTakes(s: State, r: Raw)
    requires Stands(s, r)
    ensures r.end == 0 ==> s.begin == s.pktEnd && Stands(PollStep(s), r)
    ensures r.end > 0 ==>
      && s.begin != s.pktEnd && Buffered(s) == r.bytes[..r.end]
      && Stands(PollStep(s), Raw(r.bytes[r.end + 1..], Mark(r.bytes[r.end + 1..]), r.mode))
  {
    Indices(s, r);
    if r.end > 0 {
      MarkedPart(s, r);
      PollParts(s);
      var next, rest := Wrap(s.pktEnd + 1), r.bytes[r.end + 1..];
      hide Cyclic, Distance, Wrap, ScanEnd, Mark, Buffered, PollStep;
      ScanMark(s.buf, next, s.free, rest);
    }
  }

  lemma PollParts(s: State)
    requires Sane(s) && s.begin != s.pktEnd
    ensures
      var next := Wrap(s.pktEnd + 1);
      var e := ScanEnd(s.buf, next, s.free);
      PollStep(s) == s.(begin := next, pktEnd := if e == s.free then next else e, poll := e != s.free)
  { }

  /** The marked bytes, and what lies behind their END. */
  lemma MarkedPart(s: State, r: Raw)
    requires Stands(s, r) && r.end > 0
    ensures s.begin != s.pktEnd && Buffered(s) == r.bytes[..r.end]
    ensures Index(Wrap(s.pktEnd + 1)) && Cyclic(s.buf, Wrap(s.pktEnd + 1), s.free) == r.bytes[r.end + 1..]
  {
    CyclicSplit(s.buf, s.begin, s.free, r.end);
    WrapDistance(s.begin, s.pktEnd);
    hide Cyclic;
    CutAt(s, r.end);
  }

  lemma WrapAt(a: int, b: int, k: int)
    requires Index(a) && Index(b) && 0 <= k <= Distance(a, b)
    ensures Wrap(a + k) == b <==> k == Distance(a, b)
  { }

  /** The scan of the poll handler finds the next mark. */
  lemma ScanMark(buf: seq<byte>, next: int, free: int, rest: seq<byte>)
    requires |buf| == RX_BUFSIZE && Index(next) && Index(free) && Cyclic(buf, next, free) == rest
    ensures var e := ScanEnd(buf, next, free); (if e == free then next else e) == Wrap(next + Mark(rest))
  {
    var k := FirstEnd(rest);
    ScanFinds(buf, next, free, k);
    WrapAt(next, free, k);
    hide Cyclic, FirstEnd, ScanEnd;
  }

  // ---- Runs, piece by piece ----

  /** The events turn r into r', and `out` are the raw frames handed over on the way. */
  ghost predicate Leads(s: State, events: seq<Event>, r': Raw, out: seq<seq<byte>>)
    requires Sane(s)
  {
    Stands(Run(s, events).0, r') && Run(s, events).1 == out
  }

  lemma LeadsOn(s: State, a: seq<Event>, r: Raw, x: seq<seq<byte>>, b: seq<Event>, r': Raw, y: seq<seq<byte>>)
    requires Sane(s) && Leads(s, a, r, x) && Leads(Run(s, a).0, b, r', y)
    ensures Leads(s, a + b, r', x + y)
    ensures x == [] ==> Leads(s, a + b, r', y)
    ensures y == [] ==> Leads(s, a + b, r', x)
  {
    RunSplit(s, a, b);
    hide Stands;
    if x == [] { assert x + y == y; }
    if y == [] { assert x + y == x; }
  }

  lemma ByteLeads(s: State, c: byte, r: Raw)
    requires Sane(s) && Stands(InputStep(s, c), r)
    ensures Leads(s, Inputs([c]), r, [])
  {
    assert Inputs([c])[0] == Byte(c) && Inputs([c])[1..] == [];
  }

  lemma PollLeads(s: State, r: Raw)
    requires Stands(s, r)
    ensures r.end == 0 ==> Leads(s, [Poll], r, [])
    ensures r.end > 0 ==>
      Leads(s, [Poll], Raw(r.bytes[r.end + 1..], Mark(r.bytes[r.end + 1..]), r.mode), [r.bytes[..r.end]])
  {
    PollTakes(s, r);
    assert [Poll][1..] == [];
  }

  /** Data whose escapes are valid when it begins in the given mode. */
  predicate Legal(mode: Mode, d: seq<byte>)
    decreases |d|
  {
    d == [] || (d[0] != END && !BadEscape(mode, d[0]) && Legal(NextMode(mode, d[0]), d[1..]))
  }

  function EndMode(mode: Mode, d: seq<byte>): Mode
    decreases |d|
  {
    if d == [] then mode else EndMode(NextMode(mode, d[0]), d[1..])
  }

  lemma {:induction false} LegalSplit(mode: Mode, a: seq<byte>, b: seq<byte>)
    ensures Legal(mode, a + b) <==> Legal(mode, a) && Legal(EndMode(mode, a), b)
    ensures EndMode(mode, a + b) == EndMode(EndMode(mode, a), b)
    decreases |a|
  {
    if a == [] {
      assert a + b == b;
    } else {
      assert (a + b)[1..] == a[1..] + b;
      LegalSplit(NextMode(mode, a[0]), a[1..], b);
    }
  }

  lemma EscapeByteLegal(b: byte)
    ensures Legal(Okay, EscapeByte(b)) && EndMode(Okay, EscapeByte(b)) == Okay
  {
    var e := EscapeByte(b);
    if |e| == 2 {
      assert e[1..] == [e[1]] && [e[1]][1..] == [];
      assert Legal(Escaped, [e[1]]) && EndMode(Escaped, [e[1]]) == Okay;
    } else {
      assert e[1..] == [];
    }
  }

  lemma {:induction false} EscapeLegal(p: seq<byte>)
    ensures Legal(Okay, Escape(p)) && EndMode(Okay, Escape(p)) == Okay
  {
    if p != [] {
      var front, b := p[..|p| - 1], p[|p| - 1];
      EscapeLegal(front);
      EscapeByteLegal(b);
      assert Escape(p) == Escape(front) + EscapeByte(b);
      hide Legal, EndMode, Escape, EscapeByte;
      LegalSplit(Okay, Escape(front), EscapeByte(b));
    }
  }

  lemma {:induction false} LegalModes(mode: Mode, d: seq<byte>)
    requires mode != Rubbish
    ensures EndMode(mode, d) != Rubbish
    decreases |d|
  {
    if d != [] { LegalModes(NextMode(mode, d[0]), d[1..]); }
  }

  /** Legal data is appended byte by byte. */
  lemma {:induction false} DataLeads(s: State, r: Raw, d: seq<byte>)
    requires Stands(s, r) && r.mode != Rubbish && Legal(r.mode, d) && |r.bytes| + |d| < RX_BUFSIZE
    ensures Leads(s, Inputs(d), Raw(r.bytes + d, r.end, EndMode(r.mode, d)), [])
    decreases |d|
  {
    if d == [] {
      assert r.bytes + d == r.bytes && Inputs(d) == [];
    } else {
      var c, t := d[0], InputStep(s, d[0]);
      var r1 := Raw(r.bytes + [c], r.end, NextMode(r.mode, c));
      DataByte(s, r, c);
      DataLeads(t, r1, d[1..]);
      assert Inputs(d)[0] == Byte(c) && Inputs(d)[1..] == Inputs(d[1..]);
      assert r1.bytes + d[1..] == r.bytes + d;
      assert Run(s, Inputs(d)) == Run(t, Inputs(d[1..]));
    }
  }

  lemma InputsConcat(a: seq<byte>, b: seq<byte>)
    ensures Inputs(a + b) == Inputs(a) + Inputs(b)
  { }

  lemma LeadsStands(s: State, a: seq<Event>, r: Raw, x: seq<seq<byte>>)
    requires Sane(s) && Leads(s, a, r, x)
    ensures Stands(Run(s, a).0, r)
  { }

  /** Then one byte. */
  lemma ThenByte(s: State, a: seq<Event>, r: Raw, x: seq<seq<byte>>, c: byte, r': Raw)
    requires Sane(s) && Leads(s, a, r, x) && Stands(InputStep(Run(s, a).0, c), r')
    ensures Leads(s, a + Inputs([c]), r', x)
  {
    ByteLeads(Run(s, a).0, c, r');
    hide InputStep, Stands, Inputs;
    LeadsOn(s, a, r, x, Inputs([c]), r', []);
  }

  /** Then an END byte behind other bytes. */
  lemma ThenEnd(s: State, a: seq<Event>, r: Raw, x: seq<seq<byte>>)
    requires Sane(s) && Leads(s, a, r, x) && r.mode == Okay && r.bytes != [] && |r.bytes| + 1 < RX_BUFSIZE
    ensures Leads(s, a + Inputs([END]), Raw(r.bytes + [END], if r.end == 0 then |r.bytes| else r.end, Okay), x)
  {
    hide Stands, Leads, InputStep, Run, Inputs;
    LeadsStands(s, a, r, x);
    EndByte(Run(s, a).0, r);
    ThenByte(s, a, r, x, END, Raw(r.bytes + [END], if r.end == 0 then |r.bytes| else r.end, Okay));
  }

  /** Then legal data. */
  lemma ThenData(s: State, a: seq<Event>, r: Raw, x: seq<seq<byte>>, d: seq<byte>)
    requires Sane(s) && Leads(s, a, r, x) && r.mode != Rubbish && Legal(r.mode, d) && |r.bytes| + |d| < RX_BUFSIZE
    ensures Leads(s, a + Inputs(d), Raw(r.bytes + d, r.end, EndMode(r.mode, d)), x)
  {
    hide Stands, Leads, Run, Inputs, Legal, EndMode;
    LeadsStands(s, a, r, x);
    DataLeads(Run(s, a).0, r, d);
    LeadsOn(s, a, r, x, Inputs(d), Raw(r.bytes + d, r.end, EndMode(r.mode, d)), []);
  }

  /** Then a poll. */
  lemma ThenPoll(s: State, a: seq<Event>, r: Raw, x: seq<seq<byte>>)
    requires Sane(s) && Leads(s, a, r, x)
    ensures r.end == 0 ==> Leads(s, a + [Poll], r, x)
    ensures 0 < r.end < |r.bytes| ==>
      Leads(s, a + [Poll], Raw(r.bytes[r.end + 1..], Mark(r.bytes[r.end + 1..]), r.mode), x + [r.bytes[..r.end]])
  {
    hide Stands, Leads, Run, Mark;
    LeadsStands(s, a, r, x);
    PollLeads(Run(s, a).0, r);
    if r.end == 0 {
      LeadsOn(s, a, r, x, [Poll], r, []);
    } else if r.end < |r.bytes| {
      var rest := r.bytes[r.end + 1..];
      LeadsOn(s, a, r, x, [Poll], Raw(rest, Mark(rest), r.mode), [r.bytes[..r.end]]);
    }
  }

  /** Then a poll of a buffer that holds one complete frame and nothing else. */
  lemma ThenPollFrame(s: State, a: seq<Event>, e: seq<byte>, x: seq<seq<byte>>)
    requires Sane(s) && e != [] && Leads(s, a, Raw(e + [END], |e|, Okay), x)
    ensures Leads(s, a + [Poll], Raw([], 0, Okay), x + [e])
  {
    hide Stands, Leads, Run;
    ThenPoll(s, a, Raw(e + [END], |e|, Okay), x);
    assert (e + [END])[..|e|] == e && (e + [END])[|e| + 1..] == [];
  }

  /** Then a whole frame, into an empty buffer. */
  lemma ThenFrame(s: State, a: seq<Event>, r: Raw, x: seq<seq<byte>>, p: seq<byte>)
    requires Sane(s) && Leads(s, a, r, x) && r.bytes == [] && (r.mode == Okay || r.mode == Rubbish)
    requires p != [] && |Escape(p)| + 1 < RX_BUFSIZE
    ensures Leads(s, a + Inputs(Frame(p)), Raw(Escape(p) + [END], |Escape(p)|, Okay), x)
  {
    var e := Escape(p);
    EscapeLegal(p);
    EscapeHasNoEnd(p);
    FrameParts(a, p);
    hide Stands, Leads, Run, Inputs, Legal, EndMode, Escape, Frame, InputStep;
    LeadsStands(s, a, r, x);
    EmptyEnd(Run(s, a).0, r);
    ThenByte(s, a, r, x, END, Raw([], 0, Okay));
    ThenData(s, a + Inputs([END]), Raw([], 0, Okay), x, e);
    assert [] + e == e;
    ThenEnd(s, a + Inputs([END]) + Inputs(e), Raw(e, 0, Okay), x);
  }

  lemma FrameParts(a: seq<Event>, p: seq<byte>)
    ensures a + Inputs(Frame(p)) == a + Inputs([END]) + Inputs(Escape(p)) + Inputs([END])
  {
    InputsConcat([END], Escape(p));
    InputsConcat([END] + Escape(p), [END]);
  }

  // ---- Two frames and a poll ----

  /** p and then r are sent; the driver is polled after j bytes of the second frame, and again at the end. */
  function Hurried(p: seq<byte>, r: seq<byte>, j: nat): seq<Event>
    requires j <= |Frame(r)|
  {
    Inputs(Frame(p)) + Inputs(Frame(r)[..j]) + [Poll] + Inputs(Frame(r)[j..]) + [Poll]
  }

  /** The receiver holds no data, and the two packets fit together with an END to spare. */
  ghost predicate Ready(s: State, q: Inbox, p: seq<byte>, r: seq<byte>) {
    && Holds(s, q) && q.frames == [] && q.partial == [] && (q.mode == Okay || q.mode == Rubbish)
    && p != [] && r != [] && |Escape(p)| + |Escape(r)| + 4 < RX_BUFSIZE
  }

  /** The first frame has arrived. */
  lemma FirstArrived(s: State, q: Inbox, p: seq<byte>, r: seq<byte>)
    requires Ready(s, q, p, r)
    ensures Sane(s) && |p| <= |Escape(p)| && Leads(s, Inputs(Frame(p)), Raw(Escape(p) + [END], |Escape(p)|, Okay), [])
  {
    HoldsStands(s, q);
    EscapeHasNoEnd(p);
    assert Run(s, []) == (s, []) && [] + Inputs(Frame(p)) == Inputs(Frame(p));
    ThenFrame(s, [], Raw([], 0, q.mode), [], p);
  }

  /** Polled in between, both packets come out. */
  lemma PolledBetween(s: State, q: Inbox, p: seq<byte>, r: seq<byte>)
    requires Ready(s, q, p, r)
    ensures Sane(s) && Leads(s, Hurried(p, r, 0), Raw([], 0, Okay), [Escape(p), Escape(r)])
  {
    var e, f, a := Escape(p), Escape(r), Inputs(Frame(p));
    FirstArrived(s, q, p, r);
    EscapeHasNoEnd(r);
    assert Frame(r)[..0] == [] && Inputs([]) == [] && a + [] == a && Frame(r)[0..] == Frame(r);
    hide Stands, Leads, Run, Inputs, Escape, Frame;
    ThenPollFrame(s, a, e, []);
    assert [] + [e] == [e];
    ThenFrame(s, a + [Poll], Raw([], 0, Okay), [e], r);
    ThenPollFrame(s, a + [Poll] + Inputs(Frame(r)), f, [e]);
    assert [e] + [f] == [e, f];
  }

  /** Two frames up to byte |d| + 1 of the second: its leading END is stored behind the first. */
  lemma SecondBegins(s: State, q: Inbox, p: seq<byte>, r: seq<byte>, d: seq<byte>)
    requires Ready(s, q, p, r) && Legal(Okay, d) && |d| <= |Escape(r)|
    ensures Sane(s) && Escape(p) != []
    ensures Leads(s, Inputs(Frame(p)) + Inputs([END] + d), Raw(Escape(p) + [END, END] + d, |Escape(p)|, EndMode(Okay, d)), [])
  {
    var e, a := Escape(p), Inputs(Frame(p));
    FirstArrived(s, q, p, r);
    InputsConcat([END], d);
    assert a + Inputs([END] + d) == a + Inputs([END]) + Inputs(d);
    hide Stands, Leads, Run, Inputs, Legal, EndMode, Escape, Frame;
    ThenEnd(s, a, Raw(e + [END], |e|, Okay), []);
    assert e + [END] + [END] == e + [END, END];
    ThenData(s, a + Inputs([END]), Raw(e + [END, END], |e|, Okay), [], d);
  }

  /** The poll then takes the first packet, and leaves the stray END with what is behind it, unmarked. */
  lemma StrayPoll(s: State, a: seq<Event>, e: seq<byte>, d: seq<byte>, mode: Mode)
    requires Sane(s) && e != [] && Leads(s, a, Raw(e + [END, END] + d, |e|, mode), [])
    ensures Leads(s, a + [Poll], Raw([END] + d, 0, mode), [e])
  {
    var bytes, rest := e + [END, END] + d, [END] + d;
    assert bytes[..|e|] == e && bytes[|e| + 1..] == rest && Mark(rest) == 0;
    hide Stands, Leads, Run, Mark;
    ThenPoll(s, a, Raw(bytes, |e|, mode), []);
    assert [] + [e] == [e];
  }

  lemma CutFrame(r: seq<byte>, j: nat)
    requires 0 < j < |Frame(r)|
    ensures var d, g := Escape(r)[..j - 1], Escape(r)[j - 1..];
      Escape(r) == d + g && Frame(r)[..j] == [END] + d && Frame(r)[j..] == g + [END]
  {
    var f := Escape(r);
    hide Escape;
    assert Frame(r) == ([END] + f[..j - 1]) + (f[j - 1..] + [END]);
  }

  lemma InsideEvents(p: seq<byte>, r: seq<byte>, j: nat)
    requires 0 < j < |Frame(r)|
    ensures var d, g := Escape(r)[..j - 1], Escape(r)[j - 1..];
      Hurried(p, r, j) == Inputs(Frame(p)) + Inputs([END] + d) + [Poll] + Inputs(g) + Inputs([END]) + [Poll]
  {
    var g := Escape(r)[j - 1..];
    CutFrame(r, j);
    InputsConcat(g, [END]);
    hide Inputs, Escape, Frame;
    EventsAssoc(Inputs(Frame(p)) + Inputs(Frame(r)[..j]) + [Poll], Inputs(g), Inputs([END]));
  }

  lemma EventsAssoc(a: seq<Event>, b: seq<Event>, c: seq<Event>)
    ensures a + (b + c) == a + b + c
  { }

  /** Polled inside the second frame: it comes out with the stray END in front. */
  lemma PolledInside(s: State, q: Inbox, p: seq<byte>, r: seq<byte>, j: nat)
    requires Ready(s, q, p, r) && 0 < j < |Frame(r)|
    ensures Sane(s) && Leads(s, Hurried(p, r, j), Raw([], 0, Okay), [Escape(p), [END] + Escape(r)])
  {
    var e, f := Escape(p), Escape(r);
    var d, g, h := f[..j - 1], f[j - 1..], [END] + f;
    assert |h| + 1 < RX_BUFSIZE && j <= |f| + 1;
    hide Stands, Leads, Run, Inputs, Legal, EndMode, Escape, Hurried, Frame, Ready;
    InsideEvents(p, r, j);
    LegalHalves(r, j - 1);
    Halves(f, j - 1);
    SecondBegins(s, q, p, r, d);
    var a, m := Inputs(Frame(p)) + Inputs([END] + d), EndMode(Okay, d);
    StrayPoll(s, a, e, d, m);
    ThenRest(s, a + [Poll], d, g, h, m, e);
  }

  lemma Halves(f: seq<byte>, k: nat)
    requires k <= |f|
    ensures [END] + f[..k] + f[k..] == [END] + f
  { }

  /** Escaped data may be cut anywhere. */
  lemma LegalHalves(r: seq<byte>, k: nat)
    requires k <= |Escape(r)|
    ensures var d, g := Escape(r)[..k], Escape(r)[k..]; var m := EndMode(Okay, d);
      Legal(Okay, d) && m != Rubbish && Legal(m, g) && EndMode(m, g) == Okay
  {
    var d, g := Escape(r)[..k], Escape(r)[k..];
    EscapeLegal(r);
    assert Escape(r) == d + g;
    hide Escape;
    LegalSplit(Okay, d, g);
    LegalModes(Okay, d);
  }

  /** The rest of the second frame, and the poll behind it. */
  lemma ThenRest(s: State, a: seq<Event>, d: seq<byte>, g: seq<byte>, h: seq<byte>, m: Mode, e: seq<byte>)
    requires Sane(s) && Leads(s, a, Raw([END] + d, 0, m), [e]) && m != Rubbish && Legal(m, g) && EndMode(m, g) == Okay
    requires [END] + d + g == h && |h| + 1 < RX_BUFSIZE
    ensures Leads(s, a + Inputs(g) + Inputs([END]) + [Poll], Raw([], 0, Okay), [e, h])
  {
    hide Stands, Leads, Run, Inputs, Legal, EndMode;
    ThenData(s, a, Raw([END] + d, 0, m), [e], g);
    ThenEnd(s, a + Inputs(g), Raw(h, 0, Okay), [e]);
    ThenPollFrame(s, a + Inputs(g) + Inputs([END]), h, [e]);
    assert [e] + [h] == [e, h];
  }

  /** Polled only behind the second frame, however often: that stays in the buffer between two END bytes, unmarked. */
  lemma PolledLate(s: State, q: Inbox, p: seq<byte>, r: seq<byte>)
    requires Ready(s, q, p, r)
    ensures Sane(s) && Leads(s, Hurried(p, r, |Frame(r)|), Raw([END] + Escape(r) + [END], 0, Okay), [Escape(p)])
  {
    var e, f := Escape(p), Escape(r);
    EscapeLegal(r);
    SecondBegins(s, q, p, r, f);
    LateEvents(p, r);
    var a, late := Inputs(Frame(p)) + Inputs([END] + f), Raw([END] + f + [END], 0, Okay);
    hide Stands, Leads, Run, Inputs, Legal, EndMode, Escape, Frame;
    ThenEnd(s, a, Raw(e + [END, END] + f, |e|, Okay), []);
    assert e + [END, END] + f + [END] == e + [END, END] + (f + [END]);
    StrayPoll(s, a + Inputs([END]), e, f + [END], Okay);
    assert [END] + (f + [END]) == late.bytes;
    ThenPoll(s, a + Inputs([END]) + [Poll], late, [e]);
  }

  lemma LateEvents(p: seq<byte>, r: seq<byte>)
    ensures Hurried(p, r, |Frame(r)|) == Inputs(Frame(p)) + Inputs([END] + Escape(r)) + Inputs([END]) + [Poll] + [Poll]
  {
    InputsConcat([END] + Escape(r), [END]);
    assert Frame(r)[..|Frame(r)|] == Frame(r) && Frame(r)[|Frame(r)|..] == [] && Inputs([]) == [];
  }

  /** More polls change nothing; the next END byte closes the stray frame, and a poll hands it over, END bytes and all. */
  lemma StrayFrame(s: State, q: Inbox, p: seq<byte>, r: seq<byte>)
    requires Ready(s, q, p, r)
    ensures Sane(s) && Leads(s, Hurried(p, r, |Frame(r)|) + [Poll], Raw([END] + Escape(r) + [END], 0, Okay), [Escape(p)])
    ensures Leads(s, Hurried(p, r, |Frame(r)|) + Inputs([END]) + [Poll], Raw([], 0, Okay), [Escape(p), [END] + Escape(r) + [END]])
  {
    var e, h, a := Escape(p), [END] + Escape(r) + [END], Hurried(p, r, |Frame(r)|);
    PolledLate(s, q, p, r);
    hide Stands, Leads, Run, Inputs, Escape, Frame, Hurried;
    ThenPoll(s, a, Raw(h, 0, Okay), [e]);
    ThenEnd(s, a, Raw(h, 0, Okay), [e]);
    ThenPollFrame(s, a + Inputs([END]), h, [e]);
    assert [e] + [h] == [e, h];
  }

  /** A stray END in front decodes to itself. */
  lemma {:induction false} DecodeStray(raw: seq<byte>)
    ensures Decoding([END] + raw) == Decoder([END] + Decoding(raw).out, Decoding(raw).esc)
  {
    if raw == [] {
      assert [END] + raw == [] + [END];
      DecodingStep([], END);
    } else {
      var front, b := raw[..|raw| - 1], raw[|raw| - 1];
      assert [END] + raw == [END] + front + [b];
      DecodeStray(front);
      DecodingStep([END] + front, b);
    }
  }

  /**
   * Sending p and then r to a receiver without data that is polled after j bytes of the second frame, and again at
   * the end: both packets are decoded intact if and only if j is 0, that is, if the poll comes before the leading
   * END of the second frame. Polled inside that frame, r is decoded with an END in front; polled only behind it, r
   * does not come out at all until a further END byte arrives, and then with an END on either side.
   */
  lemma BothDelivered(s: State, q: Inbox, p: seq<byte>, r: seq<byte>, j: nat)
    requires Ready(s, q, p, r) && j <= |Frame(r)|
    ensures Sane(s) && (Run(s, Hurried(p, r, j)).1 == [Escape(p), Escape(r)] <==> j == 0)
    ensures Decode(Escape(p)) == p && Decode(Escape(r)) == r
    ensures 0 < j < |Frame(r)| ==>
      Run(s, Hurried(p, r, j)).1 == [Escape(p), [END] + Escape(r)] && Decode([END] + Escape(r)) == [END] + r
    ensures j == |Frame(r)| ==>
      && Run(s, Hurried(p, r, j)).1 == [Escape(p)]
      && Run(s, Hurried(p, r, j) + Inputs([END]) + [Poll]).1 == [Escape(p), [END] + Escape(r) + [END]]
      && Decode([END] + Escape(r) + [END]) == [END] + r + [END]
  {
    DecodeEscape(p);
    DecodeEscape(r);
    DecodeStray(Escape(r));
    DecodingStep([END] + Escape(r), END);
    hide Stands, Inputs, Escape, Run, Hurried, Decoding;
    if j == 0 {
      PolledBetween(s, q, p, r);
    } else if j < |Frame(r)| {
      PolledInside(s, q, p, r, j);
      assert |[END] + Escape(r)| != |Escape(r)|;
    } else {
      StrayFrame(s, q, p, r);
      PolledLate(s, q, p, r);
    }
  }
}
