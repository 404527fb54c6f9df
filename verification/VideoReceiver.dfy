/**
 The host side of the video protocol: wge100VidReceiveSocket as a state machine over packets,
 and the loop itself over an in-place frame buffer, which computes that state machine.
 */
module VideoReceiver {
  import opened VideoPackets
  import Words

  /** Why the receiver no longer receives, if it does not. */
  datatype Status =
    | Receiving
    | Stopped(code: int)
    | OutOfBounds          // a repair was attempted with no missing line recorded

  /** What the frame handler is given. */
  datatype Report = Report(frame: nat, rows: seq<Row>, lastMissing: int, missing: nat, short: bool, eof: bool)

  datatype Receiver = Receiver(
    width: nat,
    height: nat,
    firstPacket: bool,
    eof: bool,            // eof != NULL
    last: Packet,         // *vPkt
    frame: nat,           // frameInfo.frame_number
    rows: seq<Row>,       // frame_buf
    lineCount: nat,
    lastMissing: int,     // (size_t)-1 is written -1
    missing: nat,
    hasXor: bool,
    xorline: Row,
    status: Status)
  {
    ghost predicate Valid() {
      && |rows| == height && Rectangular(rows, width) && |xorline| == width && |last.data| == width
      && -1 <= lastMissing < height && last.frame < FRAME_MODULUS && frame < FRAME_MODULUS
    }

    function Row(y: nat, data: Row): Receiver
      requires y < |rows|
    {
      this.(rows := rows[y := data], lineCount := lineCount + 1)
    }
  }

  /** A packet as recvfrom leaves it: 32-bit frame number, 16-bit line number, width data bytes. */
  predicate Received(p: Packet, width: nat) {
    |p.data| == width && p.frame < FRAME_MODULUS && p.line < 0x1_0000
  }

  function Blank(width: nat, height: nat): (r: seq<Row>)
    ensures |r| == height && Rectangular(r, width)
  {
    seq(height, _ => ZeroRow(width))
  }

  /** The state before the first frame; the packet buffer and the xor line are uninitialised memory. */
  function Start(width: nat, height: nat, garbage: Packet, xorGarbage: Row): Receiver {
    Receiver(width, height, true, false, garbage, (garbage.frame + 1) % FRAME_MODULUS, Blank(width, height),
             0, -1, 0, false, xorGarbage, Receiving)
  }

  /** Keep the upper half of the expected number, take over the packet's number by or'ing it in. */
  function Resynchronised(expected: nat, packet: nat): nat {
    Words.Or(expected / 0x1_0000, packet / 0x1_0000) * 0x1_0000 + packet % 0x1_0000
  }

  /** The head of the outer loop: a fresh frame, with the carried line if the end of frame was missing. */
  function BeginFrame(s: Receiver): Receiver
    requires s.Valid()
  {
    var s1 := s.(lineCount := 0, lastMissing := -1, missing := 0, hasXor := false,
                 frame := (s.last.frame + 1) % FRAME_MODULUS, rows := Blank(s.width, s.height));
    if !s.eof && !s.firstPacket then
      var s2 := s1.(frame := Resynchronised(s1.frame, s.last.frame));
      if s.last.line < s.height then s2.Row(s.last.line, s.last.data) else s2
    else
      s1
  }

  /** The outcome of one packet: whether the frame is complete. */
  datatype Outcome = Outcome(state: Receiver, complete: bool)

  /** The body of the inner loop for one packet. */
  function OnPacket(s: Receiver, p: Packet): Outcome
    requires s.Valid() && s.status.Receiving? && Received(p, s.width)
  {
    if p.horiz != s.width || p.vert != s.height then
      Outcome(s.(last := p, status := Stopped(1)), false)
    else
      Dispatch(Take(s, p), p)
  }

  /** The packet is in the buffer; the first one of all sets the expected frame number. */
  function Take(s: Receiver, p: Packet): Receiver {
    if s.firstPacket then s.(last := p, firstPacket := false, frame := p.frame) else s.(last := p)
  }

  function Dispatch(s: Receiver, p: Packet): Outcome
    requires s.Valid() && Received(p, s.width)
  {
    if p.line == LINENO_ERR || p.line == LINENO_OVF then
      Outcome(s.(status := Stopped(p.line)), false)
    else if p.line == LINENO_ABORT then
      Outcome(s.(status := Stopped(0)), false)
    else if (p.frame - s.frame) % 0x1_0000 != 0 then
      Outcome(s.(eof := false), true)
    else if p.line == LINENO_XOR then
      Outcome(s.(xorline := p.data, hasXor := true), false)
    else if p.line == LINENO_EOF then
      EndOfFrame(s.(eof := true))
    else
      Outcome(OnLine(s, p.line % 0x400, p.data), false)
  }

  function OnLine(s: Receiver, line: nat, data: Row): Receiver
    requires s.Valid() && |data| == s.width
  {
    var s1 := s.(last := s.last.(line := line));
    if s.lineCount > s.height || line >= s.height then
      s1.(status := Stopped(0))
    else if s.lineCount + s.missing < line then
      s1.(lastMissing := line - 1, missing := line - s.lineCount).Row(line, data)
    else
      s1.Row(line, data)
  }

  function EndOfFrame(s: Receiver): Outcome
    requires s.Valid()
  {
    if s.lineCount == s.height then Outcome(s, true)
    else if s.height - s.lineCount == 1 && s.hasXor then
      if s.lastMissing < 0 then
        Outcome(s.(status := OutOfBounds), false)
      else
        Outcome(s.(rows := s.rows[s.lastMissing := XorOthers(s.xorline, s.rows, s.lastMissing, 0)]), true)
    else
      Outcome(s.(last := s.last.(line := LINENO_SHORT), missing := (s.height - s.lineCount) % 0x1_0000_0000_0000_0000), true)
  }

  predicate ShortFrame(s: Receiver) {
    s.eof && s.lineCount != s.height && !(s.height - s.lineCount == 1 && s.hasXor)
  }

  /** What the handler is told about a complete frame. */
  function ReportOf(s: Receiver): Report {
    Report(s.frame, s.rows, s.lastMissing, s.missing, ShortFrame(s), s.eof)
  }

  /** One packet: the reports made (none or one) and the state in which the next packet is awaited. */
  function Step(s: Receiver, p: Packet): (r: (Receiver, seq<Report>))
    requires s.Valid() && Received(p, s.width)
    ensures r.0.Valid() && r.0.width == s.width && r.0.height == s.height
  {
    if !s.status.Receiving? then (s, [])
    else
      var o := OnPacket(s, p);
      OnPacketValid(s, p);
      if o.complete then
        BeginFrameValid(o.state);
        (BeginFrame(o.state), [ReportOf(o.state)])
      else
        (o.state, [])
  }

  function Run(s: Receiver, ps: seq<Packet>): (r: (Receiver, seq<Report>))
    requires s.Valid() && forall p :: p in ps ==> Received(p, s.width)
    ensures r.0.Valid() && r.0.width == s.width && r.0.height == s.height
    decreases |ps|
  {
    if |ps| == 0 then (s, [])
    else
      var (s1, r1) := Step(s, ps[0]);
      var (s2, r2) := Run(s1, ps[1..]);
      (s2, r1 + r2)
  }

  ghost predicate SameSize(s: Receiver, t: Receiver) {
    t.width == s.width && t.height == s.height
  }

  lemma OnLineValid(s: Receiver, line: nat, data: Row)
    requires s.Valid() && |data| == s.width
    ensures OnLine(s, line, data).Valid() && SameSize(s, OnLine(s, line, data))
  {
  }

  lemma EndOfFrameValid(s: Receiver)
    requires s.Valid()
    ensures EndOfFrame(s).state.Valid() && SameSize(s, EndOfFrame(s).state)
  {
  }

  lemma DispatchValid(s: Receiver, p: Packet)
    requires s.Valid() && Received(p, s.width)
    ensures Dispatch(s, p).state.Valid() && SameSize(s, Dispatch(s, p).state)
  {
    OnLineValid(s, p.line % 0x400, p.data);
    EndOfFrameValid(s.(eof := true));
  }

  lemma OnPacketValid(s: Receiver, p: Packet)
    requires s.Valid() && s.status.Receiving? && Received(p, s.width)
    ensures OnPacket(s, p).state.Valid() && SameSize(s, OnPacket(s, p).state)
  {
    DispatchValid(Take(s, p), p);
  }

  lemma ResynchronisedBound(expected: nat, packet: nat)
    requires expected < FRAME_MODULUS && packet < FRAME_MODULUS
    ensures Resynchronised(expected, packet) < FRAME_MODULUS
    ensures SameFrame(Resynchronised(expected, packet), packet)
  {
    Words.WordPow2();
    Words.OrXorBound(expected / 0x1_0000, packet / 0x1_0000, 16);
  }

  /** The number is the packet's, except for the last number of each 65536, where the next upper half is or'ed in. */
  predicate ExactNumber(n: nat) {
    n % 0x1_0000 != 0xFFFF || n / 0x1_0000 == 0xFFFF
  }

  lemma ResynchronisedIff(n: nat)
    requires n < FRAME_MODULUS
    ensures Resynchronised((n + 1) % FRAME_MODULUS, n) == n <==> ExactNumber(n)
  {
    var u := n / 0x1_0000;
    if n % 0x1_0000 != 0xFFFF {
      assert ((n + 1) % FRAME_MODULUS) / 0x1_0000 == u;
      Words.OrSelf(u);
    } else if u == 0xFFFF {
      assert n + 1 == FRAME_MODULUS;
      assert Words.Or(0, u) == u;
    } else {
      assert (n + 1) / 0x1_0000 == u + 1;
      Words.OrNext(u);
    }
  }

  lemma BeginFrameValid(s: Receiver)
    requires s.Valid()
    ensures BeginFrame(s).Valid() && BeginFrame(s).width == s.width && BeginFrame(s).height == s.height
  {
    ResynchronisedBound((s.last.frame + 1) % FRAME_MODULUS, s.last.frame);
  }

  lemma DispatchLine(s: Receiver, p: Packet)
    requires s.Valid() && Received(p, s.width) && p.line < 0x400 && (p.frame - s.frame) % 0x1_0000 == 0
    ensures Dispatch(s, p) == Outcome(OnLine(s, p.line, p.data), false)
  {
  }

  lemma StepIncomplete(s: Receiver, p: Packet, t: Receiver)
    requires s.Valid() && s.status.Receiving? && Received(p, s.width) && p.horiz == s.width && p.vert == s.height
    requires Dispatch(Take(s, p), p) == Outcome(t, false)
    ensures Step(s, p) == (t, [])
  {
  }

  lemma StepComplete(s: Receiver, p: Packet, t: Receiver)
    requires s.Valid() && s.status.Receiving? && Received(p, s.width) && p.horiz == s.width && p.vert == s.height
    requires Dispatch(Take(s, p), p) == Outcome(t, true)
    ensures t.Valid() && Step(s, p) == (BeginFrame(t), [ReportOf(t)])
  {
    DispatchValid(Take(s, p), p);
  }

  lemma {:induction false} StoppedIsSilent(s: Receiver, ps: seq<Packet>)
    requires s.Valid() && !s.status.Receiving? && forall p :: p in ps ==> Received(p, s.width)
    ensures Run(s, ps) == (s, [])
    decreases |ps|
  {
    if |ps| > 0 {
      StoppedIsSilent(s, ps[1..]);
      assert Run(s, ps).1 == Step(s, ps[0]).1 + Run(s, ps[1..]).1;
    }
  }

  lemma {:induction false} RunAppend(s: Receiver, ps: seq<Packet>, qs: seq<Packet>)
    requires s.Valid() && forall p :: p in ps + qs ==> Received(p, s.width)
    ensures forall p :: p in ps || p in qs ==> p in ps + qs
    ensures var (s1, r1) := Run(s, ps); Run(s, ps + qs) == (Run(s1, qs).0, r1 + Run(s1, qs).1)
    decreases |ps|
  {
    forall p | p in ps || p in qs ensures p in ps + qs {}
    if |ps| == 0 {
      assert ps + qs == qs && [] + Run(s, qs).1 == Run(s, qs).1;
    } else {
      TailOfAppend(ps, qs);
      var (s1, r1) := Step(s, ps[0]);
      RunAppend(s1, ps[1..], qs);
      AppendAssoc(r1, Run(s1, ps[1..]).1, Run(Run(s1, ps[1..]).0, qs).1);
    }
  }

  // ---------------------------------------------------------------- which packets end the reception

  /** A packet of the size that is expected. */
  predicate RightSize(s: Receiver, p: Packet) {
    p.horiz == s.width && p.vert == s.height
  }

  /** An error, an overflow or an abort. */
  predicate Failure(p: Packet) {
    p.line == 0xFFFE || p.line == 0xFFFD || p.line == 0xFFFC
  }

  /** A packet of the frame that is being received; the first packet of all says which frame that is. */
  predicate OfFrame(s: Receiver, p: Packet) {
    s.firstPacket || p.frame % 0x1_0000 == s.frame % 0x1_0000
  }

  /** A row of that frame. */
  predicate IsRow(s: Receiver, p: Packet) {
    OfFrame(s, p) && p.line != 0xFFFF && p.line != 0xFFFA && !Failure(p)
  }

  /** The packet ends the reception: size, failure, a row that does not exist, or one after too many. */
  predicate Ends(s: Receiver, p: Packet) {
    !RightSize(s, p) || Failure(p) || (IsRow(s, p) && (p.line % 1024 >= s.height || s.lineCount > s.height))
  }

  /** What wge100VidReceive then returns. */
  function ReturnCode(s: Receiver, p: Packet): int {
    if !RightSize(s, p) then 1 else if p.line == 0xFFFE || p.line == 0xFFFD then p.line else 0
  }

  /** The packet is an end of frame for which a repair is tried without a gap on record. */
  predicate RepairFails(s: Receiver, p: Packet) {
    RightSize(s, p) && OfFrame(s, p) && p.line == 0xFFFF && s.height == s.lineCount + 1 && s.hasXor && s.lastMissing < 0
  }

  /** The packet completes a frame: it belongs to another one, or it is the end of frame. */
  predicate Completes(s: Receiver, p: Packet) {
    RightSize(s, p) && !Failure(p) && (!OfFrame(s, p) || (p.line == 0xFFFF && !RepairFails(s, p)))
  }

  /** In every state, and for every packet: whether it ends the reception and with which code, and whether it makes a report. */
  lemma StepEnds(s: Receiver, p: Packet)
    requires s.Valid() && s.status.Receiving? && Received(p, s.width)
    ensures var (t, reports) := Step(s, p);
      && (t.status.Stopped? <==> Ends(s, p)) && (Ends(s, p) ==> t.status.code == ReturnCode(s, p))
      && (t.status.OutOfBounds? <==> RepairFails(s, p))
      && |reports| == if Completes(s, p) then 1 else 0
  {
    OnPacketValid(s, p);
    Congruent(p.frame, Take(s, p).frame);
    if RightSize(s, p) && !Failure(p) && OfFrame(s, p) {
      DispatchOfFrame(Take(s, p), p);
    }
  }

  lemma DispatchOfFrame(s: Receiver, p: Packet)
    requires s.Valid() && Received(p, s.width) && !Failure(p) && p.frame % 0x1_0000 == s.frame % 0x1_0000
    ensures Dispatch(s, p) == if p.line == 0xFFFF then EndOfFrame(s.(eof := true))
                              else if p.line == 0xFFFA then Outcome(s.(xorline := p.data, hasXor := true), false)
                              else Outcome(OnLine(s, p.line % 1024, p.data), false)
  {
    Congruent(p.frame, s.frame);
  }

  lemma EndsAtOnce(s: Receiver, ps: seq<Packet>)
    requires s.Valid() && s.status.Receiving? && |ps| > 0 && forall p :: p in ps ==> Received(p, s.width)
    requires Ends(s, ps[0])
    ensures Run(s, ps).1 == [] && Run(s, ps).0.status == Stopped(ReturnCode(s, ps[0]))
  {
    StepEnds(s, ps[0]);
    StoppedIsSilent(Step(s, ps[0]).0, ps[1..]);
  }

  /** From such a packet on there are no more reports, not for that packet and not for any later one. */
  lemma NothingAfter(s: Receiver, ps: seq<Packet>, qs: seq<Packet>)
    requires s.Valid() && |qs| > 0 && forall p :: p in ps + qs ==> Received(p, s.width)
    requires Run(s, ps).0.status.Receiving? && Ends(Run(s, ps).0, qs[0])
    ensures Run(s, ps + qs).1 == Run(s, ps).1
    ensures Run(s, ps + qs).0.status == Stopped(ReturnCode(Run(s, ps).0, qs[0]))
  {
    var t, made := Run(s, ps).0, Run(s, ps).1;
    EndsAtOnce(t, qs);
    RunAppend(s, ps, qs);
    assert made + [] == made;
  }

  /** And a reception that has ended was ended by such a packet. */
  lemma {:induction false} EndedBy(s: Receiver, ps: seq<Packet>) returns (k: nat)
    requires s.Valid() && s.status.Receiving? && forall p :: p in ps ==> Received(p, s.width)
    requires Run(s, ps).0.status.Stopped?
    ensures k < |ps| && Run(s, ps[..k]).0.status.Receiving? && Ends(Run(s, ps[..k]).0, ps[k])
    decreases |ps|
  {
    StepEnds(s, ps[0]);
    var t := Step(s, ps[0]).0;
    if t.status.Receiving? {
      var j := EndedBy(t, ps[1..]);
      k := j + 1;
      assert ps[..k] == [ps[0]] + ps[1..][..j] && ps[..k][1..] == ps[1..][..j];
    } else {
      StoppedIsSilent(t, ps[1..]);
      k := 0;
      assert ps[..0] == [];
    }
  }

  lemma TailOfAppend<T>(a: seq<T>, b: seq<T>)
    requires |a| > 0
    ensures (a + b)[0] == a[0] && (a + b)[1..] == a[1..] + b
  {
  }

  lemma AppendAssoc<T>(a: seq<T>, b: seq<T>, c: seq<T>)
    ensures a + (b + c) == (a + b) + c
  {
  }
}
