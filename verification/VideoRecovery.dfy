/**
 Frames sent over an in-order channel that loses packets: what the receiver counts while the
 rows arrive, exactly when it hands over the image that was sent, and what goes wrong otherwise.
 */
module VideoRecovery {
  import opened VideoPackets
  import opened VideoReceiver

  // ---------------------------------------------------------------- what is sent and what arrives

  function LinePacket(f: nat, image: seq<Row>, width: nat, y: nat): Packet
    requires y < |image|
  {
    Packet(f, y, width, |image|, image[y])
  }

  function XorPacket(f: nat, image: seq<Row>, width: nat): Packet
    requires Rectangular(image, width)
  {
    Packet(f, LINENO_XOR, width, |image|, XorAll(image, width))
  }

  /** The data of an end-of-frame packet (times and sensor values) is of no concern here. */
  function EofPacket(f: nat, image: seq<Row>, width: nat, tail: Row): Packet {
    Packet(f, LINENO_EOF, width, |image|, tail)
  }

  function Lines(f: nat, image: seq<Row>, width: nat): (r: seq<Packet>)
    ensures |r| == |image|
  {
    seq(|image|, y requires 0 <= y < |image| => LinePacket(f, image, width, y))
  }

  /** The channel keeps some packets, in order. */
  function Deliver(ps: seq<Packet>, keep: seq<bool>): seq<Packet>
    requires |ps| == |keep|
  {
    if |ps| == 0 then []
    else
      var n := |ps| - 1;
      Deliver(ps[..n], keep[..n]) + (if keep[n] then [ps[n]] else [])
  }

  // ---------------------------------------------------------------- accounting over a loss pattern

  /** How many rows arrived. */
  function Count(keep: seq<bool>): (n: nat)
    ensures n <= |keep|
  {
    if |keep| == 0 then 0 else Count(keep[..|keep| - 1]) + (if keep[|keep| - 1] then 1 else 0)
  }

  /** The last row that arrived, plus one. */
  function Top(keep: seq<bool>): (n: nat)
    ensures n <= |keep|
    ensures forall y :: n <= y < |keep| ==> !keep[y]
    ensures n > 0 ==> keep[n - 1]
  {
    if |keep| == 0 then 0
    else if keep[|keep| - 1] then |keep|
    else
      var before := keep[..|keep| - 1];
      assert forall y :: 0 <= y < |before| ==> before[y] == keep[y];
      Top(before)
  }

  /** The greatest row below the last arrived one that did not arrive, or -1. */
  function Gap(keep: seq<bool>): (g: int)
    ensures -1 <= g < Top(keep) || g == -1
    ensures g >= 0 ==> !keep[g]
    ensures forall y :: g < y < Top(keep) ==> keep[y]
  {
    if |keep| == 0 then -1
    else
      var before := keep[..|keep| - 1];
      assert forall y :: 0 <= y < |before| ==> before[y] == keep[y];
      if keep[|keep| - 1] && Top(before) < |before| then |before| - 1 else Gap(before)
  }

  lemma CountAll(keep: seq<bool>)
    requires Count(keep) == |keep|
    ensures forall y :: 0 <= y < |keep| ==> keep[y]
  {
    if |keep| > 0 {
      var before := keep[..|keep| - 1];
      assert Count(keep) == Count(before) + (if keep[|keep| - 1] then 1 else 0);
      CountAll(before);
      assert forall y :: 0 <= y < |before| ==> before[y] == keep[y];
    }
  }

  lemma CountWithGap(keep: seq<bool>, g: nat)
    requires g < |keep| && !keep[g]
    ensures Count(keep) < |keep|
    ensures Count(keep) == |keep| - 1 ==> forall y :: 0 <= y < |keep| && y != g ==> keep[y]
  {
    var n := |keep| - 1;
    var before := keep[..n];
    assert forall y :: 0 <= y < |before| ==> before[y] == keep[y];
    if g == n {
      if Count(keep) == n { CountAll(before); }
    } else {
      CountWithGap(before, g);
    }
  }

  /** With one row lost, the recorded gap is the lost row unless that is the last one. */
  lemma OneLost(keep: seq<bool>)
    requires |keep| > 0 && Count(keep) == |keep| - 1
    ensures Gap(keep) >= 0 <==> keep[|keep| - 1]
    ensures Gap(keep) >= 0 ==> forall y :: 0 <= y < |keep| && y != Gap(keep) ==> keep[y]
  {
    if Gap(keep) >= 0 {
      CountWithGap(keep, Gap(keep));
    } else if keep[|keep| - 1] {
      AllKept(keep);
    }
  }

  lemma AllKept(keep: seq<bool>)
    requires forall y :: 0 <= y < |keep| ==> keep[y]
    ensures Count(keep) == |keep|
  {
  }

  // ---------------------------------------------------------------- the rows of one frame

  ghost predicate ProperImage(image: seq<Row>, width: nat) {
    0 < |image| <= 0x400 && Rectangular(image, width)
  }

  /** The buffer holds the rows that arrived in their places, and zeros elsewhere. */
  ghost predicate Holds(rows: seq<Row>, image: seq<Row>, keep: seq<bool>, width: nat)
    requires |rows| == |image| && |keep| <= |image|
  {
    forall y :: 0 <= y < |image| ==> rows[y] == if y < |keep| && keep[y] then image[y] else ZeroRow(width)
  }

  /** Of these rows the first is the only one that did not arrive. */
  predicate OnlyFirstLost(keep: seq<bool>) {
    |keep| >= 2 && !keep[0] && forall y :: 1 <= y < |keep| ==> keep[y]
  }

  /**
   The gaps on record. With the first row carried over after a lost end of frame they are right only if that was row 0;
   otherwise all that matters is what they say when row 0 alone is lost: once row 2 is there, that row 1 is missing.
   */
  ghost predicate Gaps(s: Receiver, keep: seq<bool>, carried: bool) {
    if !carried then s.lineCount + s.missing == Top(keep) && s.lastMissing == Gap(keep)
    else OnlyFirstLost(keep) ==>
           if |keep| == 2 then s.missing == 0 && s.lastMissing == -1 else s.lineCount + s.missing == |keep| && s.lastMissing == 1
  }

  /** The receiver's books in frame f, when the rows in keep have been sent. */
  ghost predicate Books(s: Receiver, f: nat, image: seq<Row>, keep: seq<bool>, carried: bool) {
    && s.Valid() && s.status.Receiving? && ProperImage(image, s.width) && s.height == |image|
    && |keep| <= |image| && f < FRAME_MODULUS
    && (SameFrame(s.frame, f) || s.firstPacket) && (s.firstPacket ==> Count(keep) == 0 && !carried)
    && s.lineCount == Count(keep) && Holds(s.rows, image, keep, s.width)
    && (carried ==> |keep| > 1 && !keep[0]) && Gaps(s, keep, carried)
  }

  /** The same, before the xor packet. */
  ghost predicate Going(s: Receiver, f: nat, image: seq<Row>, keep: seq<bool>, carried: bool) {
    Books(s, f, image, keep, carried) && !s.hasXor
  }

  /** In a frame entered from its start or with row 0. */
  ghost predicate Mid(s: Receiver, f: nat, image: seq<Row>, keep: seq<bool>) {
    Going(s, f, image, keep, false)
  }

  lemma TakeMid(s: Receiver, f: nat, image: seq<Row>, keep: seq<bool>, carried: bool, p: Packet)
    requires Books(s, f, image, keep, carried) && Received(p, s.width) && p.frame == f
    ensures Books(Take(s, p), f, image, keep, carried) && !Take(s, p).firstPacket && Take(s, p).last == p
    ensures Take(s, p).hasXor == s.hasXor && Take(s, p).xorline == s.xorline && Take(s, p).width == s.width
    ensures (p.frame - Take(s, p).frame) % 0x1_0000 == 0
  {
    Congruent(p.frame, Take(s, p).frame);
  }

  lemma CountOne(keep: seq<bool>)
    ensures Count(keep + [true]) == Count(keep) + 1 && Top(keep + [true]) == |keep| + 1
    ensures Gap(keep + [true]) == if Top(keep) < |keep| then |keep| - 1 else Gap(keep)
  {
    assert (keep + [true])[..|keep|] == keep;
  }

  lemma CountNone(keep: seq<bool>)
    ensures Count(keep + [false]) == Count(keep) && Top(keep + [false]) == Top(keep)
    ensures Gap(keep + [false]) == Gap(keep)
  {
    assert (keep + [false])[..|keep|] == keep;
  }

  lemma RowStored(rows: seq<Row>, image: seq<Row>, keep: seq<bool>, width: nat)
    requires |rows| == |image| && |keep| < |image| && Holds(rows, image, keep, width)
    ensures Holds(rows[|keep| := image[|keep|]], image, keep + [true], width)
  {
  }

  /** The gaps on record after one more row. */
  lemma GapsCounted(s: Receiver, image: seq<Row>, keep: seq<bool>, carried: bool)
    requires s.Valid() && s.status.Receiving? && s.height == |image| <= 0x400 && Rectangular(image, s.width) && |keep| < |image|
    requires s.lineCount == Count(keep) && Gaps(s, keep, carried) && (carried ==> |keep| > 1)
    ensures Gaps(OnLine(s, |keep|, image[|keep|]), keep + [true], carried)
  {
    CountOne(keep);
    if carried && OnlyFirstLost(keep + [true]) {
      forall y | 1 <= y < |keep|
        ensures keep[y]
      {
        assert (keep + [true])[y] == keep[y];
      }
      assert (keep + [true])[0] == keep[0];
      CountFirst(keep);
    }
  }

  lemma CountFirst(keep: seq<bool>)
    requires OnlyFirstLost(keep)
    ensures Count(keep) == |keep| - 1
  {
    var before := keep[..|keep| - 1];
    assert forall y :: 0 <= y < |before| ==> before[y] == keep[y];
    if |keep| > 2 {
      CountFirst(before);
    } else {
      assert before[..0] == [];
    }
  }

  lemma LineCounted(s: Receiver, f: nat, image: seq<Row>, keep: seq<bool>, carried: bool)
    requires Going(s, f, image, keep, carried) && |keep| < |image| && !s.firstPacket
    ensures Going(OnLine(s, |keep|, image[|keep|]), f, image, keep + [true], carried)
    ensures !OnLine(s, |keep|, image[|keep|]).firstPacket
  {
    OnLineValid(s, |keep|, image[|keep|]);
    GapsCounted(s, image, keep, carried);
    CountOne(keep);
    RowStored(s.rows, image, keep, s.width);
  }

  lemma LineArrives(s: Receiver, f: nat, image: seq<Row>, keep: seq<bool>, carried: bool)
    requires Going(s, f, image, keep, carried) && |keep| < |image|
    ensures Received(LinePacket(f, image, s.width, |keep|), s.width)
    ensures var (s', r) := Step(s, LinePacket(f, image, s.width, |keep|));
            r == [] && Going(s', f, image, keep + [true], carried) && !s'.firstPacket
  {
    var p := LinePacket(f, image, s.width, |keep|);
    TakeMid(s, f, image, keep, carried, p);
    var t := Take(s, p);
    DispatchLine(t, p);
    StepIncomplete(s, p, OnLine(t, |keep|, image[|keep|]));
    LineCounted(t, f, image, keep, carried);
  }

  predicate AllReceived(ps: seq<Packet>, width: nat) {
    forall p :: p in ps ==> Received(p, width)
  }

  /** Receiving ps from s brings the books to the rows in keep, with nothing reported. */
  ghost predicate Brings(s: Receiver, ps: seq<Packet>, f: nat, image: seq<Row>, keep: seq<bool>, carried: bool)
    requires s.Valid()
  {
    AllReceived(ps, s.width) && Run(s, ps).1 == [] && Going(Run(s, ps).0, f, image, keep, carried)
  }

  lemma BringsLine(s: Receiver, ps: seq<Packet>, f: nat, image: seq<Row>, keep: seq<bool>, carried: bool)
    requires s.Valid() && Brings(s, ps, f, image, keep, carried) && |keep| < |image|
    ensures Brings(s, ps + [LinePacket(f, image, s.width, |keep|)], f, image, keep + [true], carried)
  {
    var t := Run(s, ps).0;
    LineArrives(t, f, image, keep, carried);
    RunSnoc(s, ps, LinePacket(f, image, s.width, |keep|));
  }

  lemma RunSnoc(s: Receiver, ps: seq<Packet>, p: Packet)
    requires s.Valid() && AllReceived(ps, s.width) && Received(p, s.width)
    ensures AllReceived(ps + [p], s.width)
    ensures Run(s, ps + [p]) == (Step(Run(s, ps).0, p).0, Run(s, ps).1 + Step(Run(s, ps).0, p).1)
  {
    RunAppend(s, ps, [p]);
    RunOne(Run(s, ps).0, p);
  }

  lemma RunOne(s: Receiver, p: Packet)
    requires s.Valid() && Received(p, s.width)
    ensures Run(s, [p]) == Step(s, p)
  {
    assert [p][1..] == [];
    assert Step(s, p).1 + [] == Step(s, p).1;
  }

  /** What arrives of rows k to m - 1 of the frame. */
  function Arriving(f: nat, image: seq<Row>, width: nat, keep: seq<bool>, k: nat, m: nat): seq<Packet>
    requires k <= m <= |keep| <= |image|
  {
    if k == m then []
    else Arriving(f, image, width, keep, k, m - 1) + (if keep[m - 1] then [LinePacket(f, image, width, m - 1)] else [])
  }

  lemma BringsNone(s: Receiver, f: nat, image: seq<Row>, keep: seq<bool>, carried: bool)
    requires Going(s, f, image, keep, carried)
    ensures Brings(s, [], f, image, keep, carried)
  {
  }

  lemma PrefixSnoc<T>(a: seq<T>, m: nat)
    requires 0 < m <= |a|
    ensures a[..m] == a[..m - 1] + [a[m - 1]]
  {
  }

  lemma BringsNothing(s: Receiver, ps: seq<Packet>, f: nat, image: seq<Row>, keep: seq<bool>, carried: bool)
    requires s.Valid() && Brings(s, ps, f, image, keep, carried) && |keep| < |image|
    ensures Brings(s, ps, f, image, keep + [false], carried)
  {
    CountNone(keep);
    assert !(keep + [false])[|keep|];
  }

  lemma BringsMore(s: Receiver, ps: seq<Packet>, f: nat, image: seq<Row>, keep: seq<bool>, b: bool, carried: bool, more: seq<Packet>)
    requires s.Valid() && Brings(s, ps, f, image, keep, carried) && |keep| < |image|
    requires more == ps + (if b then [LinePacket(f, image, s.width, |keep|)] else [])
    ensures Brings(s, more, f, image, keep + [b], carried)
  {
    if b {
      BringsLine(s, ps, f, image, keep, carried);
    } else {
      assert more == ps;
      BringsNothing(s, ps, f, image, keep, carried);
    }
  }

  /** Any further rows of the frame, with any losses, keep the books right. */
  lemma {:induction false} RowsArrive(s: Receiver, f: nat, image: seq<Row>, keep: seq<bool>, k: nat, m: nat, carried: bool)
    requires k <= m <= |keep| <= |image| && Going(s, f, image, keep[..k], carried)
    ensures Brings(s, Arriving(f, image, s.width, keep, k, m), f, image, keep[..m], carried)
    decreases m
  {
    if k < m {
      RowsArrive(s, f, image, keep, k, m - 1, carried);
      PrefixSnoc(keep, m);
      BringsMore(s, Arriving(f, image, s.width, keep, k, m - 1), f, image, keep[..m - 1], keep[m - 1], carried,
                 Arriving(f, image, s.width, keep, k, m));
    } else {
      BringsNone(s, f, image, keep[..k], carried);
    }
  }

  // ---------------------------------------------------------------- the end of the frame

  /** A frame has just ended normally and the receiver expects frame f. */
  ghost predicate Fresh(s: Receiver, f: int) {
    && s.Valid() && s.status.Receiving? && !s.firstPacket && SameFrame(s.frame, f)
    && s.lineCount == 0 && s.missing == 0 && s.lastMissing == -1 && !s.hasXor && s.rows == Blank(s.width, s.height)
  }

  lemma FreshIsMid(s: Receiver, f: nat, image: seq<Row>, keep: seq<bool>)
    requires Fresh(s, f) && f < FRAME_MODULUS && ProperImage(image, s.width) && s.height == |image| && |keep| == 0
    ensures Mid(s, f, image, keep)
  {
  }

  lemma StartIsMid(f: nat, image: seq<Row>, width: nat, garbage: Packet, xorGarbage: Row)
    requires f < FRAME_MODULUS && ProperImage(image, width)
    requires |garbage.data| == width == |xorGarbage| && garbage.frame < FRAME_MODULUS
    ensures Mid(Start(width, |image|, garbage, xorGarbage), f, image, [])
  {
  }

  /** All rows have been sent, and the xor packet has arrived if x. */
  ghost predicate Ready(s: Receiver, f: nat, image: seq<Row>, keep: seq<bool>, carried: bool, x: bool) {
    && Books(s, f, image, keep, carried) && |keep| == |image|
    && s.hasXor == x && (x ==> s.xorline == XorAll(image, s.width))
  }

  lemma XorArrives(s: Receiver, f: nat, image: seq<Row>, keep: seq<bool>, carried: bool)
    requires Going(s, f, image, keep, carried) && |keep| == |image|
    ensures Received(XorPacket(f, image, s.width), s.width)
    ensures var (s', r) := Step(s, XorPacket(f, image, s.width));
            r == [] && Ready(s', f, image, keep, carried, true)
  {
    var p := XorPacket(f, image, s.width);
    TakeMid(s, f, image, keep, carried, p);
    StepIncomplete(s, p, Take(s, p).(xorline := p.data, hasXor := true));
  }

  /** What a caller can check: nothing lost, or one row lost, not the last one, and the xor packet there. */
  predicate Recoverable(keep: seq<bool>, x: bool) {
    Count(keep) == |keep| || (Count(keep) == |keep| - 1 && x && keep[|keep| - 1])
  }

  lemma RepairIsExact(rows: seq<Row>, image: seq<Row>, keep: seq<bool>, width: nat)
    requires Rectangular(rows, width) && Rectangular(image, width) && |rows| == |image| == |keep| > 0
    requires Holds(rows, image, keep, width) && Count(keep) == |keep| - 1 && keep[|keep| - 1]
    ensures 0 <= Gap(keep) < |image|
    ensures rows[Gap(keep) := XorOthers(XorAll(image, width), rows, Gap(keep), 0)] == image
  {
    OneLost(keep);
    var g := Gap(keep);
    var x := XorAll(image, width);
    SameOthers(x, rows, image, g, 0);
    XorOthersIs(x, image, g, 0);
    assert image[..0] == [];
    var o := XorOthers(x, image, g, 0);
    XorRowSelf(o);
    XorRowSelf(x);
    XorRowSelf(image[g]);
  }

  lemma CompleteIsExact(rows: seq<Row>, image: seq<Row>, keep: seq<bool>, width: nat)
    requires |rows| == |image| == |keep| && Holds(rows, image, keep, width) && Count(keep) == |keep|
    ensures rows == image
  {
    CountAll(keep);
  }

  // The state of the receiver just after the end-of-frame packet has been taken.
  ghost predicate AtEof(t: Receiver, f: nat, image: seq<Row>, keep: seq<bool>, carried: bool, x: bool) {
    Ready(t, f, image, keep, carried, x) && t.eof && !t.firstPacket && t.last.frame == f
  }

  lemma TakeEof(s: Receiver, f: nat, image: seq<Row>, keep: seq<bool>, carried: bool, x: bool, tail: Row)
    requires Ready(s, f, image, keep, carried, x) && |tail| == s.width
    ensures var p := EofPacket(f, image, s.width, tail);
            && Received(p, s.width)
            && Dispatch(Take(s, p), p) == EndOfFrame(Take(s, p).(eof := true))
            && AtEof(Take(s, p).(eof := true), f, image, keep, carried, x)
            && Take(s, p).(eof := true).width == s.width && SameFrame(Take(s, p).frame, f)
  {
    var p := EofPacket(f, image, s.width, tail);
    TakeMid(s, f, image, keep, carried, p);
  }

  lemma NextIsFresh(t: Receiver, f: nat)
    requires t.Valid() && t.status.Receiving? && t.eof && !t.firstPacket && t.last.frame == f
    ensures Fresh(BeginFrame(t), f + 1)
  {
  }

  /** The report has the greatest gap below an arrived row, and how many rows are missing, for a short frame those at its end too. */
  predicate Recorded(r: Report, keep: seq<bool>) {
    r.lastMissing == Gap(keep) && r.missing == (if r.short then |keep| else Top(keep)) - Count(keep)
  }

  /** Nothing lost, or one row repaired: the handler gets the image, and the next frame is expected. */
  lemma RecoverableFrame(t: Receiver, f: nat, image: seq<Row>, keep: seq<bool>, x: bool)
    requires AtEof(t, f, image, keep, false, x) && Recoverable(keep, x)
    ensures var o := EndOfFrame(t);
            && o.complete && o.state.Valid() && o.state.rows == image && !ShortFrame(o.state)
            && o.state.status.Receiving? && o.state.eof && !o.state.firstPacket
            && o.state.last.frame == f && o.state.frame == t.frame && Recorded(ReportOf(o.state), keep)
  {
    EndOfFrameValid(t);
    if Count(keep) == |keep| {
      CompleteIsExact(t.rows, image, keep, t.width);
    } else {
      RepairIsExact(t.rows, image, keep, t.width);
    }
  }

  /** The last row lost and the xor packet there: the receiver would write before its buffer. */
  lemma LastRowLost(t: Receiver, f: nat, image: seq<Row>, keep: seq<bool>)
    requires AtEof(t, f, image, keep, false, true) && Count(keep) == |keep| - 1 && !keep[|keep| - 1]
    ensures EndOfFrame(t).state.status.OutOfBounds? && !EndOfFrame(t).complete
  {
    OneLost(keep);
  }

  lemma EndShort(t: Receiver)
    requires t.Valid() && t.lineCount < t.height <= 0x400 && !(t.height - t.lineCount == 1 && t.hasXor)
    ensures EndOfFrame(t) == Outcome(t.(last := t.last.(line := LINENO_SHORT), missing := t.height - t.lineCount), true)
  {
  }

  /** More rows lost than can be repaired: reported short, with the exact number of rows never received. */
  lemma ShortFrameReported(t: Receiver, f: nat, image: seq<Row>, keep: seq<bool>, carried: bool, x: bool)
    requires AtEof(t, f, image, keep, carried, x)
    requires Count(keep) < |keep| - 1 || (Count(keep) == |keep| - 1 && !x)
    ensures var o := EndOfFrame(t);
            && o.complete && o.state.Valid() && ShortFrame(o.state) && o.state.missing == |image| - Count(keep)
            && Holds(o.state.rows, image, keep, t.width)
            && o.state.status.Receiving? && o.state.eof && !o.state.firstPacket
            && o.state.last.frame == f && o.state.frame == t.frame && (!carried ==> Recorded(ReportOf(o.state), keep))
  {
    EndShort(t);
    EndOfFrameValid(t);
  }

  // ---------------------------------------------------------------- whole frames

  datatype Sending = Sending(image: seq<Row>, keep: seq<bool>, xorKept: bool, tail: Row)

  ghost predicate ProperSending(g: Sending, width: nat, height: nat) {
    ProperImage(g.image, width) && |g.image| == height == |g.keep| && |g.tail| == width
  }

  /** What arrives of frame f from row k on: surviving rows, the xor packet perhaps, and the end of frame. */
  function FrameArrivals(f: nat, g: Sending, width: nat, k: nat): seq<Packet>
    requires k <= |g.image| == |g.keep| && Rectangular(g.image, width)
  {
    Arriving(f, g.image, width, g.keep, k, |g.keep|)
      + (if g.xorKept then [XorPacket(f, g.image, width)] else [])
      + [EofPacket(f, g.image, width, g.tail)]
  }

  lemma XorSentOrNot(s: Receiver, rows: seq<Packet>, f: nat, image: seq<Row>, keep: seq<bool>, carried: bool, x: bool, ps: seq<Packet>)
    requires s.Valid() && Brings(s, rows, f, image, keep, carried) && |keep| == |image|
    requires ps == rows + (if x then [XorPacket(f, image, s.width)] else [])
    ensures AllReceived(ps, s.width) && Run(s, ps).1 == []
    ensures Ready(Run(s, ps).0, f, image, keep, carried, x)
  {
    var t := Run(s, rows).0;
    if x {
      XorArrives(t, f, image, keep, carried);
      RunSnoc(s, rows, XorPacket(f, image, s.width));
    } else {
      assert ps == rows;
    }
  }

  lemma BeforeEof(s: Receiver, f: nat, g: Sending, k: nat, carried: bool, ps: seq<Packet>)
    requires ProperSending(g, s.width, s.height) && k <= |g.keep| && Going(s, f, g.image, g.keep[..k], carried)
    requires ps == Arriving(f, g.image, s.width, g.keep, k, |g.keep|)
                 + (if g.xorKept then [XorPacket(f, g.image, s.width)] else [])
    ensures AllReceived(ps, s.width) && Run(s, ps).1 == []
    ensures Ready(Run(s, ps).0, f, g.image, g.keep, carried, g.xorKept)
  {
    RowsArrive(s, f, g.image, g.keep, k, |g.keep|, carried);
    assert g.keep[..|g.keep|] == g.keep;
    XorSentOrNot(s, Arriving(f, g.image, s.width, g.keep, k, |g.keep|), f, g.image, g.keep, carried, g.xorKept, ps);
  }

  /** The handler was called once, at the end of the frame, with exactly this image. */
  predicate Clean(reports: seq<Report>, f: nat, image: seq<Row>) {
    |reports| == 1 && SameFrame(reports[0].frame, f) && reports[0].rows == image && !reports[0].short && reports[0].eof
  }

  /** The end of frame after packets that have reported nothing. */
  lemma EofStep(s: Receiver, ps: seq<Packet>, f: nat, g: Sending, carried: bool, p: Packet)
    returns (t: Receiver, e: Receiver)
    requires Rectangular(g.image, s.width) && p == EofPacket(f, g.image, s.width, g.tail)
    requires s.Valid() && AllReceived(ps, s.width) && Run(s, ps).1 == [] && |g.tail| == s.width
    requires Ready(Run(s, ps).0, f, g.image, g.keep, carried, g.xorKept)
    ensures t.Valid() && t.status.Receiving? && t.width == s.width && Received(p, s.width)
    ensures AllReceived(ps + [p], s.width)
    ensures Run(s, ps + [p]) == Step(t, p)
    ensures e.Valid() && OnPacket(t, p) == EndOfFrame(e)
    ensures AtEof(e, f, g.image, g.keep, carried, g.xorKept) && e.width == s.width && SameFrame(e.frame, f)
  {
    t := Run(s, ps).0;
    TakeEof(t, f, g.image, g.keep, carried, g.xorKept, g.tail);
    RunSnoc(s, ps, p);
    assert [] + Step(t, p).1 == Step(t, p).1;
    e := Take(t, p).(eof := true);
  }

  /** Everything up to the end of frame, which is dispatched in state e. */
  lemma Finish(s: Receiver, f: nat, g: Sending, k: nat, carried: bool) returns (t: Receiver, e: Receiver)
    requires ProperSending(g, s.width, s.height) && k <= |g.keep| && Going(s, f, g.image, g.keep[..k], carried)
    ensures AllReceived(FrameArrivals(f, g, s.width, k), s.width)
    ensures t.Valid() && t.status.Receiving? && t.width == s.width && Received(EofPacket(f, g.image, s.width, g.tail), t.width)
    ensures Run(s, FrameArrivals(f, g, s.width, k)) == Step(t, EofPacket(f, g.image, s.width, g.tail))
    ensures AtEof(e, f, g.image, g.keep, carried, g.xorKept) && e.width == s.width && SameFrame(e.frame, f)
    ensures OnPacket(t, EofPacket(f, g.image, s.width, g.tail)) == EndOfFrame(e)
  {
    var ps := Arriving(f, g.image, s.width, g.keep, k, |g.keep|)
              + (if g.xorKept then [XorPacket(f, g.image, s.width)] else []);
    BeforeEof(s, f, g, k, carried, ps);
    t, e := EofStep(s, ps, f, g, carried, EofPacket(f, g.image, s.width, g.tail));
  }

  /** Flagged, with the exact number of rows that never came, the received rows in place and zeros elsewhere. */
  ghost predicate Short(r: Report, g: Sending, width: nat) {
    && r.short && r.missing == |g.image| - Count(g.keep)
    && |r.rows| == |g.image| && |g.keep| == |g.image| && Holds(r.rows, g.image, g.keep, width)
  }

  /** The receiver would overrun its buffer: the last row lost, the xor packet there. */
  predicate Overruns(g: Sending) {
    |g.keep| > 0 && Count(g.keep) == |g.keep| - 1 && g.xorKept && !g.keep[|g.keep| - 1]
  }

  /** One report, made at the end of the frame. */
  predicate EndsOnce(reports: seq<Report>, f: nat) {
    |reports| == 1 && reports[0].eof && SameFrame(reports[0].frame, f)
  }

  /**
   The end-to-end statement for one frame. From any point of the frame at which the books are
   right, in particular from its start, the handler gets exactly the sent image, not flagged
   short, if and only if the loss pattern is recoverable.
   */
  lemma {:induction false} HandedOverIffRecoverable(s: Receiver, f: nat, g: Sending, k: nat)
    requires ProperSending(g, s.width, s.height) && k <= |g.keep| && Mid(s, f, g.image, g.keep[..k])
    ensures AllReceived(FrameArrivals(f, g, s.width, k), s.width)
    ensures var (s', reports) := Run(s, FrameArrivals(f, g, s.width, k));
         && (Clean(reports, f, g.image) <==> Recoverable(g.keep, g.xorKept))
         && (s'.status.OutOfBounds? <==> Overruns(g))
         && (s'.status.OutOfBounds? ==> reports == [])
         && (!s'.status.OutOfBounds? ==> Fresh(s', f + 1) && EndsOnce(reports, f) && Recorded(reports[0], g.keep))
         && (!s'.status.OutOfBounds? && !Recoverable(g.keep, g.xorKept) ==> Short(reports[0], g, s.width))
  {
    var t, e := Finish(s, f, g, k, false);
    var p := EofPacket(f, g.image, s.width, g.tail);
    var o := EndOfFrame(e);
    if Recoverable(g.keep, g.xorKept) {
      RecoverableFrame(e, f, g.image, g.keep, g.xorKept);
      StepComplete(t, p, o.state);
      NextIsFresh(o.state, f);
    } else if Count(g.keep) == |g.keep| - 1 && g.xorKept {
      LastRowLost(e, f, g.image, g.keep);
      StepIncomplete(t, p, o.state);
    } else {
      ShortFrameReported(e, f, g.image, g.keep, false, g.xorKept);
      StepComplete(t, p, o.state);
      NextIsFresh(o.state, f);
    }
  }

  // ---------------------------------------------------------------- sender and channel

  /** A frame of a stream: its number and what happens to its packets. */
  datatype Frame = Frame(number: nat, sending: Sending, eofKept: bool)

  predicate Shaped(g: Sending, width: nat) {
    |g.image| == |g.keep| && Rectangular(g.image, width)
  }

  /** What arrives of a frame before its end. */
  function Body(f: nat, g: Sending, width: nat, k: nat): seq<Packet>
    requires k <= |g.image| == |g.keep| && Rectangular(g.image, width)
  {
    Arriving(f, g.image, width, g.keep, k, |g.keep|) + (if g.xorKept then [XorPacket(f, g.image, width)] else [])
  }

  function Packets(fr: Frame, width: nat): seq<Packet>
    requires Shaped(fr.sending, width)
  {
    Body(fr.number, fr.sending, width, 0)
      + (if fr.eofKept then [EofPacket(fr.number, fr.sending.image, width, fr.sending.tail)] else [])
  }

  /** What the camera puts on the wire for one frame. */
  function Sent(f: nat, g: Sending, width: nat): seq<Packet>
    requires Rectangular(g.image, width)
  {
    Lines(f, g.image, width) + [XorPacket(f, g.image, width)] + [EofPacket(f, g.image, width, g.tail)]
  }

  lemma {:induction false} DeliverRows(f: nat, g: Sending, width: nat, m: nat)
    requires m <= |g.keep| == |g.image|
    ensures Deliver(Lines(f, g.image, width)[..m], g.keep[..m]) == Arriving(f, g.image, width, g.keep, 0, m)
  {
    if m > 0 {
      DeliverRows(f, g, width, m - 1);
      assert Lines(f, g.image, width)[..m][..m - 1] == Lines(f, g.image, width)[..m - 1];
      assert g.keep[..m][..m - 1] == g.keep[..m - 1];
    }
  }

  lemma DeliverSnoc(ps: seq<Packet>, keep: seq<bool>, p: Packet, b: bool)
    requires |ps| == |keep|
    ensures Deliver(ps + [p], keep + [b]) == Deliver(ps, keep) + (if b then [p] else [])
  {
  }

  /** The arrivals of a frame are what an in-order lossy channel makes of the sent packets. */
  lemma ArrivalsAreDelivered(fr: Frame, width: nat)
    requires Shaped(fr.sending, width)
    ensures Deliver(Sent(fr.number, fr.sending, width), fr.sending.keep + [fr.sending.xorKept] + [fr.eofKept]) == Packets(fr, width)
  {
    var f, g := fr.number, fr.sending;
    var n := |g.keep|;
    var lines := Lines(f, g.image, width);
    DeliverRows(f, g, width, n);
    assert lines[..n] == lines && g.keep[..n] == g.keep;
    DeliverSnoc(lines, g.keep, XorPacket(f, g.image, width), g.xorKept);
    DeliverSnoc(lines + [XorPacket(f, g.image, width)], g.keep + [g.xorKept], EofPacket(f, g.image, width, g.tail), fr.eofKept);
  }

  /**
   From sender to receiver: of what the camera sends for a frame the channel keeps some packets, the end
   of frame among them; the handler gets the sent image exactly when the losses are recoverable.
   */
  lemma DeliveredIffRecoverable(s: Receiver, f: nat, g: Sending)
    requires ProperSending(g, s.width, s.height) && Mid(s, f, g.image, [])
    ensures var ps := Deliver(Sent(f, g, s.width), g.keep + [g.xorKept] + [true]);
      AllReceived(ps, s.width) && (Clean(Run(s, ps).1, f, g.image) <==> Recoverable(g.keep, g.xorKept))
  {
    assert g.keep[..0] == [];
    ArrivalsAreDelivered(Frame(f, g, true), s.width);
    HandedOverIffRecoverable(s, f, g, 0);
  }

  // ---------------------------------------------------------------- a lost end of frame

  /** The first row of the next frame reveals that an end of frame was lost. */
  lemma CarriedRow(s: Receiver, f: nat, image: seq<Row>, y: nat)
    requires s.Valid() && s.status.Receiving? && !s.firstPacket && ProperImage(image, s.width) && s.height == |image|
    requires f < FRAME_MODULUS && !SameFrame(f, s.frame) && y < |image|
    ensures var p := LinePacket(f, image, s.width, y);
         && Received(p, s.width)
         && var (s', reports) := Step(s, p);
            && |reports| == 1 && reports[0].frame == s.frame && reports[0].rows == s.rows
            && !reports[0].eof && !reports[0].short
            && s'.rows == Blank(s.width, s.height)[y := image[y]] && s'.lineCount == 1 && s'.missing == 0
            && s'.lastMissing == -1 && !s'.hasXor && !s'.firstPacket && s'.status.Receiving? && SameFrame(s'.frame, f)
  {
    var p := LinePacket(f, image, s.width, y);
    Congruent(f, s.frame);
    var t := Take(s, p).(eof := false);
    StepComplete(s, p, t);
    ResynchronisedBound((f + 1) % FRAME_MODULUS, f);
  }

  /** If that row is row 0 the books of the new frame are right from there on. */
  lemma CarriedRowZero(s: Receiver, f: nat, image: seq<Row>)
    requires s.Valid() && s.status.Receiving? && !s.firstPacket && ProperImage(image, s.width) && s.height == |image|
    requires f < FRAME_MODULUS && !SameFrame(f, s.frame)
    ensures Received(LinePacket(f, image, s.width, 0), s.width)
    ensures Mid(Step(s, LinePacket(f, image, s.width, 0)).0, f, image, [true])
  {
    CarriedRow(s, f, image, 0);
    assert [true][..0] == [];
  }

  lemma XorAllWithoutFirst(image: seq<Row>, width: nat)
    requires |image| > 0 && Rectangular(image, width)
    ensures XorAll(image, width) == XorRow(XorAll(image[0 := ZeroRow(width)], width), image[0])
  {
    var n := |image| - 1;
    var z := ZeroRow(width);
    XorRowSelf(image[0]);
    if n == 0 {
      assert image[..0] == [] && image[0 := z][..0] == [];
      XorRowSelf(z);
    } else {
      XorAllWithoutFirst(image[..n], width);
      assert image[0 := z][..n] == image[..n][0 := z];
      var x := XorAll(image[..n][0 := z], width);
      XorRowAssoc(x, image[0], image[n]);
      XorRowComm(image[0], image[n]);
      XorRowAssoc(x, image[n], image[0]);
    }
  }

  /** What the repair makes of row 1 when row 0 is the one that is missing. */
  lemma WrongRepair(rows: seq<Row>, image: seq<Row>, width: nat)
    requires |image| >= 2 && Rectangular(image, width) && rows == image[0 := ZeroRow(width)]
    ensures XorOthers(XorAll(image, width), rows, 1, 0) == XorRow(image[0], image[1])
  {
    var x, x0 := XorAll(image, width), XorAll(rows, width);
    XorAllWithoutFirst(image, width);
    XorOthersIs(x, rows, 1, 0);
    assert rows[..0] == [];
    var o := XorOthers(x, rows, 1, 0);
    XorRowSelf(o);
    XorRowComm(x0, image[0]);
    XorRowCancel(image[0], x0);
  }

  /** A carried row other than row 0 is counted as the first line of the frame. */
  lemma CarriedIsGoing(s: Receiver, f: nat, image: seq<Row>, keep: seq<bool>, y: nat)
    requires s.Valid() && s.status.Receiving? && !s.firstPacket && ProperImage(image, s.width) && s.height == |image|
    requires f < FRAME_MODULUS && !SameFrame(f, s.frame) && 0 < y < |image| && FirstArrives(keep, y) && |keep| == y + 1
    ensures Received(LinePacket(f, image, s.width, y), s.width)
    ensures Going(Step(s, LinePacket(f, image, s.width, y)).0, f, image, keep, true)
  {
    CarriedRow(s, f, image, y);
    NoneBefore(keep[..y]);
  }

  /** Row y is the first that arrives. */
  predicate FirstArrives(keep: seq<bool>, y: nat) {
    y < |keep| && keep[y] && forall z :: 0 <= z < y ==> !keep[z]
  }

  lemma NoneBefore(keep: seq<bool>)
    requires forall z :: 0 <= z < |keep| ==> !keep[z]
    ensures Count(keep) == 0
  {
  }

  /** With a row before y lost, one lost row in all means row 0. */
  lemma OneLostIsFirst(keep: seq<bool>)
    requires |keep| > 1 && !keep[0] && Count(keep) == |keep| - 1
    ensures OnlyFirstLost(keep)
  {
    CountWithGap(keep, 0);
  }

  /** What the handler gets when row 0 alone is lost and row 1 is taken for the lost one. */
  function Garbled(image: seq<Row>, width: nat): seq<Row>
    requires |image| >= 2 && Rectangular(image, width)
  {
    image[0 := ZeroRow(width)][1 := XorRow(image[0], image[1])]
  }

  lemma GarbledIsSent(image: seq<Row>, width: nat)
    requires |image| >= 2 && Rectangular(image, width)
    ensures Garbled(image, width) == image <==> image[0] == ZeroRow(width)
  {
    XorRowSelf(image[1]);
    assert Garbled(image, width)[0] == ZeroRow(width);
  }

  /** Row 0 alone is lost and the xor packet is there: the wrong row is repaired, or the one before the first. */
  lemma WronglyRepaired(t: Receiver, f: nat, image: seq<Row>, keep: seq<bool>)
    requires AtEof(t, f, image, keep, true, true) && Count(keep) == |keep| - 1
    ensures var o := EndOfFrame(t);
      if |image| == 2 then o.state.status.OutOfBounds? && !o.complete
      else && o.complete && o.state.Valid() && o.state.rows == Garbled(image, t.width) && !ShortFrame(o.state)
           && o.state.status.Receiving? && o.state.eof && !o.state.firstPacket
           && o.state.last.frame == f && o.state.frame == t.frame
  {
    OneLostIsFirst(keep);
    EndOfFrameValid(t);
    if |image| > 2 {
      assert t.rows == image[0 := ZeroRow(t.width)];
      WrongRepair(t.rows, image, t.width);
    }
  }

  /** With row 0 lost, one lost row and the xor packet are all that a repair needs. */
  lemma RepairsWithoutFirst(keep: seq<bool>, x: bool)
    requires |keep| > 1 && !keep[0]
    ensures Recoverable(keep, x) <==> Count(keep) == |keep| - 1 && x
  {
    CountWithGap(keep, 0);
  }

  /** A frame entered with a row other than row 0, up to its end. */
  lemma CarriedEnds(s: Receiver, f: nat, g: Sending, k: nat)
    requires ProperSending(g, s.width, s.height) && k <= |g.keep| && Going(s, f, g.image, g.keep[..k], true)
    ensures AllReceived(FrameArrivals(f, g, s.width, k), s.width)
    ensures var (s', reports) := Run(s, FrameArrivals(f, g, s.width, k));
      var repairs := Recoverable(g.keep, g.xorKept);
      && (s'.status.OutOfBounds? <==> repairs && |g.image| == 2)
      && (s'.status.OutOfBounds? ==> reports == [])
      && (!s'.status.OutOfBounds? ==> Fresh(s', f + 1) && EndsOnce(reports, f))
      && (repairs && |g.image| > 2 ==> !reports[0].short && reports[0].rows == Garbled(g.image, s.width))
      && (!repairs ==> Short(reports[0], g, s.width))
  {
    var t, e := Finish(s, f, g, k, true);
    var p := EofPacket(f, g.image, s.width, g.tail);
    var o := EndOfFrame(e);
    RepairsWithoutFirst(g.keep, g.xorKept);
    if Recoverable(g.keep, g.xorKept) {
      WronglyRepaired(e, f, g.image, g.keep);
      if |g.image| == 2 {
        StepIncomplete(t, p, o.state);
      } else {
        StepComplete(t, p, o.state);
        NextIsFresh(o.state, f);
      }
    } else {
      CountWithGap(g.keep, 0);
      ShortFrameReported(e, f, g.image, g.keep, true, g.xorKept);
      StepComplete(t, p, o.state);
      NextIsFresh(o.state, f);
    }
  }

  /** What a caller can check of a frame whose first row that arrives reveals a lost end of frame. */
  predicate RecoverableCarried(g: Sending, width: nat) {
    Recoverable(g.keep, g.xorKept)
    && |g.keep| > 0 && (g.keep[0] || (|g.image| >= 3 && g.image[0] == ZeroRow(width)))
  }

  /** The repair addresses a row before the buffer. */
  predicate OverrunsCarried(g: Sending) {
    |g.keep| > 0 && if g.keep[0] then Overruns(g) else |g.keep| == 2 && Recoverable(g.keep, g.xorKept)
  }

  /** What becomes of a frame whose first row that arrives reveals a lost end of frame. */
  ghost predicate CarriedVerdict(s: Receiver, reports: seq<Report>, f: nat, g: Sending, width: nat)
    requires |g.keep| == |g.image| > 0 && Rectangular(g.image, width)
  {
    && (Clean(reports, f, g.image) <==> RecoverableCarried(g, width))
    && (s.status.OutOfBounds? <==> OverrunsCarried(g))
    && (s.status.OutOfBounds? ==> reports == [])
    && (!s.status.OutOfBounds? ==> Fresh(s, f + 1) && EndsOnce(reports, f))
    && (!s.status.OutOfBounds? && !Recoverable(g.keep, g.xorKept) ==> Short(reports[0], g, width))
    && (!g.keep[0] && !s.status.OutOfBounds? && Recoverable(g.keep, g.xorKept) ==>
         |g.image| >= 3 && !reports[0].short && reports[0].rows == Garbled(g.image, width))
  }

  /** The verdict for a row y > 0, at the end of the frame. */
  lemma {:induction false} CarriedLater(s: Receiver, f: nat, g: Sending, k: nat)
    requires ProperSending(g, s.width, s.height) && k <= |g.keep| && Going(s, f, g.image, g.keep[..k], true)
    ensures AllReceived(FrameArrivals(f, g, s.width, k), s.width)
    ensures var (s', reports) := Run(s, FrameArrivals(f, g, s.width, k)); CarriedVerdict(s', reports, f, g, s.width)
  {
    CarriedEnds(s, f, g, k);
    GarbledIsSent(g.image, s.width);
    RepairsWithoutFirst(g.keep, g.xorKept);
  }

  /**
   The end-to-end statement for a frame whose first arriving row y reveals that the end of the frame before was lost:
   the row is carried over, and counted as one line wherever it stands. The handler gets the sent image exactly when the
   losses are recoverable and row 0 is there, or blank in a frame of three rows or more; if row 0 alone is lost, and not
   blank, a garbled image is handed over as complete.
   */
  lemma {:induction false} HandedOverAfterCarriedRow(s: Receiver, f: nat, g: Sending, y: nat)
    requires s.Valid() && s.status.Receiving? && !s.firstPacket && ProperSending(g, s.width, s.height)
    requires f < FRAME_MODULUS && !SameFrame(f, s.frame) && FirstArrives(g.keep, y)
    ensures Received(LinePacket(f, g.image, s.width, y), s.width)
    ensures var t := Step(s, LinePacket(f, g.image, s.width, y)).0;
         && AllReceived(FrameArrivals(f, g, s.width, y + 1), s.width)
         && var (s', reports) := Run(t, FrameArrivals(f, g, s.width, y + 1)); CarriedVerdict(s', reports, f, g, s.width)
  {
    var t := Step(s, LinePacket(f, g.image, s.width, y)).0;
    if y == 0 {
      CarriedRowZero(s, f, g.image);
      assert g.keep[..1] == [true];
      CarriedAtZero(t, f, g);
    } else {
      CarriedIsGoing(s, f, g.image, g.keep[..y + 1], y);
      CarriedLater(t, f, g, y + 1);
    }
  }

  /** The verdict for row 0 is that of any frame. */
  lemma {:induction false} CarriedAtZero(s: Receiver, f: nat, g: Sending)
    requires ProperSending(g, s.width, s.height) && Mid(s, f, g.image, g.keep[..1]) && g.keep[0]
    ensures AllReceived(FrameArrivals(f, g, s.width, 1), s.width)
    ensures var (s', reports) := Run(s, FrameArrivals(f, g, s.width, 1)); CarriedVerdict(s', reports, f, g, s.width)
  {
    HandedOverIffRecoverable(s, f, g, 1);
  }
}
