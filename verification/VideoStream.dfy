/**
 Streams of frames over any channel that keeps some of the packets, in order, lost ends of frame included: which reports
 are made, and what is in them.
 */
module VideoStream {
  import opened VideoPackets
  import opened VideoReceiver
  import opened VideoRecovery

  ghost predicate ProperFrame(fr: Frame, width: nat, height: nat) {
    Shaped(fr.sending, width) && fr.number < FRAME_MODULUS && ProperSending(fr.sending, width, height)
  }

  /** The receiver is in frame fr and has what came of its rows, but not its end. */
  ghost predicate Open(s: Receiver, fr: Frame) {
    && s.Valid() && s.status.Receiving? && !s.firstPacket && SameFrame(s.frame, fr.number)
    && ProperFrame(fr, s.width, s.height) && Holds(s.rows, fr.sending.image, fr.sending.keep, s.width)
  }

  /** A report that is due: a frame that ends, entered with its first packet or with a row carried over, or one that is cut off. */
  datatype Due = Ended(fr: Frame, carried: bool) | Cut(fr: Frame)

  /** Some packet of the frame other than its end arrives. */
  predicate SomeBody(g: Sending) {
    g.xorKept || exists y :: 0 <= y < |g.keep| && g.keep[y]
  }

  datatype Entry = Expected | Unfinished(fr: Frame)

  /** The repair at the end of the frame would address a row before the buffer. */
  predicate Stops(entry: Entry, fr: Frame) {
    fr.eofKept && if entry.Expected? then Overruns(fr.sending) else OverrunsCarried(fr.sending)
  }

  /**
   The reports that are due while the packets of one frame arrive. An end of frame that is itself the first packet after
   a lost one is used up in revealing that.
   */
  ghost function DuesOf(entry: Entry, fr: Frame): seq<Due> {
    if entry.Expected? then if fr.eofKept && !Stops(entry, fr) then [Ended(fr, false)] else []
    else if !SomeBody(fr.sending) && !fr.eofKept then []
    else [Cut(entry.fr)] + if SomeBody(fr.sending) && fr.eofKept && !Stops(entry, fr) then [Ended(fr, true)] else []
  }

  /** The reports that are due for the frames of a stream. */
  ghost function Dues(entry: Entry, fs: seq<Frame>): seq<Due>
    decreases |fs|
  {
    if |fs| == 0 then []
    else DuesOf(entry, fs[0]) + if Stops(entry, fs[0]) then [] else Dues(After(entry, fs[0]), fs[1..])
  }

  /** Frames of the right size, with consecutive numbers up to the 16 bits that are compared. */
  ghost predicate Consecutive(fs: seq<Frame>, width: nat, height: nat) {
    && (forall i :: 0 <= i < |fs| ==> ProperFrame(fs[i], width, height))
    && (forall i :: 0 < i < |fs| ==> SameFrame(fs[i - 1].number + 1, fs[i].number))
  }

  /** Never are so many frames lost whole, after a lost end of frame, that the numbers come round again. */
  ghost predicate ToldApart(entry: Entry, fs: seq<Frame>)
    decreases |fs|
  {
    |fs| == 0
    || ((entry.Unfinished? ==> !SameFrame(fs[0].number, entry.fr.number)) && ToldApart(After(entry, fs[0]), fs[1..]))
  }

  ghost predicate ProperStream(entry: Entry, fs: seq<Frame>, width: nat, height: nat) {
    Consecutive(fs, width, height) && ToldApart(entry, fs)
  }

  lemma ProperRest(entry: Entry, fs: seq<Frame>, width: nat, height: nat)
    requires ProperStream(entry, fs, width, height) && |fs| > 0
    ensures ProperFrame(fs[0], width, height) && ProperStream(After(entry, fs[0]), fs[1..], width, height)
    ensures |fs| > 1 ==> SameFrame(fs[0].number + 1, fs[1].number)
  {
    var rest := fs[1..];
    forall i | 0 < i < |rest|
      ensures SameFrame(rest[i - 1].number + 1, rest[i].number)
    {
      assert rest[i - 1] == fs[i] && rest[i] == fs[i + 1];
    }
  }

  /** How the frame after fr is entered. */
  ghost function After(entry: Entry, fr: Frame): Entry {
    if entry.Expected? then if fr.eofKept then Expected else Unfinished(fr)
    else if !SomeBody(fr.sending) && !fr.eofKept then entry
    else if !SomeBody(fr.sending) || !fr.eofKept then Unfinished(fr)
    else Expected
  }

  /** The report is what is due. */
  ghost predicate Met(r: Report, due: Due, width: nat)
    requires Shaped(due.fr.sending, width)
  {
    var g := due.fr.sending;
    && SameFrame(r.frame, due.fr.number)
    && if due.Cut? then !r.eof && !r.short && |r.rows| == |g.image| && Holds(r.rows, g.image, g.keep, width)
       else && r.eof
            && (Clean([r], due.fr.number, g.image) <==> if due.carried then RecoverableCarried(g, width) else Recoverable(g.keep, g.xorKept))
            && (!Recoverable(g.keep, g.xorKept) ==> Short(r, g, width))
            && (due.carried && FirstCarried(g) ==> |g.image| >= 3 && !r.short && r.rows == Garbled(g.image, width))
  }

  /** Row 0 alone is lost and the xor packet is there. */
  predicate FirstCarried(g: Sending) {
    |g.keep| > 0 && !g.keep[0] && Recoverable(g.keep, g.xorKept)
  }

  ghost predicate AllMet(reports: seq<Report>, dues: seq<Due>, width: nat) {
    && |reports| == |dues|
    && forall i :: 0 <= i < |dues| ==> Shaped(dues[i].fr.sending, width) && Met(reports[i], dues[i], width)
  }

  predicate Shapes(fs: seq<Frame>, width: nat) {
    forall i :: 0 <= i < |fs| ==> Shaped(fs[i].sending, width)
  }

  function StreamPackets(fs: seq<Frame>, width: nat): seq<Packet>
    requires Shapes(fs, width)
  {
    if |fs| == 0 then []
    else
      assert Shaped(fs[0].sending, width);
      Packets(fs[0], width) + StreamPackets(fs[1..], width)
  }

  lemma {:induction false} NotFirst(s: Receiver, ps: seq<Packet>)
    requires s.Valid() && !s.firstPacket && AllReceived(ps, s.width)
    ensures !Run(s, ps).0.firstPacket
    decreases |ps|
  {
    if |ps| > 0 {
      NotFirst(Step(s, ps[0]).0, ps[1..]);
    }
  }

  /** The frame goes on without an end. */
  lemma StaysOpen(s: Receiver, fr: Frame, k: nat, carried: bool)
    requires ProperFrame(fr, s.width, s.height) && !s.firstPacket && k <= |fr.sending.keep|
    requires Going(s, fr.number, fr.sending.image, fr.sending.keep[..k], carried)
    ensures var ps := Body(fr.number, fr.sending, s.width, k);
      AllReceived(ps, s.width) && Run(s, ps).1 == [] && Open(Run(s, ps).0, fr)
  {
    var ps := Body(fr.number, fr.sending, s.width, k);
    BeforeEof(s, fr.number, fr.sending, k, carried, ps);
    NotFirst(s, ps);
  }

  /** Where the receiver stands before the frame with this number. */
  ghost predicate Stands(s: Receiver, entry: Entry, f: int) {
    if entry.Expected? then Fresh(s, f) else Open(s, entry.fr) && !SameFrame(f, entry.fr.number)
  }

  /** Where it stands when the frame's packets have come, unless it has overrun its buffer. */
  ghost predicate Lands(t: Receiver, entry: Entry, fr: Frame) {
    && (t.status.OutOfBounds? <==> Stops(entry, fr))
    && (!Stops(entry, fr) ==> if After(entry, fr).Expected? then Fresh(t, fr.number + 1) else Open(t, After(entry, fr).fr))
  }

  /** What one frame of the stream comes to. */
  ghost predicate Comes(s: Receiver, entry: Entry, fr: Frame, ps: seq<Packet>)
    requires s.Valid() && AllReceived(ps, s.width)
  {
    AllMet(Run(s, ps).1, DuesOf(entry, fr), s.width) && Lands(Run(s, ps).0, entry, fr)
  }

  lemma OneMet(reports: seq<Report>, fr: Frame, carried: bool, width: nat)
    requires Shaped(fr.sending, width) && EndsOnce(reports, fr.number)
    requires Clean(reports, fr.number, fr.sending.image)
             <==> if carried then RecoverableCarried(fr.sending, width) else Recoverable(fr.sending.keep, fr.sending.xorKept)
    requires !Recoverable(fr.sending.keep, fr.sending.xorKept) ==> Short(reports[0], fr.sending, width)
    requires carried && FirstCarried(fr.sending) ==>
      |fr.sending.image| >= 3 && !reports[0].short && reports[0].rows == Garbled(fr.sending.image, width)
    ensures AllMet(reports, [Ended(fr, carried)], width)
  {
    assert reports == [reports[0]];
  }

  lemma ExpectedComes(s: Receiver, fr: Frame)
    requires Fresh(s, fr.number) && ProperFrame(fr, s.width, s.height)
    ensures AllReceived(Packets(fr, s.width), s.width)
    ensures Comes(s, Expected, fr, Packets(fr, s.width))
  {
    var f, g := fr.number, fr.sending;
    FreshIsMid(s, f, g.image, g.keep[..0]);
    if fr.eofKept {
      HandedOverIffRecoverable(s, f, g, 0);
      assert Packets(fr, s.width) == FrameArrivals(f, g, s.width, 0);
      if !Overruns(g) {
        OneMet(Run(s, Packets(fr, s.width)).1, fr, false, s.width);
      }
    } else {
      StaysOpen(s, fr, 0, false);
      assert Packets(fr, s.width) == Body(f, g, s.width, 0);
    }
  }

  /** A frame none of whose rows arrives. */
  lemma {:induction false} NoRows(f: nat, image: seq<Row>, width: nat, keep: seq<bool>, m: nat)
    requires m <= |keep| <= |image| && forall y :: 0 <= y < |keep| ==> !keep[y]
    ensures Arriving(f, image, width, keep, 0, m) == []
  {
    if m > 0 {
      NoRows(f, image, width, keep, m - 1);
    }
  }

  lemma LostWhole(s: Receiver, entry: Entry, fr: Frame)
    requires entry.Unfinished? && Open(s, entry.fr) && ProperFrame(fr, s.width, s.height)
    requires !SomeBody(fr.sending) && !fr.eofKept
    ensures AllReceived(Packets(fr, s.width), s.width)
    ensures Comes(s, entry, fr, Packets(fr, s.width))
  {
    NoRows(fr.number, fr.sending.image, s.width, fr.sending.keep, |fr.sending.keep|);
    assert Packets(fr, s.width) == [];
  }

  /** A packet that is no row reveals the lost end of frame, and nothing of it is kept. */
  lemma CutOff(s: Receiver, before: Frame, f: nat, p: Packet)
    requires Open(s, before) && Received(p, s.width) && p.frame == f && !SameFrame(f, before.number)
    requires p.horiz == s.width && p.vert == s.height && (p.line == LINENO_XOR || p.line == LINENO_EOF)
    ensures var (t, reports) := Step(s, p); Fresh(t, f) && AllMet(reports, [Cut(before)], s.width)
  {
    Congruent(f, s.frame);
    var t := Take(s, p).(eof := false);
    StepComplete(s, p, t);
    ResynchronisedBound((f + 1) % FRAME_MODULUS, f);
  }

  lemma RunCons(s: Receiver, p: Packet, ps: seq<Packet>, all: seq<Packet>)
    requires s.Valid() && Received(p, s.width) && AllReceived(ps, s.width) && all == [p] + ps
    ensures AllReceived(all, s.width)
    ensures Run(s, all) == (Run(Step(s, p).0, ps).0, Step(s, p).1 + Run(Step(s, p).0, ps).1)
  {
    assert all[0] == p && all[1..] == ps;
  }

  lemma MetAppend(a: seq<Report>, b: seq<Report>, x: seq<Due>, y: seq<Due>, width: nat)
    requires AllMet(a, x, width) && AllMet(b, y, width)
    ensures AllMet(a + b, x + y, width)
  {
    forall i | 0 <= i < |x + y|
      ensures Shaped((x + y)[i].fr.sending, width) && Met((a + b)[i], (x + y)[i], width)
    {
      if i < |x| {
        assert (x + y)[i] == x[i] && (a + b)[i] == a[i];
      } else {
        assert (x + y)[i] == y[i - |x|] && (a + b)[i] == b[i - |x|];
      }
    }
  }

  lemma FreshIsOpen(t: Receiver, fr: Frame)
    requires Fresh(t, fr.number) && ProperFrame(fr, t.width, t.height) && forall y :: 0 <= y < |fr.sending.keep| ==> !fr.sending.keep[y]
    ensures Open(t, fr)
  {
  }

  /** The end of a frame with nothing else of it. */
  lemma EndCuts(s: Receiver, entry: Entry, fr: Frame)
    requires Stands(s, entry, fr.number) && entry.Unfinished? && ProperFrame(fr, s.width, s.height)
    requires !SomeBody(fr.sending) && fr.eofKept
    ensures AllReceived(Packets(fr, s.width), s.width)
    ensures Comes(s, entry, fr, Packets(fr, s.width))
  {
    var p := EofPacket(fr.number, fr.sending.image, s.width, fr.sending.tail);
    NoRows(fr.number, fr.sending.image, s.width, fr.sending.keep, |fr.sending.keep|);
    assert Packets(fr, s.width) == [p];
    CutOff(s, entry.fr, fr.number, p);
    RunOne(s, p);
    FreshIsOpen(Step(s, p).0, fr);
    NoneBefore(fr.sending.keep);
  }

  lemma BareArrivals(f: nat, g: Sending, width: nat)
    requires Shaped(g, width) && !g.xorKept && forall y :: 0 <= y < |g.keep| ==> !g.keep[y]
    ensures FrameArrivals(f, g, width, 0) == [EofPacket(f, g.image, width, g.tail)] && Count(g.keep) == 0
  {
    NoRows(f, g.image, width, g.keep, |g.keep|);
    NoneBefore(g.keep);
  }

  lemma BlankMet(reports: seq<Report>, fr: Frame, bare: Sending, width: nat)
    requires Shaped(fr.sending, width) && |fr.sending.keep| > 0 && bare == fr.sending.(xorKept := false)
    requires EndsOnce(reports, fr.number) && Short(reports[0], bare, width)
    requires Count(fr.sending.keep) == 0 && !fr.sending.keep[|fr.sending.keep| - 1]
    ensures AllMet(reports, [Ended(fr, true)], width)
  {
    OneMet(reports, fr, true, width);
  }

  /** The end of a frame that has lost all its rows, and whose xor packet was used up. */
  lemma BlankEnds(s: Receiver, fr: Frame, p: Packet)
    requires Fresh(s, fr.number) && ProperFrame(fr, s.width, s.height) && fr.eofKept
    requires p == EofPacket(fr.number, fr.sending.image, s.width, fr.sending.tail)
    requires forall y :: 0 <= y < |fr.sending.keep| ==> !fr.sending.keep[y]
    ensures AllReceived([p], s.width)
    ensures Fresh(Run(s, [p]).0, fr.number + 1)
    ensures AllMet(Run(s, [p]).1, [Ended(fr, true)], s.width)
  {
    var f, g := fr.number, fr.sending;
    var bare := g.(xorKept := false);
    FreshIsMid(s, f, g.image, g.keep[..0]);
    BareArrivals(f, bare, s.width);
    HandedOverIffRecoverable(s, f, bare, 0);
    assert !Recoverable(bare.keep, false) && !Overruns(bare);
    BlankMet(Run(s, [p]).1, fr, bare, s.width);
  }

  /** Its xor packet is the first that arrives. */
  lemma XorCuts(s: Receiver, entry: Entry, fr: Frame)
    requires Stands(s, entry, fr.number) && entry.Unfinished? && ProperFrame(fr, s.width, s.height)
    requires fr.sending.xorKept && forall y :: 0 <= y < |fr.sending.keep| ==> !fr.sending.keep[y]
    ensures AllReceived(Packets(fr, s.width), s.width)
    ensures Comes(s, entry, fr, Packets(fr, s.width))
  {
    var f, g := fr.number, fr.sending;
    var p, e := XorPacket(f, g.image, s.width), EofPacket(f, g.image, s.width, g.tail);
    NoRows(f, g.image, s.width, g.keep, |g.keep|);
    NoneBefore(g.keep);
    CutOff(s, entry.fr, f, p);
    var (t, first) := Step(s, p);
    if fr.eofKept {
      BlankEnds(t, fr, e);
      RunCons(s, p, [e], Packets(fr, s.width));
      MetAppend(first, Run(t, [e]).1, [Cut(entry.fr)], [Ended(fr, true)], s.width);
    } else {
      assert Packets(fr, s.width) == [p];
      RunOne(s, p);
      FreshIsOpen(t, fr);
    }
  }

  lemma {:induction false} SkipLost(f: nat, image: seq<Row>, width: nat, keep: seq<bool>, y: nat, m: nat)
    requires FirstArrives(keep, y) && y < m <= |keep| <= |image|
    ensures Arriving(f, image, width, keep, 0, m) == [LinePacket(f, image, width, y)] + Arriving(f, image, width, keep, y + 1, m)
    decreases m
  {
    if m == y + 1 {
      NoRows(f, image, width, keep[..y], y);
      SamePrefix(f, image, width, keep, y, y);
    } else {
      SkipLost(f, image, width, keep, y, m - 1);
    }
  }

  lemma {:induction false} SamePrefix(f: nat, image: seq<Row>, width: nat, keep: seq<bool>, n: nat, m: nat)
    requires m <= n <= |keep| <= |image|
    ensures Arriving(f, image, width, keep[..n], 0, m) == Arriving(f, image, width, keep, 0, m)
    decreases m
  {
    if m > 0 {
      SamePrefix(f, image, width, keep, n, m - 1);
    }
  }

  /** Row y is carried over. */
  lemma RowCut(s: Receiver, before: Frame, fr: Frame, y: nat)
    requires Open(s, before) && !SameFrame(fr.number, before.number)
    requires ProperFrame(fr, s.width, s.height) && FirstArrives(fr.sending.keep, y)
    ensures var p := LinePacket(fr.number, fr.sending.image, s.width, y);
      && Received(p, s.width) && var (t, reports) := Step(s, p);
      && Going(t, fr.number, fr.sending.image, fr.sending.keep[..y + 1], y > 0) && !t.firstPacket
      && AllMet(reports, [Cut(before)], s.width)
  {
    CarriedRow(s, fr.number, fr.sending.image, y);
    if y == 0 {
      CarriedRowZero(s, fr.number, fr.sending.image);
      assert fr.sending.keep[..1] == [true];
    } else {
      CarriedIsGoing(s, fr.number, fr.sending.image, fr.sending.keep[..y + 1], y);
    }
  }

  /** The packet that reveals a lost end of frame, and then the rest of its own frame. */
  lemma ComesAfterCut(s: Receiver, entry: Entry, fr: Frame, p: Packet, t: Receiver, rest: seq<Packet>, all: seq<Packet>, due: seq<Due>)
    requires s.Valid() && entry.Unfinished? && Received(p, s.width) && AllReceived(rest, s.width) && all == [p] + rest
    requires t == Step(s, p).0 && AllMet(Step(s, p).1, [Cut(entry.fr)], s.width)
    requires AllMet(Run(t, rest).1, due, s.width) && DuesOf(entry, fr) == [Cut(entry.fr)] + due
    requires Lands(Run(t, rest).0, entry, fr)
    ensures AllReceived(all, s.width)
    ensures Comes(s, entry, fr, all)
  {
    RunCons(s, p, rest, all);
    MetAppend(Step(s, p).1, Run(t, rest).1, [Cut(entry.fr)], due, s.width);
  }

  /** The packets of a frame from its first row y on. */
  lemma PacketsFrom(fr: Frame, width: nat, y: nat, rest: seq<Packet>)
    requires Shaped(fr.sending, width) && FirstArrives(fr.sending.keep, y)
    requires rest == Body(fr.number, fr.sending, width, y + 1)
                     + (if fr.eofKept then [EofPacket(fr.number, fr.sending.image, width, fr.sending.tail)] else [])
    ensures Packets(fr, width) == [LinePacket(fr.number, fr.sending.image, width, y)] + rest
  {
    SkipLost(fr.number, fr.sending.image, width, fr.sending.keep, y, |fr.sending.keep|);
  }

  /** The rest of a frame entered with row y, up to its end. */
  lemma RestEnds(t: Receiver, reports: seq<Report>, entry: Entry, fr: Frame, width: nat) returns (due: seq<Due>)
    requires Shaped(fr.sending, width) && |fr.sending.keep| > 0 && entry.Unfinished? && SomeBody(fr.sending) && fr.eofKept
    requires CarriedVerdict(t, reports, fr.number, fr.sending, width)
    ensures AllMet(reports, due, width) && Lands(t, entry, fr)
    ensures DuesOf(entry, fr) == [Cut(entry.fr)] + due
  {
    if OverrunsCarried(fr.sending) {
      due := [];
    } else {
      due := [Ended(fr, true)];
      OneMet(reports, fr, true, width);
    }
  }

  lemma RowCutsEnded(s: Receiver, entry: Entry, fr: Frame, y: nat)
    requires Stands(s, entry, fr.number) && entry.Unfinished? && ProperFrame(fr, s.width, s.height)
    requires FirstArrives(fr.sending.keep, y) && fr.eofKept
    ensures AllReceived(Packets(fr, s.width), s.width)
    ensures Comes(s, entry, fr, Packets(fr, s.width))
  {
    var f, g := fr.number, fr.sending;
    var p := LinePacket(f, g.image, s.width, y);
    RowCut(s, entry.fr, fr, y);
    var rest := FrameArrivals(f, g, s.width, y + 1);
    HandedOverAfterCarriedRow(s, f, g, y);
    var (t, reports) := Run(Step(s, p).0, rest);
    var due := RestEnds(t, reports, entry, fr, s.width);
    PacketsFrom(fr, s.width, y, rest);
    ComesAfterCut(s, entry, fr, p, Step(s, p).0, rest, Packets(fr, s.width), due);
  }

  /** The rest of a frame entered with row y, without its end. */
  lemma RestOpen(entry: Entry, fr: Frame, t: Receiver, y: nat)
    requires t.Valid() && entry.Unfinished? && ProperFrame(fr, t.width, t.height) && !t.firstPacket
    requires FirstArrives(fr.sending.keep, y) && !fr.eofKept
    requires Going(t, fr.number, fr.sending.image, fr.sending.keep[..y + 1], y > 0)
    ensures var rest := Body(fr.number, fr.sending, t.width, y + 1);
      && AllReceived(rest, t.width) && AllMet(Run(t, rest).1, [], t.width) && Lands(Run(t, rest).0, entry, fr)
    ensures DuesOf(entry, fr) == [Cut(entry.fr)] + []
  {
    StaysOpen(t, fr, y + 1, y > 0);
  }

  lemma RowCutsOpen(s: Receiver, entry: Entry, fr: Frame, y: nat)
    requires Stands(s, entry, fr.number) && entry.Unfinished? && ProperFrame(fr, s.width, s.height)
    requires FirstArrives(fr.sending.keep, y) && !fr.eofKept
    ensures AllReceived(Packets(fr, s.width), s.width)
    ensures Comes(s, entry, fr, Packets(fr, s.width))
  {
    var f, g := fr.number, fr.sending;
    var p := LinePacket(f, g.image, s.width, y);
    RowCut(s, entry.fr, fr, y);
    var t := Step(s, p).0;
    RestOpen(entry, fr, t, y);
    var rest := Body(f, g, s.width, y + 1);
    assert rest + [] == rest;
    PacketsFrom(fr, s.width, y, rest);
    ComesAfterCut(s, entry, fr, p, t, rest, Packets(fr, s.width), []);
  }

  lemma UnfinishedComes(s: Receiver, entry: Entry, fr: Frame)
    requires Stands(s, entry, fr.number) && entry.Unfinished? && ProperFrame(fr, s.width, s.height)
    ensures AllReceived(Packets(fr, s.width), s.width)
    ensures Comes(s, entry, fr, Packets(fr, s.width))
  {
    var g := fr.sending;
    if y :| 0 <= y < |g.keep| && g.keep[y] {
      var z := Lowest(g.keep, y);
      if fr.eofKept {
        RowCutsEnded(s, entry, fr, z);
      } else {
        RowCutsOpen(s, entry, fr, z);
      }
    } else if g.xorKept {
      XorCuts(s, entry, fr);
    } else if fr.eofKept {
      EndCuts(s, entry, fr);
    } else {
      LostWhole(s, entry, fr);
    }
  }

  ghost function Lowest(keep: seq<bool>, y: nat): (z: nat)
    requires y < |keep| && keep[y]
    ensures FirstArrives(keep, z)
  {
    if z :| 0 <= z < y && keep[z] then Lowest(keep, z) else y
  }

  lemma FrameComes(s: Receiver, entry: Entry, fr: Frame)
    requires Stands(s, entry, fr.number) && ProperFrame(fr, s.width, s.height)
    ensures AllReceived(Packets(fr, s.width), s.width)
    ensures Comes(s, entry, fr, Packets(fr, s.width))
  {
    if entry.Expected? {
      ExpectedComes(s, fr);
    } else {
      UnfinishedComes(s, entry, fr);
    }
  }

  lemma RunTwo(s: Receiver, ps: seq<Packet>, qs: seq<Packet>)
    requires s.Valid() && AllReceived(ps, s.width) && AllReceived(qs, s.width)
    ensures AllReceived(ps + qs, s.width)
    ensures Run(s, ps + qs).0 == Run(Run(s, ps).0, qs).0
    ensures Run(s, ps + qs).1 == Run(s, ps).1 + Run(Run(s, ps).0, qs).1
  {
    RunAppend(s, ps, qs);
  }

  lemma {:induction false} RowsReceived(f: nat, image: seq<Row>, width: nat, keep: seq<bool>, m: nat)
    requires m <= |keep| <= |image| <= 0x400 && Rectangular(image, width) && f < FRAME_MODULUS
    ensures AllReceived(Arriving(f, image, width, keep, 0, m), width)
  {
    if m > 0 {
      RowsReceived(f, image, width, keep, m - 1);
    }
  }

  lemma {:induction false} StreamReceived(entry: Entry, fs: seq<Frame>, width: nat, height: nat)
    requires ProperStream(entry, fs, width, height) && Shapes(fs, width)
    ensures AllReceived(StreamPackets(fs, width), width)
    decreases |fs|
  {
    if |fs| > 0 {
      ProperRest(entry, fs, width, height);
      var g := fs[0].sending;
      RowsReceived(fs[0].number, g.image, width, g.keep, |g.keep|);
      StreamReceived(After(entry, fs[0]), fs[1..], width, height);
    }
  }

  /**
   The end-to-end statement for a stream of frames over any channel that keeps some of the packets, in order: exactly the
   reports that are due are made, each with the verdict of its own losses, until a repair would overrun the buffer.
   */
  lemma {:induction false} StreamHandedOver(s: Receiver, entry: Entry, fs: seq<Frame>)
    requires s.Valid() && ProperStream(entry, fs, s.width, s.height) && Shapes(fs, s.width)
    requires |fs| > 0 ==> Stands(s, entry, fs[0].number)
    ensures AllReceived(StreamPackets(fs, s.width), s.width)
    ensures AllMet(Run(s, StreamPackets(fs, s.width)).1, Dues(entry, fs), s.width)
    decreases |fs|
  {
    if |fs| > 0 {
      var fr, rest := fs[0], fs[1..];
      ProperRest(entry, fs, s.width, s.height);
      FrameComes(s, entry, fr);
      var ps := Packets(fr, s.width);
      var (t, r) := Run(s, ps);
      var qs := StreamPackets(rest, s.width);
      if Stops(entry, fr) {
        StreamReceived(After(entry, fr), rest, s.width, s.height);
        StoppedIsSilent(t, qs);
        assert r + [] == r && DuesOf(entry, fr) + [] == DuesOf(entry, fr);
      } else {
        StreamHandedOver(t, After(entry, fr), rest);
        MetAppend(r, Run(t, qs).1, DuesOf(entry, fr), Dues(After(entry, fr), rest), s.width);
      }
      RunTwo(s, ps, qs);
    }
  }

  // ---------------------------------------------------------------- from the first packet of all

  /** Frames of which nothing arrives before the first packet of all leave no trace. */
  function Begun(fs: seq<Frame>, width: nat): seq<Frame>
    requires Shapes(fs, width)
    decreases |fs|
  {
    if |fs| == 0 then []
    else
      assert Shaped(fs[0].sending, width);
      if Packets(fs[0], width) == [] then Begun(fs[1..], width) else fs
  }

  lemma {:induction false} BegunPackets(fs: seq<Frame>, width: nat)
    requires Shapes(fs, width)
    ensures Shapes(Begun(fs, width), width) && StreamPackets(Begun(fs, width), width) == StreamPackets(fs, width)
    ensures var gs := Begun(fs, width); |gs| > 0 ==> Shaped(gs[0].sending, width) && Packets(gs[0], width) != []
    decreases |fs|
  {
    if |fs| > 0 {
      assert Shaped(fs[0].sending, width);
      if Packets(fs[0], width) == [] {
        BegunPackets(fs[1..], width);
        assert [] + StreamPackets(fs[1..], width) == StreamPackets(fs[1..], width);
      }
    }
  }

  /** The first packet of all sets the number that is expected, as if it had been known. */
  lemma FirstPacketStep(s: Receiver, p: Packet)
    requires s.Valid() && s.status.Receiving? && s.firstPacket && Received(p, s.width) && p.horiz == s.width && p.vert == s.height
    ensures var t := s.(firstPacket := false, frame := p.frame); t.Valid() && Step(s, p) == Step(t, p)
  {
    var t := s.(firstPacket := false, frame := p.frame);
    assert Take(s, p) == Take(t, p);
  }

  lemma FirstPacketRun(s: Receiver, ps: seq<Packet>)
    requires s.Valid() && s.status.Receiving? && s.firstPacket && AllReceived(ps, s.width)
    requires |ps| > 0 && ps[0].horiz == s.width && ps[0].vert == s.height
    ensures var t := s.(firstPacket := false, frame := ps[0].frame); t.Valid() && Run(s, ps) == Run(t, ps)
  {
    FirstPacketStep(s, ps[0]);
  }

  /** All packets of a frame carry its number and its size. */
  predicate Belong(ps: seq<Packet>, fr: Frame, width: nat) {
    forall p :: p in ps ==> p.frame == fr.number && p.horiz == width && p.vert == |fr.sending.image|
  }

  lemma {:induction false} RowsBelong(fr: Frame, width: nat, m: nat)
    requires Shaped(fr.sending, width) && m <= |fr.sending.keep|
    ensures Belong(Arriving(fr.number, fr.sending.image, width, fr.sending.keep, 0, m), fr, width)
  {
    if m > 0 {
      RowsBelong(fr, width, m - 1);
    }
  }

  lemma FirstBelongs(fr: Frame, width: nat)
    requires Shaped(fr.sending, width) && Packets(fr, width) != []
    ensures var p := Packets(fr, width)[0]; p.frame == fr.number && p.horiz == width && p.vert == |fr.sending.image|
  {
    RowsBelong(fr, width, |fr.sending.keep|);
    assert Packets(fr, width)[0] in Packets(fr, width);
  }

  /** The same statement for a receiver that has just been started, with anything in its buffers. */
  lemma StreamFromStart(fs: seq<Frame>, width: nat, height: nat, garbage: Packet, xorGarbage: Row)
    requires |garbage.data| == width == |xorGarbage| && garbage.frame < FRAME_MODULUS && Shapes(fs, width)
    requires ProperStream(Expected, Begun(fs, width), width, height)
    ensures AllReceived(StreamPackets(fs, width), width)
    ensures Start(width, height, garbage, xorGarbage).Valid()
    ensures AllMet(Run(Start(width, height, garbage, xorGarbage), StreamPackets(fs, width)).1, Dues(Expected, Begun(fs, width)), width)
  {
    var s, gs := Start(width, height, garbage, xorGarbage), Begun(fs, width);
    BegunPackets(fs, width);
    StreamReceived(Expected, gs, width, height);
    if |gs| > 0 {
      var ps := StreamPackets(gs, width);
      FirstBelongs(gs[0], width);
      assert ps[0] == Packets(gs[0], width)[0];
      FirstPacketRun(s, ps);
      StreamHandedOver(s.(firstPacket := false, frame := gs[0].number), Expected, gs);
    }
  }

  // ---------------------------------------------------------------- from the sender

  function SentAll(fs: seq<Frame>, width: nat): seq<Packet>
    requires Shapes(fs, width)
  {
    if |fs| == 0 then []
    else
      var n := |fs| - 1;
      assert Shaped(fs[n].sending, width);
      SentAll(fs[..n], width) + Sent(fs[n].number, fs[n].sending, width)
  }

  function Flags(fr: Frame): seq<bool> {
    fr.sending.keep + [fr.sending.xorKept] + [fr.eofKept]
  }

  /** What the channel keeps of all that is sent. */
  function Kept(fs: seq<Frame>): seq<bool> {
    if |fs| == 0 then [] else Kept(fs[..|fs| - 1]) + Flags(fs[|fs| - 1])
  }

  lemma {:induction false} DeliverTwo(ps: seq<Packet>, keep: seq<bool>, qs: seq<Packet>, more: seq<bool>)
    requires |ps| == |keep| && |qs| == |more|
    ensures Deliver(ps + qs, keep + more) == Deliver(ps, keep) + Deliver(qs, more)
    decreases |qs|
  {
    if |qs| == 0 {
      assert ps + qs == ps && keep + more == keep;
    } else {
      var n := |qs| - 1;
      assert (ps + qs)[..|ps + qs| - 1] == ps + qs[..n] && (keep + more)[..|ps + qs| - 1] == keep + more[..n];
      DeliverTwo(ps, keep, qs[..n], more[..n]);
    }
  }

  lemma {:induction false} StreamSnoc(fs: seq<Frame>, fr: Frame, width: nat)
    requires Shapes(fs, width) && Shaped(fr.sending, width)
    ensures Shapes(fs + [fr], width) && StreamPackets(fs + [fr], width) == StreamPackets(fs, width) + Packets(fr, width)
    decreases |fs|
  {
    if |fs| == 0 {
      assert fs + [fr] == [fr];
      assert [fr][1..] == [];
    } else {
      assert (fs + [fr])[1..] == fs[1..] + [fr];
      StreamSnoc(fs[1..], fr, width);
    }
  }

  /** The packets of a stream are what a channel makes of all that is sent. */
  lemma {:induction false} StreamIsDelivered(fs: seq<Frame>, width: nat)
    requires Shapes(fs, width)
    ensures |SentAll(fs, width)| == |Kept(fs)|
    ensures Deliver(SentAll(fs, width), Kept(fs)) == StreamPackets(fs, width)
    decreases |fs|
  {
    if |fs| > 0 {
      var n := |fs| - 1;
      StreamIsDelivered(fs[..n], width);
      assert Shaped(fs[n].sending, width);
      ArrivalsAreDelivered(fs[n], width);
      DeliverTwo(SentAll(fs[..n], width), Kept(fs[..n]), Sent(fs[n].number, fs[n].sending, width), Flags(fs[n]));
      StreamSnoc(fs[..n], fs[n], width);
      assert fs[..n] + [fs[n]] == fs;
    }
  }
}
