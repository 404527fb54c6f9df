/**
 What holds of every run of the receiver, whatever packets arrive in whatever order: rows of
 different frames are never mixed in one buffer, and frame numbers are reported in step.
 */
module VideoHistory {
  import opened VideoPackets
  import opened VideoReceiver

  /** Packet p is the origin of this row at place y of a frame with this number. */
  predicate Origin(p: Packet, frame: nat, y: nat, row: Row) {
    SameFrame(p.frame, frame) && (p.line % 0x400 == y || p.line == y) && p.data == row
  }

  /** The row is blank, or was received for this frame. */
  ghost predicate Attributed(row: Row, y: nat, frame: nat, history: seq<Packet>) {
    row == ZeroRow(|row|) || exists i :: 0 <= i < |history| && Origin(history[i], frame, y, row)
  }

  ghost predicate AllAttributed(rows: seq<Row>, frame: nat, history: seq<Packet>) {
    forall y :: 0 <= y < |rows| ==> Attributed(rows[y], y, frame, history)
  }

  predicate XorOrigin(p: Packet, frame: nat, row: Row) {
    SameFrame(p.frame, frame) && p.line == LINENO_XOR && p.data == row
  }

  ghost predicate XorAttributed(row: Row, frame: nat, history: seq<Packet>) {
    exists i :: 0 <= i < |history| && XorOrigin(history[i], frame, row)
  }

  /** The row at y is the sum of the other rows of the buffer and of a received xor line. */
  ghost predicate Repaired(r: Report, y: nat, xorline: Row)
    requires y < |r.rows| && Rectangular(r.rows, |xorline|)
  {
    r.eof && !r.short && r.lastMissing == y && r.rows[y] == XorOthers(xorline, r.rows, y, 0)
  }

  /** Every row handed over is blank, or received for the reported frame, or repaired from that frame's xor line. */
  ghost predicate Unmixed(r: Report, width: nat, history: seq<Packet>) {
    && Rectangular(r.rows, width)
    && forall y :: 0 <= y < |r.rows| ==>
         || Attributed(r.rows[y], y, r.frame, history)
         || exists x: Row :: |x| == width && XorAttributed(x, r.frame, history) && Repaired(r, y, x)
  }

  ghost predicate Inv(s: Receiver, history: seq<Packet>) {
    && s.Valid()
    && AllAttributed(s.rows, s.frame, history)
    && (s.hasXor ==> XorAttributed(s.xorline, s.frame, history))
    && (s.firstPacket ==> s.rows == Blank(s.width, s.height) && !s.hasXor)
  }

  lemma AttributedMore(row: Row, y: nat, frame: nat, history: seq<Packet>, more: seq<Packet>)
    requires Attributed(row, y, frame, history)
    ensures Attributed(row, y, frame, history + more)
  {
    if row != ZeroRow(|row|) {
      var i :| 0 <= i < |history| && Origin(history[i], frame, y, row);
      assert (history + more)[i] == history[i];
    }
  }

  lemma AllAttributedMore(rows: seq<Row>, frame: nat, history: seq<Packet>, more: seq<Packet>)
    requires AllAttributed(rows, frame, history)
    ensures AllAttributed(rows, frame, history + more)
  {
    forall y | 0 <= y < |rows| ensures Attributed(rows[y], y, frame, history + more) {
      AttributedMore(rows[y], y, frame, history, more);
    }
  }

  lemma XorAttributedMore(row: Row, frame: nat, history: seq<Packet>, more: seq<Packet>)
    requires XorAttributed(row, frame, history)
    ensures XorAttributed(row, frame, history + more)
  {
    var i :| 0 <= i < |history| && XorOrigin(history[i], frame, row);
    assert (history + more)[i] == history[i];
  }

  lemma UnmixedMore(r: Report, width: nat, history: seq<Packet>, more: seq<Packet>)
    requires Unmixed(r, width, history)
    ensures Unmixed(r, width, history + more)
  {
    forall y | 0 <= y < |r.rows|
      ensures || Attributed(r.rows[y], y, r.frame, history + more)
              || exists x: Row :: |x| == width && XorAttributed(x, r.frame, history + more) && Repaired(r, y, x)
    {
      if Attributed(r.rows[y], y, r.frame, history) {
        AttributedMore(r.rows[y], y, r.frame, history, more);
      } else {
        var x: Row :| |x| == width && XorAttributed(x, r.frame, history) && Repaired(r, y, x);
        XorAttributedMore(x, r.frame, history, more);
      }
    }
  }

  // ---------------------------------------------------------------- one packet

  lemma TakeInv(s: Receiver, p: Packet, history: seq<Packet>)
    requires Inv(s, history) && Received(p, s.width)
    ensures Inv(Take(s, p), history + [p]) && !Take(s, p).firstPacket
  {
    if s.firstPacket {
      assert AllAttributed(s.rows, p.frame, history);
    }
    AllAttributedMore(s.rows, Take(s, p).frame, history, [p]);
    if s.hasXor {
      XorAttributedMore(s.xorline, s.frame, history, [p]);
    }
  }

  /** Storing the data of a packet of the same frame. */
  lemma StoredAttributed(rows: seq<Row>, frame: nat, history: seq<Packet>, p: Packet, y: nat)
    requires AllAttributed(rows, frame, history + [p]) && y < |rows|
    requires Origin(p, frame, y, p.data)
    ensures AllAttributed(rows[y := p.data], frame, history + [p])
  {
    assert (history + [p])[|history|] == p;
  }

  lemma BlankAttributed(width: nat, height: nat, frame: nat, history: seq<Packet>)
    ensures AllAttributed(Blank(width, height), frame, history)
  {
  }

  lemma LineInv(s: Receiver, p: Packet, history: seq<Packet>)
    requires Inv(s, history + [p]) && !s.firstPacket && Received(p, s.width) && SameFrame(p.frame, s.frame)
    ensures Inv(OnLine(s, p.line % 0x400, p.data), history + [p])
  {
    var y := p.line % 0x400;
    OnLineValid(s, y, p.data);
    if y < s.height {
      StoredAttributed(s.rows, s.frame, history, p, y);
    }
  }

  lemma BeginInv(s: Receiver, p: Packet, history: seq<Packet>)
    requires s.Valid() && !s.firstPacket && (!s.eof ==> s.last == p)
    ensures Inv(BeginFrame(s), history + [p])
  {
    BeginFrameValid(s);
    var expected := (s.last.frame + 1) % FRAME_MODULUS;
    ResynchronisedBound(expected, s.last.frame);
    BlankAttributed(s.width, s.height, BeginFrame(s).frame, history + [p]);
    if !s.eof && p.line < s.height {
      StoredAttributed(Blank(s.width, s.height), BeginFrame(s).frame, history, p, p.line);
    }
  }

  lemma EndUnmixed(s: Receiver, history: seq<Packet>)
    requires Inv(s, history) && EndOfFrame(s).complete && s.eof
    ensures Unmixed(ReportOf(EndOfFrame(s).state), s.width, history)
  {
    var t := EndOfFrame(s).state;
    EndOfFrameValid(s);
    var r := ReportOf(t);
    if s.lineCount != s.height && s.height - s.lineCount == 1 && s.hasXor {
      var g := s.lastMissing;
      forall y | 0 <= y < |r.rows|
        ensures || Attributed(r.rows[y], y, r.frame, history)
                || exists x: Row :: |x| == s.width && XorAttributed(x, r.frame, history) && Repaired(r, y, x)
      {
        if y == g {
          SameOthers(s.xorline, s.rows, t.rows, g, 0);
          assert Repaired(r, y, s.xorline);
        }
      }
    }
  }

  /** One packet keeps the invariant, as long as the receiver goes on, and every report made is unmixed. */
  lemma StepInv(s: Receiver, p: Packet, history: seq<Packet>)
    requires Inv(s, history) && Received(p, s.width)
    ensures var (s', reports) := Step(s, p);
         && (s'.status.Receiving? ==> Inv(s', history + [p]))
         && forall r :: r in reports ==> Unmixed(r, s.width, history + [p])
  {
    if s.status.Receiving? && p.horiz == s.width && p.vert == s.height {
      var t := Take(s, p);
      TakeInv(s, p, history);
      DispatchInv(t, p, history);
      var o := Dispatch(t, p);
      if o.complete {
        StepComplete(s, p, o.state);
      } else {
        StepIncomplete(s, p, o.state);
      }
    }
  }

  lemma DispatchInv(t: Receiver, p: Packet, history: seq<Packet>)
    requires Inv(t, history + [p]) && !t.firstPacket && Received(p, t.width) && t.last == p && t.status.Receiving?
    ensures var o := Dispatch(t, p);
         && o.state.Valid()
         && (o.complete ==> Inv(BeginFrame(o.state), history + [p]) && Unmixed(ReportOf(o.state), t.width, history + [p]))
         && (!o.complete && o.state.status.Receiving? ==> Inv(o.state, history + [p]))
  {
    DispatchValid(t, p);
    var o := Dispatch(t, p);
    if p.line == LINENO_ERR || p.line == LINENO_OVF || p.line == LINENO_ABORT {
    } else if (p.frame - t.frame) % 0x1_0000 != 0 {
      BeginInv(o.state, p, history);
    } else {
      Congruent(p.frame, t.frame);
      if p.line == LINENO_XOR {
        assert (history + [p])[|history|] == p;
        assert XorOrigin(p, t.frame, p.data);
      } else if p.line == LINENO_EOF {
        var e := t.(eof := true);
        if o.complete {
          EndUnmixed(e, history + [p]);
          BeginInv(o.state, p, history);
        }
      } else {
        LineInv(t, p, history);
      }
    }
  }

  // ---------------------------------------------------------------- whole runs

  lemma {:induction false} RunInv(s: Receiver, ps: seq<Packet>, history: seq<Packet>)
    requires s.Valid() && (s.status.Receiving? ==> Inv(s, history))
    requires forall p :: p in ps ==> Received(p, s.width)
    ensures forall r :: r in Run(s, ps).1 ==> Unmixed(r, s.width, history + ps)
    decreases |ps|
  {
    if |ps| > 0 && s.status.Receiving? {
      var p, rest := ps[0], ps[1..];
      var (s1, r1) := Step(s, p);
      StepInv(s, p, history);
      RunInv(s1, rest, history + [p]);
      assert history + [p] + rest == history + ps;
      forall r | r in Run(s, ps).1 ensures Unmixed(r, s.width, history + ps) {
        if r in r1 {
          UnmixedMore(r, s.width, history + [p], rest);
        }
      }
    } else if |ps| > 0 {
      StoppedIsSilent(s, ps);
    }
  }

  /** No frame mixing: for every packet sequence whatever, from the start of the stream. */
  lemma NoFrameMixing(width: nat, height: nat, garbage: Packet, xorGarbage: Row, ps: seq<Packet>)
    requires |garbage.data| == width == |xorGarbage| && garbage.frame < FRAME_MODULUS
    requires forall p :: p in ps ==> Received(p, width)
    ensures forall r :: r in Run(Start(width, height, garbage, xorGarbage), ps).1 ==> Unmixed(r, width, ps)
  {
    var s := Start(width, height, garbage, xorGarbage);
    BlankAttributed(width, height, s.frame, []);
    RunInv(s, ps, []);
    assert [] + ps == ps;
  }

  // ---------------------------------------------------------------- frame numbers

  lemma SameFrameNext(a: nat, b: nat)
    requires SameFrame(a, b) && a < FRAME_MODULUS
    ensures SameFrame((a + 1) % FRAME_MODULUS, b + 1)
  {
    if a + 1 == FRAME_MODULUS {
      assert a % 0x1_0000 == 0xFFFF;
      assert (a + 1) % FRAME_MODULUS == 0;
    } else {
      assert (a + 1) % FRAME_MODULUS == a + 1;
    }
  }

  lemma NotSame(a: int, b: int)
    requires (a - b) % 0x1_0000 != 0
    ensures !SameFrame(a, b)
  {
  }

  /** Packet p makes report r: where the expected number goes. */
  ghost predicate Advances(r: Report, p: Packet, frame: nat) {
    if r.eof then SameFrame(frame, r.frame + 1) && p.line == LINENO_EOF && frame == (p.frame + 1) % FRAME_MODULUS
    else SameFrame(frame, p.frame) && !SameFrame(p.frame, r.frame) && (frame == p.frame <==> ExactNumber(p.frame))
  }

  lemma LostEofNumbers(t: Receiver, p: Packet)
    requires t.Valid() && !t.eof && !t.firstPacket && t.last == p && p.frame < FRAME_MODULUS && (p.frame - t.frame) % 0x1_0000 != 0
    ensures BeginFrame(t).Valid() && !BeginFrame(t).firstPacket && Advances(ReportOf(t), p, BeginFrame(t).frame)
  {
    BeginFrameValid(t);
    NotSame(p.frame, t.frame);
    ResynchronisedIff(p.frame);
    ResynchronisedBound((p.frame + 1) % FRAME_MODULUS, p.frame);
  }

  lemma EofNumbers(t: Receiver, p: Packet)
    requires t.Valid() && t.eof && !t.firstPacket && t.last.frame == p.frame && p.line == LINENO_EOF && (p.frame - t.frame) % 0x1_0000 == 0
    ensures BeginFrame(t).Valid() && !BeginFrame(t).firstPacket && Advances(ReportOf(t), p, BeginFrame(t).frame)
  {
    BeginFrameValid(t);
    Congruent(p.frame, t.frame);
    SameFrameNext(p.frame, t.frame);
  }

  lemma DispatchNumbers(t: Receiver, p: Packet)
    requires t.Valid() && !t.firstPacket && t.last == p && Received(p, t.width)
    ensures var o := Dispatch(t, p);
         && o.state.Valid() && o.state.frame == t.frame && !o.state.firstPacket
         && (o.complete ==> !BeginFrame(o.state).firstPacket && Advances(ReportOf(o.state), p, BeginFrame(o.state).frame))
  {
    DispatchValid(t, p);
    var o := Dispatch(t, p);
    if o.complete {
      if (p.frame - t.frame) % 0x1_0000 != 0 {
        LostEofNumbers(o.state, p);
      } else {
        EofNumbers(o.state, p);
      }
    }
  }

  lemma StepNumbers(s: Receiver, p: Packet)
    requires s.Valid() && Received(p, s.width)
    ensures var (s', reports) := Step(s, p);
         && (!s.firstPacket ==> !s'.firstPacket)
         && (!s.firstPacket && reports != [] ==> reports[0].frame == s.frame)
         && (!s.firstPacket && reports == [] ==> s'.frame == s.frame)
         && (reports != [] ==> |reports| == 1 && !s'.firstPacket && Advances(reports[0], p, s'.frame))
         && (s.firstPacket && reports != [] ==> reports[0].frame == p.frame)
         && (s.firstPacket && reports == [] && s'.status.Receiving? ==> !s'.firstPacket && s'.frame == p.frame)
  {
    if s.status.Receiving? && p.horiz == s.width && p.vert == s.height {
      var t := Take(s, p);
      var o := Dispatch(t, p);
      DispatchNumbers(t, p);
      if o.complete {
        StepComplete(s, p, o.state);
      } else {
        StepIncomplete(s, p, o.state);
      }
    }
  }

  lemma {:induction false} NextReport(s: Receiver, ps: seq<Packet>)
    requires s.Valid() && !s.firstPacket && forall p :: p in ps ==> Received(p, s.width)
    ensures Run(s, ps).1 != [] ==> Run(s, ps).1[0].frame == s.frame
    decreases |ps|
  {
    if |ps| > 0 {
      StepNumbers(s, ps[0]);
      NextReport(Step(s, ps[0]).0, ps[1..]);
    }
  }

  /** The first report of all has the number of the first packet. */
  lemma FirstReport(s: Receiver, ps: seq<Packet>)
    requires s.Valid() && s.firstPacket && |ps| > 0 && forall p :: p in ps ==> Received(p, s.width)
    ensures Run(s, ps).1 != [] ==> Run(s, ps).1[0].frame == ps[0].frame
  {
    StepNumbers(s, ps[0]);
    var t := Step(s, ps[0]).0;
    if t.status.Receiving? && !t.firstPacket {
      NextReport(t, ps[1..]);
    } else {
      StoppedIsSilent(t, ps[1..]);
    }
  }

  /** The end of frame came, and its number is followed by this one; all 32 bits count. */
  predicate Follows(p: Packet, number: nat) {
    p.line == 0xFFFF && number == (p.frame + 1) % 0x1_0000_0000
  }

  /** The packet revealed a lost end of frame, and this is its number, exactly if that does not end in 0xFFFF. */
  predicate Reveals(p: Packet, number: nat) {
    SameFrame(number, p.frame) && (number == p.frame <==> ExactNumber(p.frame))
  }

  /** Some packet of the run, the end of frame or the one that revealed that it was lost, gives the next reported number. */
  ghost predicate InStep(r: Report, next: Report, ps: seq<Packet>) {
    if r.eof then SameFrame(next.frame, r.frame + 1) && exists p :: p in ps && Follows(p, next.frame)
    else !SameFrame(next.frame, r.frame) && exists p :: p in ps && Reveals(p, next.frame)
  }

  ghost predicate InStepAt(rs: seq<Report>, i: nat, ps: seq<Packet>)
    requires 0 < i < |rs|
  {
    InStep(rs[i - 1], rs[i], ps)
  }

  lemma InStepMore(r: Report, next: Report, p: Packet, ps: seq<Packet>)
    requires InStep(r, next, ps)
    ensures InStep(r, next, [p] + ps)
  {
  }

  lemma FirstInStep(r: Report, next: Report, p: Packet, ps: seq<Packet>, frame: nat)
    requires Advances(r, p, frame) && next.frame == frame && p in ps
    ensures InStep(r, next, ps)
  {
  }

  ghost predicate AllInStep(rs: seq<Report>, ps: seq<Packet>) {
    forall i :: 0 < i < |rs| ==> InStepAt(rs, i, ps)
  }

  lemma AllInStepCons(r: seq<Report>, later: seq<Report>, p: Packet, rest: seq<Packet>, frame: nat)
    requires |r| <= 1 && AllInStep(later, rest)
    requires r != [] ==> Advances(r[0], p, frame)
    requires r != [] && later != [] ==> later[0].frame == frame
    ensures AllInStep(r + later, [p] + rest)
  {
    var rs, ps := r + later, [p] + rest;
    forall i | 0 < i < |rs| ensures InStepAt(rs, i, ps) {
      var j := i - |r|;
      if j > 0 {
        assert InStepAt(later, j, rest);
        InStepMore(later[j - 1], later[j], p, rest);
      } else {
        FirstInStep(rs[0], rs[1], p, ps, frame);
      }
    }
  }

  /** After an end of frame the reported number advances by one, after a lost one to that of a later packet. */
  lemma {:induction false} ReportsInStep(s: Receiver, ps: seq<Packet>)
    requires s.Valid() && forall p :: p in ps ==> Received(p, s.width)
    ensures AllInStep(Run(s, ps).1, ps)
    decreases |ps|
  {
    if |ps| > 0 {
      var p, rest := ps[0], ps[1..];
      var (s1, r1) := Step(s, p);
      StepNumbers(s, p);
      ReportsInStep(s1, rest);
      if r1 != [] {
        NextReport(s1, rest);
      }
      AllInStepCons(r1, Run(s1, rest).1, p, rest, s1.frame);
      assert ps == [p] + rest;
    }
  }
}
