/**
 wge100VidReceiveSocket itself: nested loops over an in-place frame buffer. Packet arrival is a
 sequence of packets and the frame handler is the list of reports; the result is the run of the
 state machine in VideoReceiver.
 */
module VideoSocket {
  import opened VideoPackets
  import opened VideoReceiver

  // ---------------------------------------------------------------- rows of a flat buffer

  lemma RowFits(y: nat, width: nat, height: nat)
    requires y < height
    ensures 0 <= y * width <= y * width + width <= height * width
  {
    assert (y + 1) * width <= height * width;
  }

  function FlatRow(flat: seq<Byte>, width: nat, height: nat, y: nat): (r: Row)
    requires |flat| == height * width && y < height
    ensures |r| == width
  {
    RowFits(y, width, height);
    flat[y * width..y * width + width]
  }

  function Rows(flat: seq<Byte>, width: nat, height: nat): (r: seq<Row>)
    requires |flat| == height * width
    ensures |r| == height && Rectangular(r, width)
  {
    seq(height, y requires 0 <= y < height => FlatRow(flat, width, height, y))
  }

  lemma RowsApart(y: nat, z: nat, width: nat, i: nat)
    requires y != z && i < width
    ensures !(y * width <= z * width + i < y * width + width)
  {
    if z < y {
      RowFits(z, width, y);
    } else {
      RowFits(y, width, z);
    }
  }

  /** Writing only inside row y replaces that row and no other. */
  lemma RowReplaced(flat: seq<Byte>, flat': seq<Byte>, width: nat, height: nat, y: nat, data: Row)
    requires |flat| == |flat'| == height * width && y < height && |data| == width
    requires FlatRow(flat', width, height, y) == data
    requires forall k :: 0 <= k < |flat| && !(y * width <= k < y * width + width) ==> flat'[k] == flat[k]
    ensures Rows(flat', width, height) == Rows(flat, width, height)[y := data]
  {
    forall z | 0 <= z < height && z != y
      ensures FlatRow(flat', width, height, z) == FlatRow(flat, width, height, z)
    {
      RowFits(z, width, height);
      forall i | 0 <= i < width
        ensures FlatRow(flat', width, height, z)[i] == FlatRow(flat, width, height, z)[i]
      {
        RowsApart(y, z, width, i);
      }
    }
  }

  class VideoSocket {
    const width: nat
    const height: nat
    const frameBuf: array<Byte>
    const xorline: array<Byte>
    var firstPacket: bool
    var eof: bool
    var last: Packet
    var frame: nat
    var lineCount: nat
    var lastMissing: int
    var missing: nat
    var hasXor: bool
    var status: Status

    ghost predicate Valid()
      reads this, frameBuf, xorline
    {
      frameBuf.Length == height * width && xorline.Length == width && frameBuf != xorline && State().Valid()
    }

    ghost function State(): Receiver
      reads this, frameBuf, xorline
      requires frameBuf.Length == height * width
    {
      Receiver(width, height, firstPacket, eof, last, frame, Rows(frameBuf[..], width, height),
               lineCount, lastMissing, missing, hasXor, xorline[..], status)
    }

    ghost function Buffer(): (r: seq<Row>)
      reads this, frameBuf
      requires frameBuf.Length == height * width
      ensures |r| == height && Rectangular(r, width)
    {
      Rows(frameBuf[..], width, height)
    }

    /** The buffers come from malloc, so their contents are arbitrary. */
    constructor (w: nat, h: nat, garbage: Packet)
      requires |garbage.data| == w && garbage.frame < FRAME_MODULUS
      ensures Valid() && fresh(frameBuf) && fresh(xorline) && width == w && height == h
      ensures firstPacket && !eof && last == garbage && status == Receiving
    {
      width, height := w, h;
      frameBuf := new Byte[h * w];
      xorline := new Byte[w];
      firstPacket, eof, last, frame := true, false, garbage, 0;
      lineCount, lastMissing, missing, hasXor, status := 0, -1, 0, false, Receiving;
    }

    /** memcpy of the packet data into row y. */
    method CopyRow(y: nat, data: Row)
      requires frameBuf.Length == height * width && y < height && |data| == width
      modifies frameBuf
      ensures Buffer() == old(Buffer())[y := data]
    {
      RowFits(y, width, height);
      ghost var before := frameBuf[..];
      forall i | 0 <= i < width {
        frameBuf[y * width + i] := data[i];
      }
      assert FlatRow(frameBuf[..], width, height, y) == data;
      RowReplaced(before, frameBuf[..], width, height, y, data);
    }

    method StoreRow(y: nat, data: Row)
      requires Valid() && y < height && |data| == width
      modifies frameBuf
      ensures Valid() && State() == old(State()).(rows := old(State()).rows[y := data])
    {
      CopyRow(y, data);
    }

    /** Adds w bytes at offset src to the w bytes at offset dst. */
    method Xormem(dst: nat, src: nat, w: nat)
      requires dst + w <= frameBuf.Length && src + w <= frameBuf.Length
      requires dst + w <= src || src + w <= dst
      modifies frameBuf
      ensures forall i :: dst <= i < dst + w ==> frameBuf[i] == Xor(old(frameBuf[i]), old(frameBuf[src + i - dst]))
      ensures forall i :: 0 <= i < frameBuf.Length && !(dst <= i < dst + w) ==> frameBuf[i] == old(frameBuf[i])
    {
      var n := 0;
      while n < w
        invariant n <= w
        invariant forall i :: dst <= i < dst + n ==> frameBuf[i] == Xor(old(frameBuf[i]), old(frameBuf[src + i - dst]))
        invariant forall i :: 0 <= i < frameBuf.Length && !(dst <= i < dst + n) ==> frameBuf[i] == old(frameBuf[i])
      {
        frameBuf[dst + n] := Xor(frameBuf[dst + n], frameBuf[src + n]);
        n := n + 1;
      }
    }

    /** Adds row y to the row under repair. */
    method AddRow(g: nat, y: nat)
      requires frameBuf.Length == height * width && g < height && y < height && g != y
      modifies frameBuf
      ensures Buffer() == old(Buffer())[g := XorRow(old(Buffer())[g], old(Buffer())[y])]
    {
      RowFits(g, width, height);
      RowFits(y, width, height);
      if y < g { RowFits(y, width, g); } else { RowFits(g, width, y); }
      ghost var before := frameBuf[..];
      ghost var sum := XorRow(FlatRow(before, width, height, g), FlatRow(before, width, height, y));
      Xormem(g * width, y * width, width);
      forall i | 0 <= i < width
        ensures FlatRow(frameBuf[..], width, height, g)[i] == sum[i]
      {
        assert frameBuf[g * width + i] == Xor(before[g * width + i], before[y * width + i]);
      }
      RowReplaced(before, frameBuf[..], width, height, g, sum);
    }

    /** One turn of the repair loop; acc is what row g holds so far. */
    method RepairWith(g: nat, y: nat, ghost rows: seq<Row>, ghost acc: Row) returns (ghost acc': Row)
      requires frameBuf.Length == height * width && g < height && y < height
      requires |rows| == height && Rectangular(rows, width) && |acc| == width && Buffer() == rows[g := acc]
      modifies frameBuf
      ensures |acc'| == width && Buffer() == rows[g := acc']
      ensures XorOthers(acc', rows, g, y + 1) == XorOthers(acc, rows, g, y)
    {
      RepairStep(rows, g, acc, y);
      acc' := acc;
      if y != g {
        AddRow(g, y);
        acc' := XorRow(acc, rows[y]);
      }
    }

    /** Row g becomes the xor line plus every other row. */
    method RepairRow(g: nat)
      requires frameBuf.Length == height * width && xorline.Length == width && frameBuf != xorline && g < height
      modifies frameBuf
      ensures Buffer() == old(Buffer())[g := XorOthers(xorline[..], old(Buffer()), g, 0)]
    {
      ghost var rows, x := Buffer(), xorline[..];
      ghost var acc: Row := x;
      CopyRow(g, xorline[..]);
      var y := 0;
      while y < height
        invariant y <= height && |acc| == width && xorline[..] == x
        invariant Buffer() == rows[g := acc]
        invariant XorOthers(acc, rows, g, y) == XorOthers(x, rows, g, 0)
      {
        acc := RepairWith(g, y, rows, acc);
        y := y + 1;
      }
    }

    method Repair()
      requires Valid() && 0 <= lastMissing < height
      modifies frameBuf
      ensures Valid()
      ensures State() == old(State()).(rows := old(State()).rows[lastMissing :=
                           XorOthers(old(State()).xorline, old(State()).rows, lastMissing, 0)])
    {
      RepairRow(lastMissing);
    }

    /** memcpy of the packet data into the xor line. */
    method StoreXorline(data: Row)
      requires Valid() && |data| == width
      modifies xorline
      ensures Valid() && State() == old(State()).(xorline := data)
    {
      forall i | 0 <= i < width {
        xorline[i] := data[i];
      }
      assert xorline[..] == data && frameBuf[..] == old(frameBuf[..]);
    }

    /** The head of the outer loop. */
    method StartFrame()
      requires Valid()
      modifies this, frameBuf
      ensures Valid() && State() == BeginFrame(old(State()))
    {
      ghost var start := State();
      BeginFrameValid(start);
      lineCount, lastMissing, missing, hasXor := 0, -1, 0, false;
      frame := (last.frame + 1) % FRAME_MODULUS;
      forall k | 0 <= k < frameBuf.Length {
        frameBuf[k] := 0;
      }
      BlankRows();
      if !eof && !firstPacket {
        ResynchronisedBound(frame, last.frame);
        if last.line < height {
          StoreRow(last.line, last.data);
          lineCount := lineCount + 1;
        }
        frame := Resynchronised(frame, last.frame);
      }
    }

    lemma BlankRows()
      requires frameBuf.Length == height * width && forall k :: 0 <= k < frameBuf.Length ==> frameBuf[k] == 0
      ensures Rows(frameBuf[..], width, height) == Blank(width, height)
    {
      forall y | 0 <= y < height
        ensures FlatRow(frameBuf[..], width, height, y) == ZeroRow(width)
      {
        RowFits(y, width, height);
      }
    }

    /** The end-of-frame branch of the inner loop. */
    method HandleEof() returns (complete: bool, short: bool)
      requires Valid() && eof
      modifies this, frameBuf
      ensures Valid() && State() == EndOfFrame(old(State())).state
      ensures complete == EndOfFrame(old(State())).complete && (complete ==> short == ShortFrame(State()))
    {
      EndOfFrameValid(State());
      complete, short := true, false;
      if lineCount != height {
        if height - lineCount == 1 && hasXor {
          if lastMissing < 0 {
            status, complete := OutOfBounds, false;
          } else {
            Repair();
          }
        } else {
          last := last.(line := LINENO_SHORT);
          missing := (height - lineCount) % 0x1_0000_0000_0000_0000;
          short := true;
        }
      }
    }

    /** The video-line branch of the inner loop. */
    method HandleLine(line: nat, data: Row)
      requires Valid() && |data| == width
      modifies this, frameBuf
      ensures Valid() && State() == OnLine(old(State()), line, data)
    {
      OnLineValid(State(), line, data);
      last := last.(line := line);
      if lineCount > height || line >= height {
        status := Stopped(0);
        return;
      }
      if lineCount + missing < line {
        var missedLines := line - lineCount - missing;
        lastMissing := line - 1;
        missing := missing + missedLines;
      }
      StoreRow(line, data);
      lineCount := lineCount + 1;
    }

    /** The branches of the inner loop, once the packet has been taken. */
    method Branch(p: Packet) returns (complete: bool, short: bool)
      requires Valid() && status == Receiving && Received(p, width)
      modifies this, frameBuf, xorline
      ensures Valid() && State() == Dispatch(old(State()), p).state
      ensures complete == Dispatch(old(State()), p).complete && (complete ==> short == ShortFrame(State()))
    {
      DispatchValid(State(), p);
      complete, short := false, false;
      if p.line == LINENO_ERR || p.line == LINENO_OVF {
        status := Stopped(p.line);
      } else if p.line == LINENO_ABORT {
        status := Stopped(0);
      } else if (p.frame - frame) % 0x1_0000 != 0 {
        complete, eof := true, false;
      } else if p.line == LINENO_XOR {
        StoreXorline(p.data);
        hasXor := true;
      } else if p.line == LINENO_EOF {
        eof := true;
        complete, short := HandleEof();
      } else {
        HandleLine(p.line % 0x400, p.data);
      }
    }

    /** The body of the inner loop. */
    method HandlePacket(p: Packet) returns (complete: bool, short: bool)
      requires Valid() && status == Receiving && Received(p, width)
      modifies this, frameBuf, xorline
      ensures Valid() && State() == OnPacket(old(State()), p).state
      ensures complete == OnPacket(old(State()), p).complete && (complete ==> short == ShortFrame(State()))
    {
      OnPacketValid(State(), p);
      complete, short := false, false;
      last := p;
      if p.horiz != width || p.vert != height {
        status := Stopped(1);
        return;
      }
      if firstPacket {
        firstPacket, frame := false, p.frame;
      }
      complete, short := Branch(p);
    }

    /** The nested loops. When the packets are used up the receiver waits, in the state described. */
    method Receive(packets: seq<Packet>) returns (reports: seq<Report>)
      requires Valid() && status == Receiving && firstPacket && !eof
      requires forall p :: p in packets ==> Received(p, width)
      modifies this, frameBuf, xorline
      ensures Valid()
      ensures (State(), reports) == Run(Start(width, height, old(last), old(xorline[..])), packets)
    {
      reports := [];
      ghost var start := Start(width, height, last, xorline[..]);
      var i := 0;
      StartFrame();
      while status == Receiving && i < |packets|
        invariant Valid() && i <= |packets|
        invariant (State(), reports) == Run(start, packets[..i])
        decreases |packets| - i
      {
        var frameComplete, short := false, false;
        while !frameComplete && status == Receiving && i < |packets|
          invariant Valid() && i <= |packets|
          invariant Progress(start, packets[..i], State(), reports, frameComplete)
          invariant frameComplete ==> short == ShortFrame(State())
          decreases |packets| - i
        {
          RunOneMore(start, packets, i, State(), reports);
          frameComplete, short := HandlePacket(packets[i]);
          i := i + 1;
        }
        if frameComplete {
          reports := reports + [Report(frame, Rows(frameBuf[..], width, height), lastMissing, missing, short, eof)];
          StartFrame();
        }
      }
      RunToEnd(start, packets, i, State(), reports);
    }
  }

  lemma RepairStep(rows: seq<Row>, g: nat, acc: Row, y: nat)
    requires Rectangular(rows, |acc|) && g < |rows| && y < |rows|
    ensures var now := rows[g := acc];
            g != y ==> now[g := XorRow(now[g], now[y])] == rows[g := XorRow(acc, rows[y])]
    ensures XorOthers(acc, rows, g, y) == XorOthers(if y == g then acc else XorRow(acc, rows[y]), rows, g, y + 1)
  {
  }

  /** Where the inner loop stands: the frame handler is still to be called if the frame is complete. */
  ghost predicate Progress(start: Receiver, ps: seq<Packet>, s: Receiver, reports: seq<Report>, complete: bool)
    requires start.Valid() && s.Valid() && forall p :: p in ps ==> Received(p, start.width)
  {
    Run(start, ps) == if complete then (BeginFrame(s), reports + [ReportOf(s)]) else (s, reports)
  }

  lemma {:induction false} RunOneMore(start: Receiver, ps: seq<Packet>, i: nat, s: Receiver, reports: seq<Report>)
    requires start.Valid() && i < |ps| && (forall p :: p in ps ==> Received(p, start.width))
    requires Run(start, ps[..i]) == (s, reports) && s.status.Receiving?
    ensures OnPacket(s, ps[i]).state.Valid()
    ensures Progress(start, ps[..i + 1], OnPacket(s, ps[i]).state, reports, OnPacket(s, ps[i]).complete)
  {
    var p := ps[i];
    assert ps[..i + 1] == ps[..i] + [p];
    RunAppend(start, ps[..i], [p]);
    OnPacketValid(s, p);
    assert [p][1..] == [];
    assert Step(s, p).1 + [] == Step(s, p).1 && reports + [] == reports;
  }

  lemma SplitAt<T>(a: seq<T>, i: nat)
    requires i <= |a|
    ensures a == a[..i] + a[i..] && (i == |a| ==> a[i..] == [])
  {
  }

  lemma RunToEnd(start: Receiver, ps: seq<Packet>, i: nat, s: Receiver, reports: seq<Report>)
    requires start.Valid() && i <= |ps| && (forall p :: p in ps ==> Received(p, start.width))
    requires Run(start, ps[..i]) == (s, reports) && (s.status.Receiving? ==> i == |ps|)
    ensures Run(start, ps) == (s, reports)
  {
    SplitAt(ps, i);
    var before, after := ps[..i], ps[i..];
    RunRest(start, before, after, ps, s, reports);
  }

  lemma RunRest(start: Receiver, ps: seq<Packet>, qs: seq<Packet>, all: seq<Packet>, s: Receiver, reports: seq<Report>)
    requires start.Valid() && all == ps + qs && (forall p :: p in all ==> Received(p, start.width))
    requires Run(start, ps) == (s, reports) && (s.status.Receiving? ==> qs == [])
    ensures Run(start, all) == (s, reports)
  {
    if qs == [] {
      assert all == ps;
    } else {
      RunAppend(start, ps, qs);
      StoppedIsSilent(s, qs);
    }
    assert reports + [] == reports;
  }
}
