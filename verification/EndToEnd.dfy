/**
 Camera, channel and receiver together: pixels go in at one end, some of the packets get through, and the frame handler
 is called at the other.
 */
module EndToEnd {
  import opened VideoPackets
  import opened VideoReceiver
  import opened VideoRecovery
  import opened VideoStream
  import VideoSender
  import VideoSocket

  /** The pixels of a frame, the data of its end, and which of its packets get through. */
  datatype Shot = Shot(pixels: seq<VideoSender.PixelPair>, tail: Row, keep: seq<bool>, xorKept: bool, eofKept: bool)

  predicate Fits(shot: Shot, cols: nat, rows: nat) {
    |shot.pixels| == rows * (cols / 2) && |shot.tail| == cols && |shot.keep| == rows
  }

  /** A size that the camera sends whole lines of and both sides can hold. */
  predicate GoodSize(cols: nat, rows: nat) {
    cols % 4 == 0 && 8 <= cols <= 2 * VideoSender.XOR_RAM_WORDS && 0 < rows <= 0x400
  }

  function FrameOf(n: nat, shot: Shot, cols: nat, rows: nat): (fr: Frame)
    requires GoodSize(cols, rows) && Fits(shot, cols, rows)
    ensures Shaped(fr.sending, cols)
  {
    Frame(n % FRAME_MODULUS,
          Sending(VideoSender.Image(shot.pixels, cols / 2, rows), shot.keep, shot.xorKept, shot.tail), shot.eofKept)
  }

  function FramesOf(shots: seq<Shot>, cols: nat, rows: nat): (fs: seq<Frame>)
    requires GoodSize(cols, rows) && forall i :: 0 <= i < |shots| ==> Fits(shots[i], cols, rows)
    ensures |fs| == |shots| && Shapes(fs, cols)
    ensures forall i :: 0 <= i < |fs| ==> fs[i] == FrameOf(i, shots[i], cols, rows)
  {
    seq(|shots|, i requires 0 <= i < |shots| => FrameOf(i, shots[i], cols, rows))
  }

  lemma SentAllSnoc(fs: seq<Frame>, i: nat, width: nat)
    requires Shapes(fs, width) && i < |fs|
    ensures Shapes(fs[..i], width) && Shapes(fs[..i + 1], width) && Shaped(fs[i].sending, width)
    ensures SentAll(fs[..i + 1], width) == SentAll(fs[..i], width) + Sent(fs[i].number, fs[i].sending, width)
  {
    assert fs[..i + 1][..i] == fs[..i] && fs[..i + 1][i] == fs[i];
  }

  /** One frame through the camera. */
  method Shoot(camera: VideoSender.Camera, shot: Shot)
    requires camera.Valid() && GoodSize(camera.cols, camera.rows) && Fits(shot, camera.cols, camera.rows) && camera.fifo == []
    modifies camera, camera.ram
    ensures camera.Valid() && camera.fifo == [] && camera.frameNumber == (old(camera.frameNumber) + 1) % FRAME_MODULUS
    ensures camera.wire == old(camera.wire)
                           + Sent(old(camera.frameNumber), FrameOf(0, shot, camera.cols, camera.rows).sending, camera.cols)
  {
    ghost var f, base := camera.frameNumber, camera.wire;
    camera.StartFrame(shot.pixels);
    assert shot.pixels[0..|shot.pixels|] == shot.pixels;
    camera.PixelsArrive(shot.pixels, shot.pixels, 0, f, base);
    camera.Capture(shot.tail, shot.pixels, |shot.pixels|, f, base);
    ghost var image := camera.Pixels(shot.pixels);
    assert camera.wire == base + (Lines(f, image, camera.cols) + [XorPacket(f, image, camera.cols)]
                                  + [EofPacket(f, image, camera.cols, shot.tail)]);
  }

  lemma NextNumber(i: nat)
    ensures (i % FRAME_MODULUS + 1) % FRAME_MODULUS == (i + 1) % FRAME_MODULUS
  {
  }

  /** All that the camera puts on the wire. */
  method Film(cols: nat, rows: nat, shots: seq<Shot>) returns (wire: seq<Packet>)
    requires GoodSize(cols, rows) && forall i :: 0 <= i < |shots| ==> Fits(shots[i], cols, rows)
    ensures wire == SentAll(FramesOf(shots, cols, rows), cols)
  {
    VideoSender.WholeLine(cols);
    var camera := new VideoSender.Camera(cols, rows);
    ghost var fs := FramesOf(shots, cols, rows);
    var i := 0;
    while i < |shots|
      invariant i <= |shots| && fresh(camera) && fresh(camera.ram) && camera.Valid() && camera.fifo == []
      invariant camera.cols == cols && camera.rows == rows && camera.frameNumber == i % FRAME_MODULUS
      invariant Shapes(fs[..i], cols) && camera.wire == SentAll(fs[..i], cols)
    {
      SentAllSnoc(fs, i, cols);
      NextNumber(i);
      assert fs[i] == FrameOf(i, shots[i], cols, rows);
      Shoot(camera, shots[i]);
      i := i + 1;
    }
    assert fs[..i] == fs;
    wire := camera.wire;
  }

  lemma {:induction false} SkipBegun(fs: seq<Frame>, width: nat, height: nat)
    requires Shapes(fs, width) && Consecutive(fs, width, height)
    ensures Consecutive(Begun(fs, width), width, height)
    decreases |fs|
  {
    if |fs| > 0 && Packets(fs[0], width) == [] {
      var rest := fs[1..];
      forall i | 0 < i < |rest|
        ensures SameFrame(rest[i - 1].number + 1, rest[i].number)
      {
        assert rest[i - 1] == fs[i] && rest[i] == fs[i + 1];
      }
      SkipBegun(rest, width, height);
    }
  }

  lemma SameNext(a: nat, b: nat, i: nat)
    requires i > 0 && a == (i - 1) % FRAME_MODULUS && b == i % FRAME_MODULUS
    ensures SameFrame(a + 1, b)
  {
    NextNumber(i - 1);
  }

  lemma FrameProper(n: nat, shot: Shot, cols: nat, rows: nat)
    requires GoodSize(cols, rows) && Fits(shot, cols, rows)
    ensures ProperFrame(FrameOf(n, shot, cols, rows), cols, rows)
  {
  }

  lemma FilmedInOrder(shots: seq<Shot>, cols: nat, rows: nat)
    requires GoodSize(cols, rows) && forall i :: 0 <= i < |shots| ==> Fits(shots[i], cols, rows)
    ensures Consecutive(FramesOf(shots, cols, rows), cols, rows)
  {
    var fs := FramesOf(shots, cols, rows);
    forall i | 0 < i < |fs|
      ensures SameFrame(fs[i - 1].number + 1, fs[i].number)
    {
      SameNext(fs[i - 1].number, fs[i].number, i);
    }
    forall i | 0 <= i < |fs|
      ensures ProperFrame(fs[i], cols, rows)
    {
      FrameProper(i, shots[i], cols, rows);
    }
  }

  /**
   The whole way: whatever the camera films and whichever packets the channel drops, the handler gets exactly the reports
   that are due.
   */
  method Session(cols: nat, rows: nat, shots: seq<Shot>, garbage: Packet) returns (reports: seq<Report>)
    requires GoodSize(cols, rows) && forall i :: 0 <= i < |shots| ==> Fits(shots[i], cols, rows)
    requires |garbage.data| == cols && garbage.frame < FRAME_MODULUS
    requires ToldApart(Expected, Begun(FramesOf(shots, cols, rows), cols))
    ensures AllMet(reports, Dues(Expected, Begun(FramesOf(shots, cols, rows), cols)), cols)
  {
    var wire := Film(cols, rows, shots);
    var fs := FramesOf(shots, cols, rows);
    StreamIsDelivered(fs, cols);
    FilmedInOrder(shots, cols, rows);
    SkipBegun(fs, cols, rows);
    var arrived := Deliver(wire, Kept(fs));
    var socket := new VideoSocket.VideoSocket(cols, rows, garbage);
    StreamFromStart(fs, cols, rows, garbage, socket.xorline[..]);
    reports := socket.Receive(arrived);
  }
}
