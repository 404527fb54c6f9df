/**
 The camera side of the video protocol: lines taken from the pixel FIFO and sent while the xor RAM
 accumulates them, then the xor line and the end-of-frame packet.
 */
module VideoSender {
  import opened VideoPackets
  import VideoRecovery

  type PixelPair = bv16

  const XOR_RAM_WORDS := 1024

  // ---------------------------------------------------------------- words and bytes

  function XorPair(a: PixelPair, b: PixelPair): PixelPair { a ^ b }
  function High(w: PixelPair): Byte { (w >> 8) as Byte }
  function Low(w: PixelPair): Byte { (w & 0xff) as Byte }

  lemma XorPairZero(a: PixelPair, z: PixelPair)
    requires z == 0
    ensures XorPair(a, a) == z && High(z) == 0 && Low(z) == 0
  {
  }

  function ByteAt(words: seq<PixelPair>, j: nat): Byte
    requires j < 2 * |words|
  {
    if j % 2 == 0 then High(words[j / 2]) else Low(words[j / 2])
  }

  /** Words go onto the wire high byte first. */
  function Bytes(words: seq<PixelPair>): (r: Row)
    ensures |r| == 2 * |words|
    ensures forall j :: 0 <= j < |r| ==> r[j] == ByteAt(words, j)
  {
    seq(2 * |words|, j requires 0 <= j < 2 * |words| => ByteAt(words, j))
  }

  function XorPairs(a: seq<PixelPair>, b: seq<PixelPair>): (r: seq<PixelPair>)
    requires |a| == |b|
    ensures |r| == |a|
  {
    seq(|a|, i requires 0 <= i < |a| => XorPair(a[i], b[i]))
  }

  lemma XorPairBytes(x: PixelPair, y: PixelPair)
    ensures High(XorPair(x, y)) == Xor(High(x), High(y)) && Low(XorPair(x, y)) == Xor(Low(x), Low(y))
  {
  }

  lemma ByteOfXorPairs(a: seq<PixelPair>, b: seq<PixelPair>, j: nat)
    requires |a| == |b| && j < 2 * |a|
    ensures ByteAt(XorPairs(a, b), j) == Xor(ByteAt(a, j), ByteAt(b, j))
  {
    XorPairBytes(a[j / 2], b[j / 2]);
    assert XorPairs(a, b)[j / 2] == XorPair(a[j / 2], b[j / 2]);
  }

  lemma BytesOfXorPairs(a: seq<PixelPair>, b: seq<PixelPair>)
    requires |a| == |b|
    ensures Bytes(XorPairs(a, b)) == XorRow(Bytes(a), Bytes(b))
  {
    forall j | 0 <= j < 2 * |a|
      ensures Bytes(XorPairs(a, b))[j] == XorRow(Bytes(a), Bytes(b))[j]
    {
      ByteOfXorPairs(a, b, j);
    }
  }

  function Zeros(n: nat): (r: seq<PixelPair>)
    ensures |r| == n
  {
    seq(n, _ => 0)
  }

  lemma BytesOfZeros(n: nat)
    ensures Bytes(Zeros(n)) == ZeroRow(2 * n)
  {
  }

  // ---------------------------------------------------------------- the image in the pixel stream

  lemma LineFits(y: nat, n: nat, lines: nat)
    requires y < lines
    ensures 0 <= y * n && (y + 1) * n == y * n + n <= lines * n
  {
  }

  /** Line y of a stream of lines of n words each. */
  function Line(stream: seq<PixelPair>, n: nat, lines: nat, y: nat): (r: seq<PixelPair>)
    requires |stream| == lines * n && y < lines
    ensures |r| == n
  {
    LineFits(y, n, lines);
    stream[y * n..(y + 1) * n]
  }

  function Image(stream: seq<PixelPair>, n: nat, lines: nat): (r: seq<Row>)
    requires |stream| == lines * n
    ensures |r| == lines && Rectangular(r, 2 * n)
  {
    seq(lines, y requires 0 <= y < lines => Bytes(Line(stream, n, lines, y)))
  }

  lemma HalvesJoined(w: PixelPair)
    ensures ((High(w) as bv16) << 8) | (Low(w) as bv16) == w
  {
  }

  /** Pixel pair i of line y is sent with the pixel in its upper half first. */
  lemma PixelOrder(stream: seq<PixelPair>, n: nat, lines: nat, y: nat, i: nat)
    requires |stream| == lines * n && y < lines && i < n
    ensures var row := Image(stream, n, lines)[y];
      && y * n + i < |stream| && |row| == 2 * n
      && stream[y * n + i] == ((row[2 * i] as bv16) << 8) | (row[2 * i + 1] as bv16)
  {
    LineFits(y, n, lines);
    var line := Line(stream, n, lines, y);
    assert line[i] == stream[y * n + i];
    assert Bytes(line)[2 * i] == ByteAt(line, 2 * i) && Bytes(line)[2 * i + 1] == ByteAt(line, 2 * i + 1);
    HalvesJoined(line[i]);
  }

  /** What the xor RAM accumulates over the first k lines. */
  function XorLines(stream: seq<PixelPair>, n: nat, lines: nat, k: nat): (r: seq<PixelPair>)
    requires |stream| == lines * n && k <= lines
    ensures |r| == n
  {
    if k == 0 then Zeros(n) else XorPairs(XorLines(stream, n, lines, k - 1), Line(stream, n, lines, k - 1))
  }

  lemma {:induction false} XorLinesIsXorAll(stream: seq<PixelPair>, n: nat, lines: nat, k: nat)
    requires |stream| == lines * n && k <= lines
    ensures Bytes(XorLines(stream, n, lines, k)) == XorAll(Image(stream, n, lines)[..k], 2 * n)
  {
    if k == 0 {
      BytesOfZeros(n);
    } else {
      XorLinesIsXorAll(stream, n, lines, k - 1);
      BytesOfXorPairs(XorLines(stream, n, lines, k - 1), Line(stream, n, lines, k - 1));
      assert Image(stream, n, lines)[..k][..k - 1] == Image(stream, n, lines)[..k - 1];
    }
  }

  /** After the last line the packet read back from the RAM is the xor packet of the frame. */
  lemma RamIsXorPacket(words: seq<PixelPair>, stream: seq<PixelPair>, n: nat, lines: nat, f: nat)
    requires |stream| == lines * n && words == XorLines(stream, n, lines, lines)
    ensures Packet(f, LINENO_XOR, 2 * n, lines, Bytes(words)) == VideoRecovery.XorPacket(f, Image(stream, n, lines), 2 * n)
  {
    XorLinesIsXorAll(stream, n, lines, lines);
    assert Image(stream, n, lines)[..lines] == Image(stream, n, lines);
  }

  // ---------------------------------------------------------------- how many words a line packet carries

  /** The number of words that sendline takes: one, then pairs counted down to zero, then one. */
  function WordsSent(cols: nat): (n: nat)
    requires cols >= 2
  {
    2 + 2 * ((cols - 2) / 4)
  }

  lemma WholeLine(cols: nat)
    requires cols >= 6 && cols % 4 == 0
    ensures WordsSent(cols) == cols / 2
  {
  }

  /** A line packet carries exactly the line for even widths that are a multiple of four, and for no other. */
  lemma WordsSentIffMultipleOfFour(cols: nat)
    requires cols >= 6 && cols % 2 == 0
    ensures 2 * WordsSent(cols) == cols <==> cols % 4 == 0
  {
  }

  class Camera {
    const cols: nat
    const rows: nat
    const ram: array<PixelPair>     // the xor RAM
    var xorAddr: nat
    var frameNumber: nat
    var lineNumber: int             // -1 means not in a frame
    var fifo: seq<PixelPair>        // the pixel FIFO and its output register
    var pixel: PixelPair
    var wire: seq<Packet>           // everything sent so far

    /** The loop in sendline counts down from one or more, and the RAM holds what it sends. */
    ghost predicate Valid()
      reads this
    {
      && cols % 2 == 0 && 6 <= cols && WordsSent(cols) <= XOR_RAM_WORDS && 0 < rows <= 0x400
      && ram.Length == XOR_RAM_WORDS && frameNumber < FRAME_MODULUS && -1 <= lineNumber < rows
    }

    constructor (c: nat, r: nat)
      requires c % 2 == 0 && 6 <= c && WordsSent(c) <= XOR_RAM_WORDS && 0 < r <= 0x400
      ensures Valid() && cols == c && rows == r && lineNumber == -1 && frameNumber == 0 && fifo == [] && wire == []
      ensures fresh(ram)
    {
      cols, rows := c, r;
      ram := new PixelPair[XOR_RAM_WORDS];
      xorAddr, frameNumber, lineNumber, fifo, pixel, wire := 0, 0, -1, [], 0, [];
    }

    /** A write to xorline_w: the word is xored into the RAM and the pointer bumped. */
    method XorlineWrite(w: PixelPair)
      requires ram.Length == XOR_RAM_WORDS && xorAddr < XOR_RAM_WORDS
      modifies this`xorAddr, ram
      ensures ram[..] == old(ram[..])[old(xorAddr) := XorPair(old(ram[xorAddr]), w)] && xorAddr == old(xorAddr) + 1
    {
      ram[xorAddr % XOR_RAM_WORDS] := XorPair(ram[xorAddr % XOR_RAM_WORDS], w);
      xorAddr := (xorAddr + 1) % 0x1_0000;
    }

    /** Erases by reading each word and writing it back into itself. */
    method XorlineErase()
      requires Valid()
      modifies this`xorAddr, ram
      ensures Valid() && ram[..cols / 2] == Zeros(cols / 2)
    {
      xorAddr := 0;
      var i := 0;
      while i < cols / 2
        invariant i <= cols / 2 && xorAddr == i
        invariant forall k :: 0 <= k < i ==> ram[k] == 0
      {
        XorPairZero(ram[i], 0);
        XorlineWrite(ram[i]);
        i := i + 1;
      }
    }

    /** pixfifo_clock: the next pixel pair goes to the output register. */
    method PixelClock()
      requires fifo != []
      modifies this`fifo, this`pixel
      ensures pixel == old(fifo)[0] && fifo == old(fifo)[1..]
    {
      pixel, fifo := fifo[0], fifo[1..];
    }

    /** What sendline has done after w words of a line: the first w words of the FIFO sent and summed. */
    ghost predicate Summed(line: seq<PixelPair>, before: seq<PixelPair>, w: nat)
      reads ram
      requires w <= |line| <= |before| == ram.Length
    {
      forall i :: 0 <= i < ram.Length ==> ram[i] == if i < w then XorPair(before[i], line[i]) else before[i]
    }

    /** Reads the output register, appends the word to the packet and xors it into the RAM. */
    method SendWord(words: seq<PixelPair>, ghost line: seq<PixelPair>, ghost before: seq<PixelPair>)
        returns (words': seq<PixelPair>)
      requires ram.Length == XOR_RAM_WORDS == |before| && xorAddr < |line| <= XOR_RAM_WORDS
      requires Summed(line, before, xorAddr) && pixel == line[xorAddr] && |words| == xorAddr && words <= line
      modifies this`xorAddr, ram
      ensures |words'| == xorAddr == old(xorAddr) + 1 && words' <= line && Summed(line, before, xorAddr)
    {
      words' := words + [pixel];
      XorlineWrite(pixel);
    }

    /** The same, with the FIFO advanced behind it; rest is what the FIFO held when the line began. */
    method SendAndClock(words: seq<PixelPair>, ghost line: seq<PixelPair>, ghost before: seq<PixelPair>,
                        ghost rest: seq<PixelPair>) returns (words': seq<PixelPair>)
      requires ram.Length == XOR_RAM_WORDS == |before| && xorAddr < |line| <= XOR_RAM_WORDS && line <= rest
      requires Summed(line, before, xorAddr) && pixel == line[xorAddr] && |words| == xorAddr && words <= line
      requires xorAddr + 1 < |rest| && fifo == rest[xorAddr + 1..]
      modifies this`xorAddr, this`fifo, this`pixel, ram
      ensures |words'| == xorAddr == old(xorAddr) + 1 && words' <= line && Summed(line, before, xorAddr)
      ensures pixel == rest[xorAddr] && fifo == rest[xorAddr + 1..]
    {
      words' := SendWord(words, line, before);
      PixelClock();
    }

    /** Sends one line: the words of the packet are the next ones of the FIFO, as many as the counted loop takes. */
    method SendLine() returns (words: seq<PixelPair>)
      requires Valid() && |fifo| >= WordsSent(cols)
      modifies this`xorAddr, this`fifo, this`pixel, ram
      ensures Valid() && |words| == WordsSent(cols)
      ensures words == old(fifo)[..WordsSent(cols)] && fifo == old(fifo)[WordsSent(cols)..]
      ensures ram[..WordsSent(cols)] == XorPairs(old(ram[..WordsSent(cols)]), words)
    {
      ghost var n := WordsSent(cols);
      ghost var line, rest, before := fifo[..n], fifo, ram[..];
      xorAddr := 0;
      var loopcount := (cols - 2) / 4;
      PixelClock();
      words := SendAndClock([], line, before, rest);
      while loopcount != 0
        invariant 0 <= loopcount && xorAddr == |words| == n - 1 - 2 * loopcount
        invariant words <= line
        invariant fifo == rest[xorAddr + 1..] && pixel == rest[xorAddr]
        invariant Summed(line, before, xorAddr)
        decreases loopcount
      {
        words := SendAndClock(words, line, before, rest);
        words := SendAndClock(words, line, before, rest);
        loopcount := loopcount - 1;
      }
      words := SendWord(words, line, before);
    }

    // -------------------------------------------------------------- frames

    ghost function Pixels(stream: seq<PixelPair>): (r: seq<Row>)
      requires |stream| == rows * (cols / 2)
      ensures |r| == rows
    {
      Image(stream, cols / 2, rows)
    }

    /**
     In the middle of frame f, of which the first arrived words have come from the imager: whole
     lines are on the wire and summed in the RAM, the rest waits in the FIFO.
     */
    ghost predicate InFrame(stream: seq<PixelPair>, arrived: nat, f: nat, base: seq<Packet>)
      reads this, ram
    {
      && Valid() && cols % 4 == 0 && 0 <= lineNumber && frameNumber == f
      && |stream| == rows * (cols / 2) && lineNumber * (cols / 2) <= arrived <= |stream|
      && fifo == stream[lineNumber * (cols / 2)..arrived]
      && wire == base + VideoRecovery.Lines(f, Pixels(stream), cols)[..lineNumber]
      && ram[..cols / 2] == XorLines(stream, cols / 2, rows, lineNumber)
    }

    /** All of frame f is on the wire. */
    ghost predicate FrameSent(stream: seq<PixelPair>, f: nat, base: seq<Packet>, tail: Row)
      reads this
    {
      && Valid() && cols % 4 == 0 && lineNumber == -1 && frameNumber == (f + 1) % FRAME_MODULUS && fifo == []
      && |stream| == rows * (cols / 2) && Rectangular(Pixels(stream), cols)
      && wire == base + VideoRecovery.Lines(f, Pixels(stream), cols)
                      + [VideoRecovery.XorPacket(f, Pixels(stream), cols)]
                      + [VideoRecovery.EofPacket(f, Pixels(stream), cols, tail)]
    }

    /** frame_valid rises: the first line is expected and the RAM is erased. */
    method StartFrame(ghost stream: seq<PixelPair>)
      requires Valid() && cols % 4 == 0 && fifo == [] && |stream| == rows * (cols / 2)
      modifies this`lineNumber, this`xorAddr, ram
      ensures InFrame(stream, 0, frameNumber, wire)
    {
      lineNumber := 0;
      XorlineErase();
      assert wire + [] == wire;
    }

    /** The imager delivers more pixels of the frame. */
    method PixelsArrive(words: seq<PixelPair>, ghost stream: seq<PixelPair>, ghost arrived: nat,
                        ghost f: nat, ghost base: seq<Packet>)
      requires InFrame(stream, arrived, f, base)
      requires arrived + |words| <= |stream| && words == stream[arrived..arrived + |words|]
      modifies this`fifo
      ensures InFrame(stream, arrived + |words|, f, base)
    {
      fifo := fifo + words;
    }

    /** One more line goes out. */
    method CaptureLine(ghost stream: seq<PixelPair>, ghost arrived: nat, ghost f: nat, ghost base: seq<Packet>)
      requires InFrame(stream, arrived, f, base) && 2 * |fifo| >= cols
      modifies this`wire, this`xorAddr, this`fifo, this`pixel, ram
      ensures Valid() && (lineNumber + 1) * (cols / 2) <= arrived
      ensures fifo == stream[(lineNumber + 1) * (cols / 2)..arrived]
      ensures wire == base + VideoRecovery.Lines(f, Pixels(stream), cols)[..lineNumber + 1]
      ensures ram[..cols / 2] == XorLines(stream, cols / 2, rows, lineNumber + 1)
    {
      var n := cols / 2;
      LineFits(lineNumber, n, rows);
      WholeLine(cols);
      var words := SendLine();
      assert words == Line(stream, n, rows, lineNumber);
      wire := wire + [Packet(frameNumber, lineNumber, cols, rows, Bytes(words))];
      var lines := VideoRecovery.Lines(f, Pixels(stream), cols);
      assert lines[..lineNumber + 1] == lines[..lineNumber] + [lines[lineNumber]];
    }

    /** The xor line read back from the RAM, the end of frame, and the next frame number. */
    method FinishFrame(tail: Row)
      requires Valid() && |tail| == cols
      modifies this`wire, this`lineNumber, this`frameNumber
      ensures Valid() && lineNumber == -1 && frameNumber == (old(frameNumber) + 1) % FRAME_MODULUS
      ensures wire == old(wire) + [Packet(old(frameNumber), LINENO_XOR, cols, rows, Bytes(ram[..cols / 2]))]
                                + [Packet(old(frameNumber), LINENO_EOF, cols, rows, tail)]
    {
      wire := wire + [Packet(frameNumber, LINENO_XOR, cols, rows, Bytes(ram[..cols / 2]))];
      wire := wire + [Packet(frameNumber, LINENO_EOF, cols, rows, tail)];
      lineNumber, frameNumber := -1, (frameNumber + 1) % FRAME_MODULUS;
    }

    /** One turn of the loop in capture. */
    method CaptureStep(tail: Row, ghost stream: seq<PixelPair>, ghost arrived: nat, ghost f: nat, ghost base: seq<Packet>)
      requires InFrame(stream, arrived, f, base) && 2 * |fifo| >= cols && |tail| == cols
      modifies this, ram
      ensures if old(lineNumber) + 1 == rows then FrameSent(stream, f, base, tail) && arrived == |stream|
              else InFrame(stream, arrived, f, base) && lineNumber == old(lineNumber) + 1
    {
      CaptureLine(stream, arrived, f, base);
      ghost var n := cols / 2;
      ghost var lines := VideoRecovery.Lines(f, Pixels(stream), cols);
      if lineNumber + 1 == rows {
        assert stream[rows * n..arrived] == [];
        RamIsXorPacket(ram[..cols / 2], stream, n, rows, f);
        assert lines[..rows] == lines;
        FinishFrame(tail);
      } else {
        lineNumber := lineNumber + 1;
      }
    }

    /**
     capture: as long as the FIFO holds a line, send it; after the last line of the frame, the
     xor line and the end of frame. However the pixels were split up on arrival, the packets on
     the wire are those of the frame.
     */
    method Capture(tail: Row, ghost stream: seq<PixelPair>, ghost arrived: nat, ghost f: nat, ghost base: seq<Packet>)
      requires InFrame(stream, arrived, f, base) && |tail| == cols
      modifies this, ram
      ensures if lineNumber == -1 then FrameSent(stream, f, base, tail) && arrived == |stream|
              else InFrame(stream, arrived, f, base) && 2 * |fifo| < cols && arrived < |stream|
    {
      while 2 * |fifo| >= cols
        invariant if lineNumber == -1 then FrameSent(stream, f, base, tail) && arrived == |stream|
                  else InFrame(stream, arrived, f, base)
        decreases if lineNumber == -1 then 0 else rows - lineNumber
      {
        CaptureStep(tail, stream, arrived, f, base);
      }
      if lineNumber != -1 {
        Waiting(stream, arrived, f, base);
      }
    }

    lemma Waiting(stream: seq<PixelPair>, arrived: nat, f: nat, base: seq<Packet>)
      requires InFrame(stream, arrived, f, base) && 2 * |fifo| < cols
      ensures arrived < |stream|
    {
      var n: nat := cols / 2;
      assert |fifo| == arrived - lineNumber * n && |fifo| < n;
      NotAllArrived(lineNumber, n, rows, arrived);
    }

    /** Less than a line waits, and lines are still to come: not all pixels of the frame are there. */
    static lemma NotAllArrived(y: nat, n: nat, lines: nat, arrived: nat)
      requires y < lines && y * n <= arrived && arrived - y * n < n
      ensures arrived < lines * n
    {
      LineFits(y, n, lines);
    }
  }
}
