/**
 The video line protocol: one packet for each row of a frame, then one packet with the exclusive
 or of all rows, then an end-of-frame packet. The constants are those of ipcam_packet.h.
 */
module VideoPackets {

  type Byte = bv8
  type Row = seq<Byte>

  const LINENO_EOF := 0xFFFF
  const LINENO_ERR := 0xFFFE
  const LINENO_OVF := 0xFFFD
  const LINENO_ABORT := 0xFFFC
  const LINENO_SHORT := 0xFFFB
  const LINENO_XOR := 0xFFFA

  /** Frame numbers are 32 bits wide; the protocol compares their low 16 bits. */
  const FRAME_MODULUS := 0x1_0000_0000

  /** A received packet in host byte order; data is the first width bytes after the header. */
  datatype Packet = Packet(frame: nat, line: nat, horiz: nat, vert: nat, data: Row)

  predicate SameFrame(f: int, g: int) {
    f % 0x1_0000 == g % 0x1_0000
  }

  lemma Congruent(a: int, b: int)
    ensures (a - b) % 0x1_0000 == 0 <==> SameFrame(a, b)
  {
  }

  // ---------------------------------------------------------------- exclusive or of rows

  function Xor(a: Byte, b: Byte): Byte { a ^ b }

  function XorRow(a: Row, b: Row): (r: Row)
    requires |a| == |b|
    ensures |r| == |a|
  {
    seq(|a|, i requires 0 <= i < |a| => Xor(a[i], b[i]))
  }

  function ZeroRow(width: nat): (r: Row)
    ensures |r| == width
  {
    seq(width, _ => 0)
  }

  predicate Rectangular(rows: seq<Row>, width: nat) {
    forall y :: 0 <= y < |rows| ==> |rows[y]| == width
  }

  /** The exclusive or of all rows. */
  function XorAll(rows: seq<Row>, width: nat): (r: Row)
    requires Rectangular(rows, width)
    ensures |r| == width
  {
    if |rows| == 0 then ZeroRow(width) else XorRow(XorAll(rows[..|rows| - 1], width), rows[|rows| - 1])
  }

  lemma XorRowAssoc(a: Row, b: Row, c: Row)
    requires |a| == |b| == |c|
    ensures XorRow(XorRow(a, b), c) == XorRow(a, XorRow(b, c))
  {
  }

  lemma XorRowComm(a: Row, b: Row)
    requires |a| == |b|
    ensures XorRow(a, b) == XorRow(b, a)
  {
  }

  lemma XorRowSelf(a: Row)
    ensures XorRow(a, a) == ZeroRow(|a|)
    ensures XorRow(ZeroRow(|a|), a) == a && XorRow(a, ZeroRow(|a|)) == a
  {
  }

  /** Adding the same row twice leaves everything as it was. */
  lemma XorRowCancel(a: Row, b: Row)
    requires |a| == |b|
    ensures XorRow(XorRow(a, b), b) == a
  {
  }

  /** What the receiver's repair loop computes: acc, with rows from, from + 1, ... added, skipping one. */
  function XorOthers(acc: Row, rows: seq<Row>, skip: int, from: nat): (r: Row)
    requires Rectangular(rows, |acc|) && from <= |rows|
    ensures |r| == |acc|
    decreases |rows| - from
  {
    if from == |rows| then acc
    else XorOthers(if from == skip then acc else XorRow(acc, rows[from]), rows, skip, from + 1)
  }

  /** The row that is skipped does not matter. */
  lemma {:induction false} SameOthers(acc: Row, rows: seq<Row>, rows': seq<Row>, skip: int, from: nat)
    requires Rectangular(rows, |acc|) && Rectangular(rows', |acc|) && from <= |rows| == |rows'|
    requires forall y :: 0 <= y < |rows| && y != skip ==> rows[y] == rows'[y]
    ensures XorOthers(acc, rows, skip, from) == XorOthers(acc, rows', skip, from)
    decreases |rows| - from
  {
    if from < |rows| {
      SameOthers(if from == skip then acc else XorRow(acc, rows[from]), rows, rows', skip, from + 1);
    }
  }

  /** The repair loop adds each of the other rows to acc exactly once. */
  lemma {:induction false} XorOthersIs(acc: Row, rows: seq<Row>, skip: nat, from: nat)
    requires Rectangular(rows, |acc|) && from <= |rows| && skip < |rows|
    ensures XorRow(XorOthers(acc, rows, skip, from), XorAll(rows[..from], |acc|))
         == XorRow(XorRow(acc, XorAll(rows, |acc|)), if from <= skip then rows[skip] else ZeroRow(|acc|))
    decreases |rows| - from
  {
    var w := |acc|;
    if from == |rows| {
      assert rows[..from] == rows;
      XorRowSelf(XorRow(acc, XorAll(rows, w)));
    } else {
      var x, r, t := XorAll(rows[..from], w), rows[from], XorAll(rows, w);
      assert rows[..from + 1][..from] == rows[..from];
      assert XorAll(rows[..from + 1], w) == XorRow(x, r);
      if from == skip {
        XorOthersIs(acc, rows, skip, from + 1);
        var o := XorOthers(acc, rows, skip, from + 1);
        // o + (x + r) == acc + t, so o + x == (acc + t) + r
        XorRowSelf(XorRow(acc, t));
        XorRowAssoc(o, x, r);
        XorRowCancel(XorRow(o, x), r);
      } else {
        var acc' := XorRow(acc, r);
        XorOthersIs(acc', rows, skip, from + 1);
        var o := XorOthers(acc', rows, skip, from + 1);
        var last := if from + 1 <= skip then rows[skip] else ZeroRow(w);
        // o + (x + r) == ((acc + r) + t) + last
        XorRowAssoc(o, x, r);
        XorRowCancel(XorRow(o, x), r);
        XorRowAssoc(acc, r, t);
        XorRowComm(r, t);
        XorRowAssoc(acc, t, r);
        XorRowAssoc(XorRow(acc, t), r, last);
        XorRowComm(r, last);
        XorRowAssoc(XorRow(acc, t), last, r);
        XorRowCancel(XorRow(XorRow(acc, t), last), r);
      }
    }
  }
}
