/**
 The Ethernet frame check sequence as the MAC computes it: the byte-parallel update that
 crc_gen.v and crc_chk.v share, the clocked registers around it, and the CRC-32 of
 section 3.2.9 of IEEE 802.3 as the bit-serial reference.
 */
module Crc {

  type Byte = bv8

  const INIT: bv32 := 0xffff_ffff
  const RESIDUE: bv32 := 0xc704_dd7b

  // The word operations have names so that proofs can use them without looking at bits.

  function Xor(x: bv32, y: bv32): bv32 { x ^ y }
  function Shl(x: bv32): bv32 { x << 1 }
  function Shl4(x: bv32): bv32 { x << 4 }
  function Shl8(x: bv32): bv32 { x << 8 }
  function Top(x: bv32): Byte { (x >> 24) as Byte }

  // ---------------------------------------------------------------- the hardware

  /**
   Wires C[31-i] and D[i] only ever occur together in the next-state equations; bit i of this
   byte is that pair.
   */
  function Pairs(r: bv32, d: Byte): Byte {
    Reversed(Top(r)) ^ d
  }

  /**
   The byte-parallel next state. Output wire i takes C[i-8], the shifted register, and the
   pairs that line i of the equations below lists.
   */
  function NewCrc(r: bv32, d: Byte): bv32 {
    Xor(Shl8(r), Wires(Pairs(r, d)))
  }

  function Wires(e: Byte): bv32 {
    ((Wires24(e) as bv32) << 24) | ((Wires16(e) as bv32) << 16) | ((Wires8(e) as bv32) << 8) | (Wires0(e) as bv32)
  }

  /** Equations 0 to 7. */
  function Wires0(e: Byte): Byte {
    var e0, e1, e2, e3 := e & 1, (e >> 1) & 1, (e >> 2) & 1, (e >> 3) & 1;
    var e4, e5, e6, e7 := (e >> 4) & 1, (e >> 5) & 1, (e >> 6) & 1, (e >> 7) & 1;
    (e7 ^ e1)
    | ((e6 ^ e0 ^ e7 ^ e1) << 1)
    | ((e5 ^ e6 ^ e0 ^ e7 ^ e1) << 2)
    | ((e4 ^ e5 ^ e6 ^ e0) << 3)
    | ((e3 ^ e4 ^ e5 ^ e7 ^ e1) << 4)
    | ((e2 ^ e3 ^ e4 ^ e6 ^ e0 ^ e7 ^ e1) << 5)
    | ((e1 ^ e2 ^ e3 ^ e5 ^ e6 ^ e0) << 6)
    | ((e0 ^ e2 ^ e4 ^ e5 ^ e7) << 7)
  }

  /** Equations 8 to 15. */
  function Wires8(e: Byte): Byte {
    var e0, e1, e2, e3 := e & 1, (e >> 1) & 1, (e >> 2) & 1, (e >> 3) & 1;
    var e4, e5, e6, e7 := (e >> 4) & 1, (e >> 5) & 1, (e >> 6) & 1, (e >> 7) & 1;
    (e3 ^ e4 ^ e6 ^ e7)
    | ((e2 ^ e3 ^ e5 ^ e6) << 1)
    | ((e2 ^ e4 ^ e5 ^ e7) << 2)
    | ((e3 ^ e4 ^ e6 ^ e7) << 3)
    | ((e2 ^ e3 ^ e5 ^ e6 ^ e7 ^ e1) << 4)
    | ((e1 ^ e2 ^ e4 ^ e5 ^ e6 ^ e0) << 5)
    | ((e0 ^ e1 ^ e3 ^ e4 ^ e5) << 6)
    | ((e0 ^ e2 ^ e3 ^ e4) << 7)
  }

  /** Equations 16 to 23. */
  function Wires16(e: Byte): Byte {
    var e0, e1, e2, e3 := e & 1, (e >> 1) & 1, (e >> 2) & 1, (e >> 3) & 1;
    var e4, e5, e6, e7 := (e >> 4) & 1, (e >> 5) & 1, (e >> 6) & 1, (e >> 7) & 1;
    (e2 ^ e3 ^ e7)
    | ((e1 ^ e2 ^ e6) << 1)
    | ((e0 ^ e1 ^ e5) << 2)
    | ((e0 ^ e4) << 3)
    | ((e3) << 4)
    | ((e2) << 5)
    | ((e7) << 6)
    | ((e6 ^ e7 ^ e1) << 7)
  }

  /** Equations 24 to 31. */
  function Wires24(e: Byte): Byte {
    var e0, e1, e2, e3 := e & 1, (e >> 1) & 1, (e >> 2) & 1, (e >> 3) & 1;
    var e4, e5, e6, e7 := (e >> 4) & 1, (e >> 5) & 1, (e >> 6) & 1, (e >> 7) & 1;
    (e5 ^ e6 ^ e0)
    | ((e4 ^ e5) << 1)
    | ((e3 ^ e4 ^ e7 ^ e1) << 2)
    | ((e2 ^ e3 ^ e6 ^ e0) << 3)
    | ((e1 ^ e2 ^ e5) << 4)
    | ((e0 ^ e1 ^ e4) << 5)
    | ((e0 ^ e3) << 6)
    | ((e2) << 7)
  }

  function Reversed(d: Byte): Byte {
    ((d >> 7) & 1) | ((d >> 5) & 2) | ((d >> 3) & 4) | ((d >> 1) & 8)
    | ((d & 8) << 1) | ((d & 4) << 3) | ((d & 2) << 5) | ((d & 1) << 7)
  }

  /** The byte that crc_gen presents: the top register byte, complemented and bit-reversed. */
  function FcsByte(r: bv32): Byte {
    Reversed(!Top(r))
  }

  function ShiftOut(r: bv32): bv32 {
    Shl8(r) | 0xff
  }

  /** The generator: one register, cleared to INIT, stepped by a byte or shifted out. */
  class CrcGen {
    var crcReg: bv32

    constructor ()
      ensures crcReg == INIT
    {
      crcReg := INIT;
    }

    method Clock(init: bool, rden: bool, data: Byte)
      modifies this
      ensures crcReg == if init then INIT else if rden then ShiftOut(old(crcReg)) else Run(old(crcReg), [data])
    {
      var nextCrc := if rden then ShiftOut(crcReg) else NewCrc(crcReg, data);
      crcReg := if init then INIT else nextCrc;
    }

    function Output(): Byte
      reads this
    {
      FcsByte(crcReg)
    }
  }

  /** The checker: the same register without the shift-out path. */
  class CrcChk {
    var crcReg: bv32

    constructor ()
      ensures crcReg == INIT
    {
      crcReg := INIT;
    }

    method Clock(init: bool, data: Byte)
      modifies this
      ensures crcReg == if init then INIT else Run(old(crcReg), [data])
    {
      crcReg := if init then INIT else NewCrc(crcReg, data);
    }

    predicate Good()
      reads this
    {
      crcReg == RESIDUE
    }
  }

  /** The register after a string of bytes. */
  function Run(r: bv32, m: seq<Byte>): bv32
    decreases |m|
  {
    if |m| == 0 then r else Run(NewCrc(r, m[0]), m[1..])
  }

  /** The four bytes shifted out of crc_gen when its register holds r. */
  function Fcs(r: bv32): seq<Byte> {
    var r1 := ShiftOut(r);
    var r2 := ShiftOut(r1);
    var r3 := ShiftOut(r2);
    [FcsByte(r), FcsByte(r1), FcsByte(r2), FcsByte(r3)]
  }

  predicate Accepts(frame: seq<Byte>) {
    Run(INIT, frame) == RESIDUE
  }

  // ---------------------------------------------------------------- the serial reference

  /** The generator polynomial x^32 + x^26 + ... + 1 (its x^32 term is the bit shifted out). */
  function Tap(f: bv32): bv32 {
    if f == 1 then 0x04c1_1db7 else 0
  }

  function Bit31(r: bv32): bv32 { (r >> 31) & 1 }
  function Bit30(r: bv32): bv32 { (r >> 30) & 1 }
  function Bit29(r: bv32): bv32 { (r >> 29) & 1 }
  function Bit28(r: bv32): bv32 { (r >> 28) & 1 }
  function Bit27(r: bv32): bv32 { (r >> 27) & 1 }
  function Bit26(r: bv32): bv32 { (r >> 26) & 1 }
  function Bit25(r: bv32): bv32 { (r >> 25) & 1 }
  function Bit24(r: bv32): bv32 { (r >> 24) & 1 }

  /** One step of the division by the generator polynomial, with data bit b (0 or 1) entering. */
  function Serial(r: bv32, b: bv32): bv32 {
    Xor(Shl(r), Tap(Xor(Bit31(r), b)))
  }

  function SerialNibble(r: bv32, b0: bv32, b1: bv32, b2: bv32, b3: bv32): bv32 {
    Serial(Serial(Serial(Serial(r, b0), b1), b2), b3)
  }

  function Bit0(d: Byte): bv32 { (d & 1) as bv32 }
  function Bit1(d: Byte): bv32 { ((d >> 1) & 1) as bv32 }
  function Bit2(d: Byte): bv32 { ((d >> 2) & 1) as bv32 }
  function Bit3(d: Byte): bv32 { ((d >> 3) & 1) as bv32 }
  function Bit4(d: Byte): bv32 { ((d >> 4) & 1) as bv32 }
  function Bit5(d: Byte): bv32 { ((d >> 5) & 1) as bv32 }
  function Bit6(d: Byte): bv32 { ((d >> 6) & 1) as bv32 }
  function Bit7(d: Byte): bv32 { ((d >> 7) & 1) as bv32 }

  /** Eight serial steps, the least significant data bit first, as the MII sends it. */
  function SerialByte(r: bv32, d: Byte): bv32 {
    SerialNibble(SerialNibble(r, Bit0(d), Bit1(d), Bit2(d), Bit3(d)), Bit4(d), Bit5(d), Bit6(d), Bit7(d))
  }

  // ---------------------------------------------------------------- parallel equals serial

  /** What four feedback bits leave in the register. */
  function MixNibble(f0: bv32, f1: bv32, f2: bv32, f3: bv32): bv32 {
    Xor(Shl(Xor(Shl(Xor(Shl(Tap(f0)), Tap(f1))), Tap(f2))), Tap(f3))
  }

  /** What the eight feedback bits of a serial byte leave: two of them come back through the tap at x^26. */
  function MixByte(e: Byte): bv32 {
    Xor(Shl4(MixNibble(Bit0(e), Bit1(e), Bit2(e), Bit3(e))),
        MixNibble(Bit4(e), Bit5(e), Xor(Bit6(e), Bit0(e)), Xor(Bit7(e), Bit1(e))))
  }

  // The same, one byte at a time and one column of the equations for each pair.

  function Feedback0(e: Byte): Byte {
    (if e & 0x01 != 0 then 0xee else 0) ^ (if e & 0x02 != 0 then 0x77 else 0) ^ (if e & 0x04 != 0 then 0xe0 else 0) ^ (if e & 0x08 != 0 then 0x70 else 0)
    ^ (if e & 0x10 != 0 then 0xb8 else 0) ^ (if e & 0x20 != 0 then 0xdc else 0) ^ (if e & 0x40 != 0 then 0x6e else 0) ^ (if e & 0x80 != 0 then 0xb7 else 0)
  }

  function Feedback8(e: Byte): Byte {
    (if e & 0x01 != 0 then 0xe0 else 0) ^ (if e & 0x02 != 0 then 0x70 else 0) ^ (if e & 0x04 != 0 then 0xb6 else 0) ^ (if e & 0x08 != 0 then 0xdb else 0)
    ^ (if e & 0x10 != 0 then 0xed else 0) ^ (if e & 0x20 != 0 then 0x76 else 0) ^ (if e & 0x40 != 0 then 0x3b else 0) ^ (if e & 0x80 != 0 then 0x1d else 0)
  }

  function Feedback16(e: Byte): Byte {
    (if e & 0x01 != 0 then 0x0c else 0) ^ (if e & 0x02 != 0 then 0x86 else 0) ^ (if e & 0x04 != 0 then 0x23 else 0) ^ (if e & 0x08 != 0 then 0x11 else 0)
    ^ (if e & 0x10 != 0 then 0x08 else 0) ^ (if e & 0x20 != 0 then 0x04 else 0) ^ (if e & 0x40 != 0 then 0x82 else 0) ^ (if e & 0x80 != 0 then 0xc1 else 0)
  }

  function Feedback24(e: Byte): Byte {
    (if e & 0x01 != 0 then 0x69 else 0) ^ (if e & 0x02 != 0 then 0x34 else 0) ^ (if e & 0x04 != 0 then 0x98 else 0) ^ (if e & 0x08 != 0 then 0x4c else 0)
    ^ (if e & 0x10 != 0 then 0x26 else 0) ^ (if e & 0x20 != 0 then 0x13 else 0) ^ (if e & 0x40 != 0 then 0x09 else 0) ^ (if e & 0x80 != 0 then 0x04 else 0)
  }

  lemma Wires0AreFeedback(e: Byte)
    ensures Wires0(e) == Feedback0(e)
  {
  }

  lemma Wires8AreFeedback(e: Byte)
    ensures Wires8(e) == Feedback8(e)
  {
  }

  lemma Wires16AreFeedback(e: Byte)
    ensures Wires16(e) == Feedback16(e)
  {
  }

  lemma Wires24AreFeedback(e: Byte)
    ensures Wires24(e) == Feedback24(e)
  {
  }

  lemma FeedbackBytes(e: Byte)
    ensures MixByte(e) == ((Feedback24(e) as bv32) << 24) | ((Feedback16(e) as bv32) << 16)
                        | ((Feedback8(e) as bv32) << 8) | (Feedback0(e) as bv32)
  {
    var m := MixByte(e);
    FeedbackHigh(e, m);
    FeedbackLow(e, m);
    FourBytes(m, Feedback24(e), Feedback16(e), Feedback8(e), Feedback0(e));
  }

  lemma FourBytes(m: bv32, a: Byte, b: Byte, c: Byte, d: Byte)
    requires (m >> 24) as Byte == a && ((m >> 16) & 0xff) as Byte == b && ((m >> 8) & 0xff) as Byte == c && (m & 0xff) as Byte == d
    ensures m == ((a as bv32) << 24) | ((b as bv32) << 16) | ((c as bv32) << 8) | (d as bv32)
  {
  }

  lemma FeedbackHigh(e: Byte, m: bv32)
    requires m == MixByte(e)
    ensures (m >> 24) as Byte == Feedback24(e) && ((m >> 16) & 0xff) as Byte == Feedback16(e)
  {
  }

  lemma FeedbackLow(e: Byte, m: bv32)
    requires m == MixByte(e)
    ensures ((m >> 8) & 0xff) as Byte == Feedback8(e) && (m & 0xff) as Byte == Feedback0(e)
  {
  }

  lemma WiresAreMixByte(e: Byte)
    ensures Wires(e) == MixByte(e)
  {
    FeedbackBytes(e);
    Wires0AreFeedback(e);
    Wires8AreFeedback(e);
    Wires16AreFeedback(e);
    Wires24AreFeedback(e);
  }

  // Laws of the word operations: each is proved on plain words, one operation to an equation,
  // and then read off for the named operations.

  lemma ShlXor(x: bv32, y: bv32, t: bv32)
    ensures Xor(Shl(Xor(x, y)), t) == Xor(Shl(x), Xor(Shl(y), t))
  {
  }

  lemma Shl4Xor(x: bv32, y: bv32, t: bv32)
    ensures Xor(Shl4(Xor(x, y)), t) == Xor(Shl4(x), Xor(Shl4(y), t))
  {
  }

  lemma BitXor(x: bv32, y: bv32)
    ensures Bit31(Xor(x, y)) == Xor(Bit31(x), Bit31(y))
    ensures Bit30(Xor(x, y)) == Xor(Bit30(x), Bit30(y))
    ensures Bit29(Xor(x, y)) == Xor(Bit29(x), Bit29(y))
    ensures Bit28(Xor(x, y)) == Xor(Bit28(x), Bit28(y))
  {
    var u := Xor(x, y);
    BitXorPlain(x, y, u, Bit31(x), Bit31(y), Bit31(u), Bit30(x), Bit30(y), Bit30(u));
    BitXorPlainLow(x, y, u, Bit29(x), Bit29(y), Bit29(u), Bit28(x), Bit28(y), Bit28(u));
  }

  lemma BitXorPlain(x: bv32, y: bv32, u: bv32, ax: bv32, ay: bv32, au: bv32, cx: bv32, cy: bv32, cu: bv32)
    requires u == x ^ y && ax == (x >> 31) & 1 && ay == (y >> 31) & 1 && au == (u >> 31) & 1
    requires cx == (x >> 30) & 1 && cy == (y >> 30) & 1 && cu == (u >> 30) & 1
    ensures au == ax ^ ay && cu == cx ^ cy
  {
  }

  lemma BitXorPlainLow(x: bv32, y: bv32, u: bv32, ax: bv32, ay: bv32, au: bv32, cx: bv32, cy: bv32, cu: bv32)
    requires u == x ^ y && ax == (x >> 29) & 1 && ay == (y >> 29) & 1 && au == (u >> 29) & 1
    requires cx == (x >> 28) & 1 && cy == (y >> 28) & 1 && cu == (u >> 28) & 1
    ensures au == ax ^ ay && cu == cx ^ cy
  {
  }

  lemma XorZero(x: bv32, z: bv32)
    requires z == 0
    ensures Xor(x, z) == x
  {
  }

  lemma XorSwap(x: bv32, y: bv32, z: bv32)
    requires x < 2 && y < 2 && z < 2
    ensures Xor(Xor(x, y), z) == Xor(Xor(x, z), y)
  {
  }

  lemma BitsOverShift(r: bv32)
    ensures Shl(Shl(Shl(Shl(r)))) == Shl4(r) && Shl4(Shl4(r)) == Shl8(r)
    ensures Bit31(Shl(r)) == Bit30(r) && Bit31(Shl(Shl(r))) == Bit29(r) && Bit31(Shl(Shl(Shl(r)))) == Bit28(r)
    ensures Bit31(Shl4(r)) == Bit27(r) && Bit30(Shl4(r)) == Bit26(r)
    ensures Bit29(Shl4(r)) == Bit25(r) && Bit28(Shl4(r)) == Bit24(r)
  {
  }

  lemma Bit31Over(x: bv32, y: bv32)
    requires Bit31(y) == 0
    ensures Bit31(Xor(x, y)) == Bit31(x)
  {
  }

  /** A part y of the register that has not reached the top is only shifted along. */
  lemma SerialOver(x: bv32, y: bv32, b: bv32)
    requires Bit31(y) == 0
    ensures Serial(Xor(x, y), b) == Xor(Shl(x), Xor(Shl(y), Tap(Xor(Bit31(x), b))))
  {
    Bit31Over(x, y);
    ShlXor(x, y, Tap(Xor(Bit31(x), b)));
  }

  /** The taps are too low for a feedback bit to reach the top within four shifts. */
  lemma LowTaps(f0: bv32, f1: bv32, f2: bv32)
    ensures Bit31(Tap(f0)) == 0
    ensures Bit31(Xor(Shl(Tap(f0)), Tap(f1))) == 0
    ensures Bit31(Xor(Shl(Xor(Shl(Tap(f0)), Tap(f1))), Tap(f2))) == 0
  {
  }

  lemma FourSteps(r: bv32, b0: bv32, b1: bv32, b2: bv32, b3: bv32)
    ensures SerialNibble(r, b0, b1, b2, b3)
         == Xor(Shl4(r), MixNibble(Xor(Bit31(r), b0), Xor(Bit30(r), b1), Xor(Bit29(r), b2), Xor(Bit28(r), b3)))
  {
    var f0, f1, f2 := Xor(Bit31(r), b0), Xor(Bit30(r), b1), Xor(Bit29(r), b2);
    LowTaps(f0, f1, f2);
    BitsOverShift(r);
    SerialOver(Shl(r), Tap(f0), b1);
    SerialOver(Shl(Shl(r)), Xor(Shl(Tap(f0)), Tap(f1)), b2);
    SerialOver(Shl(Shl(Shl(r))), Xor(Shl(Xor(Shl(Tap(f0)), Tap(f1))), Tap(f2)), b3);
  }

  lemma PairBits(r: bv32, d: Byte)
    ensures var e := Pairs(r, d);
         && Xor(Bit31(r), Bit0(d)) == Bit0(e) && Xor(Bit30(r), Bit1(d)) == Bit1(e)
         && Xor(Bit29(r), Bit2(d)) == Bit2(e) && Xor(Bit28(r), Bit3(d)) == Bit3(e)
         && Xor(Bit27(r), Bit4(d)) == Bit4(e) && Xor(Bit26(r), Bit5(d)) == Bit5(e)
         && Xor(Bit25(r), Bit6(d)) == Bit6(e) && Xor(Bit24(r), Bit7(d)) == Bit7(e)
  {
    PairBitsLow(r, d);
    PairBitsHigh(r, d);
  }

  lemma PairBitsLow(r: bv32, d: Byte)
    ensures var e := Pairs(r, d);
         && Xor(Bit31(r), Bit0(d)) == Bit0(e) && Xor(Bit30(r), Bit1(d)) == Bit1(e)
         && Xor(Bit29(r), Bit2(d)) == Bit2(e) && Xor(Bit28(r), Bit3(d)) == Bit3(e)
  {
  }

  lemma PairBitsHigh(r: bv32, d: Byte)
    ensures var e := Pairs(r, d);
         && Xor(Bit27(r), Bit4(d)) == Bit4(e) && Xor(Bit26(r), Bit5(d)) == Bit5(e)
         && Xor(Bit25(r), Bit6(d)) == Bit6(e) && Xor(Bit24(r), Bit7(d)) == Bit7(e)
  {
  }

  /** Of the first four feedback bits, two stand at the tap that the next four steps meet. */
  lemma MixNibbleTop(f0: bv32, f1: bv32, f2: bv32, f3: bv32)
    requires f0 < 2 && f1 < 2
    ensures var m := MixNibble(f0, f1, f2, f3);
            Bit31(m) == 0 && Bit30(m) == 0 && Bit29(m) == f0 && Bit28(m) == f1
  {
  }

  lemma SecondNibble(r: bv32, d: Byte, e: Byte, m: bv32)
    requires e == Pairs(r, d) && m == MixNibble(Bit0(e), Bit1(e), Bit2(e), Bit3(e))
    ensures var q := Xor(Shl4(r), m);
         && Xor(Bit31(q), Bit4(d)) == Bit4(e) && Xor(Bit30(q), Bit5(d)) == Bit5(e)
         && Xor(Bit29(q), Bit6(d)) == Xor(Bit6(e), Bit0(e)) && Xor(Bit28(q), Bit7(d)) == Xor(Bit7(e), Bit1(e))
  {
    PairBits(r, d);
    BitsOverShift(r);
    MixNibbleTop(Bit0(e), Bit1(e), Bit2(e), Bit3(e));
    BitXor(Shl4(r), m);
    XorZero(Bit27(r), Bit31(m));
    XorZero(Bit26(r), Bit30(m));
    XorSwap(Bit25(r), Bit0(e), Bit6(d));
    XorSwap(Bit24(r), Bit1(e), Bit7(d));
  }

  lemma NewCrcIsEightSerialSteps(r: bv32, d: Byte)
    ensures NewCrc(r, d) == SerialByte(r, d)
  {
    var e := Pairs(r, d);
    PairBits(r, d);
    BitsOverShift(r);
    FourSteps(r, Bit0(d), Bit1(d), Bit2(d), Bit3(d));
    var m := MixNibble(Bit0(e), Bit1(e), Bit2(e), Bit3(e));
    SecondNibble(r, d, e, m);
    FourSteps(Xor(Shl4(r), m), Bit4(d), Bit5(d), Bit6(d), Bit7(d));
    Shl4Xor(Shl4(r), m, MixNibble(Bit4(e), Bit5(e), Xor(Bit6(e), Bit0(e)), Xor(Bit7(e), Bit1(e))));
    WiresAreMixByte(e);
  }

  // ---------------------------------------------------------------- linearity

  lemma ShlOverXor(x: bv32, y: bv32)
    ensures Shl(Xor(x, y)) == Xor(Shl(x), Shl(y))
  {
  }

  lemma Shl8OverXor(x: bv32, y: bv32)
    ensures Shl8(Xor(x, y)) == Xor(Shl8(x), Shl8(y))
  {
  }

  lemma XorAssoc(a: bv32, b: bv32, c: bv32)
    ensures Xor(Xor(a, b), c) == Xor(a, Xor(b, c))
  {
  }

  lemma XorComm(a: bv32, b: bv32)
    ensures Xor(a, b) == Xor(b, a)
  {
  }

  lemma XorPairs(a: bv32, b: bv32, c: bv32, d: bv32)
    ensures Xor(Xor(a, b), Xor(c, d)) == Xor(Xor(a, c), Xor(b, d))
  {
    XorAssoc(a, b, Xor(c, d));
    XorAssoc(b, c, d);
    XorComm(b, c);
    XorAssoc(c, b, d);
    XorAssoc(a, c, Xor(b, d));
  }

  lemma XorPairsBit(a: bv32, b: bv32, c: bv32, d: bv32)
    requires a < 2 && b < 2 && c < 2 && d < 2
    ensures Xor(Xor(a, b), Xor(c, d)) == Xor(Xor(a, c), Xor(b, d))
    ensures Xor(a, c) < 2 && Xor(b, d) < 2
  {
  }

  lemma TapOverXor(f: bv32, g: bv32)
    requires f < 2 && g < 2
    ensures Tap(Xor(f, g)) == Xor(Tap(f), Tap(g))
  {
  }

  lemma SerialLinear(r: bv32, b: bv32, s: bv32, c: bv32)
    requires b < 2 && c < 2
    ensures Serial(Xor(r, s), Xor(b, c)) == Xor(Serial(r, b), Serial(s, c))
  {
    ShlOverXor(r, s);
    BitXor(r, s);
    XorPairsBit(Bit31(r), Bit31(s), b, c);
    TapOverXor(Xor(Bit31(r), b), Xor(Bit31(s), c));
    XorPairs(Shl(r), Shl(s), Tap(Xor(Bit31(r), b)), Tap(Xor(Bit31(s), c)));
  }

  lemma NibbleLinear(r: bv32, b0: bv32, b1: bv32, b2: bv32, b3: bv32, s: bv32, c0: bv32, c1: bv32, c2: bv32, c3: bv32)
    requires b0 < 2 && b1 < 2 && b2 < 2 && b3 < 2 && c0 < 2 && c1 < 2 && c2 < 2 && c3 < 2
    ensures SerialNibble(Xor(r, s), Xor(b0, c0), Xor(b1, c1), Xor(b2, c2), Xor(b3, c3))
         == Xor(SerialNibble(r, b0, b1, b2, b3), SerialNibble(s, c0, c1, c2, c3))
  {
    SerialLinear(r, b0, s, c0);
    var r1, s1 := Serial(r, b0), Serial(s, c0);
    SerialLinear(r1, b1, s1, c1);
    var r2, s2 := Serial(r1, b1), Serial(s1, c1);
    SerialLinear(r2, b2, s2, c2);
    SerialLinear(Serial(r2, b2), b3, Serial(s2, c2), c3);
  }

  lemma DataBits(d: Byte, e: Byte)
    ensures Bit0(d ^ e) == Xor(Bit0(d), Bit0(e)) && Bit1(d ^ e) == Xor(Bit1(d), Bit1(e))
    ensures Bit2(d ^ e) == Xor(Bit2(d), Bit2(e)) && Bit3(d ^ e) == Xor(Bit3(d), Bit3(e))
    ensures Bit4(d ^ e) == Xor(Bit4(d), Bit4(e)) && Bit5(d ^ e) == Xor(Bit5(d), Bit5(e))
    ensures Bit6(d ^ e) == Xor(Bit6(d), Bit6(e)) && Bit7(d ^ e) == Xor(Bit7(d), Bit7(e))
  {
  }

  /** The update is linear over GF(2) in the register and the data byte together. */
  lemma NewCrcLinear(r: bv32, d: Byte, s: bv32, e: Byte)
    ensures NewCrc(Xor(r, s), d ^ e) == Xor(NewCrc(r, d), NewCrc(s, e))
  {
    NewCrcIsEightSerialSteps(Xor(r, s), d ^ e);
    NewCrcIsEightSerialSteps(r, d);
    NewCrcIsEightSerialSteps(s, e);
    DataBits(d, e);
    NibbleLinear(r, Bit0(d), Bit1(d), Bit2(d), Bit3(d), s, Bit0(e), Bit1(e), Bit2(e), Bit3(e));
    NibbleLinear(SerialNibble(r, Bit0(d), Bit1(d), Bit2(d), Bit3(d)), Bit4(d), Bit5(d), Bit6(d), Bit7(d),
                 SerialNibble(s, Bit0(e), Bit1(e), Bit2(e), Bit3(e)), Bit4(e), Bit5(e), Bit6(e), Bit7(e));
  }

  // ---------------------------------------------------------------- injectivity

  lemma XorCancel(x: bv32, y: bv32, v: bv32)
    requires Xor(x, v) == Xor(y, v)
    ensures x == y
  {
  }

  lemma TopAndRest(r: bv32, s: bv32)
    requires Shl8(r) == Shl8(s) && Top(r) == Top(s)
    ensures r == s
  {
  }

  lemma SameTop(r: bv32, s: bv32, d: Byte)
    requires Pairs(r, d) == Pairs(s, d)
    ensures Top(r) == Top(s)
  {
  }

  lemma SamePairs(r: bv32, s: bv32, p: Byte, q: Byte)
    requires Xor(Shl8(r), Wires(p)) == Xor(Shl8(s), Wires(q))
    ensures p == q
  {
  }

  lemma SameWires(r: bv32, s: bv32, d: Byte)
    requires NewCrc(r, d) == NewCrc(s, d)
    ensures Pairs(r, d) == Pairs(s, d)
  {
    SamePairs(r, s, Pairs(r, d), Pairs(s, d));
  }

  lemma SameRest(r: bv32, s: bv32, d: Byte)
    requires NewCrc(r, d) == NewCrc(s, d) && Pairs(r, d) == Pairs(s, d)
    ensures Shl8(r) == Shl8(s)
  {
    XorCancel(Shl8(r), Shl8(s), Wires(Pairs(r, d)));
  }

  /** No two registers are confused by a data byte. */
  lemma NewCrcInjective(r: bv32, s: bv32, d: Byte)
    requires NewCrc(r, d) == NewCrc(s, d)
    ensures r == s
  {
    SameWires(r, s, d);
    SameRest(r, s, d);
    SameTop(r, s, d);
    TopAndRest(r, s);
  }

  lemma {:induction false} RunInjective(r: bv32, s: bv32, m: seq<Byte>)
    requires Run(r, m) == Run(s, m)
    ensures r == s
    decreases |m|
  {
    if |m| > 0 {
      RunInjective(NewCrc(r, m[0]), NewCrc(s, m[0]), m[1..]);
      NewCrcInjective(r, s, m[0]);
    }
  }

  lemma {:induction false} RunAppend(r: bv32, m: seq<Byte>, n: seq<Byte>)
    ensures Run(r, m + n) == Run(Run(r, m), n)
    decreases |m|
  {
    if |m| == 0 {
      assert m + n == n;
    } else {
      assert (m + n)[0] == m[0] && (m + n)[1..] == m[1..] + n;
      RunAppend(NewCrc(r, m[0]), m[1..], n);
    }
  }

  // ---------------------------------------------------------------- the residue

  lemma FcsPairs(c: bv32, g: bv32, x: bv32, k: bv32)
    requires c == Xor(x, k) && Top(g) == Top(x)
    ensures Pairs(c, FcsByte(g)) == Reversed(Top(k) ^ 0xff)
  {
  }

  /**
   One shift-out step. The checker's register is the part x of the message register still to
   be shifted out, plus a part k that does not depend on the message.
   */
  lemma ShiftOutStep(c: bv32, g: bv32, x: bv32, k: bv32)
    requires c == Xor(x, k) && Top(g) == Top(x)
    ensures NewCrc(c, FcsByte(g)) == Xor(Shl8(x), NextConstant(k))
  {
    FcsPairs(c, g, x, k);
    Shl8OverXor(x, k);
    XorAssoc(Shl8(x), Shl8(k), Wires(Reversed(Top(k) ^ 0xff)));
  }

  function NextConstant(k: bv32): bv32 {
    Xor(Shl8(k), Wires(Reversed(Top(k) ^ 0xff)))
  }

  lemma Constant1(k: bv32)
    requires k == 0x00000000
    ensures NextConstant(k) == 0xb1f740b4
  {
  }

  lemma Constant2(k: bv32)
    requires k == 0xb1f740b4
    ensures NextConstant(k) == 0xff48647d
  {
  }

  lemma Constant3(k: bv32)
    requires k == 0xff48647d
    ensures NextConstant(k) == 0x48647d00
  {
  }

  lemma Constant4(k: bv32)
    requires k == 0x48647d00
    ensures NextConstant(k) == 0xc704dd7b
  {
  }

  lemma ShiftedTops(r: bv32)
    ensures Top(ShiftOut(r)) == Top(Shl8(r))
    ensures Top(ShiftOut(ShiftOut(r))) == Top(Shl8(Shl8(r)))
    ensures Top(ShiftOut(ShiftOut(ShiftOut(r)))) == Top(Shl8(Shl8(Shl8(r))))
    ensures Shl8(Shl8(Shl8(Shl8(r)))) == 0
  {
  }

  lemma XorZeroLeft(z: bv32, x: bv32)
    requires z == 0
    ensures Xor(z, x) == x
  {
  }

  lemma FourFcsBytes(r: bv32, z: bv32)
    requires z == 0
    ensures var f := Fcs(r); NewCrc(NewCrc(NewCrc(NewCrc(r, f[0]), f[1]), f[2]), f[3]) == RESIDUE
  {
    var x1 := Shl8(r);
    var x2 := Shl8(x1);
    var x3 := Shl8(x2);
    ShiftedTops(r);
    XorZero(r, z);
    var k1 := NextConstant(z);
    var k2 := NextConstant(k1);
    var k3 := NextConstant(k2);
    ShiftOutStep(r, r, r, z);
    ShiftOutStep(Xor(x1, k1), ShiftOut(r), x1, k1);
    ShiftOutStep(Xor(x2, k2), ShiftOut(ShiftOut(r)), x2, k2);
    ShiftOutStep(Xor(x3, k3), ShiftOut(ShiftOut(ShiftOut(r))), x3, k3);
    XorZeroLeft(Shl8(x3), NextConstant(k3));
    Constant1(z);
    Constant2(k1);
    Constant3(k2);
    Constant4(k3);
  }

  lemma {:induction false} RunFour(r: bv32, f: seq<Byte>)
    requires |f| == 4
    ensures Run(r, f) == NewCrc(NewCrc(NewCrc(NewCrc(r, f[0]), f[1]), f[2]), f[3])
  {
    var a := NewCrc(r, f[0]);
    var b := NewCrc(a, f[1]);
    var c := NewCrc(b, f[2]);
    assert f[3..][1..] == [];
    assert Run(c, f[3..]) == NewCrc(c, f[3]);
    assert f[2..][1..] == f[3..] && f[1..][1..] == f[2..];
    assert Run(b, f[2..]) == Run(c, f[3..]);
    assert Run(a, f[1..]) == Run(b, f[2..]);
  }

  /** Whatever the message, appending the bytes that crc_gen shifts out leaves the residue. */
  lemma FcsAccepted(m: seq<Byte>)
    ensures Accepts(m + Fcs(Run(INIT, m)))
  {
    var r := Run(INIT, m);
    RunAppend(INIT, m, Fcs(r));
    RunFour(r, Fcs(r));
    FourFcsBytes(r, 0);
  }

  // ---------------------------------------------------------------- burst detection

  /** A data byte acts on the register exactly like these bits of the register itself. */
  function Entering(d: Byte): bv32 {
    (Reversed(d) as bv32) << 24
  }

  function Shr8(x: bv32): bv32 { x >> 8 }

  lemma AbsorbPairs(r: bv32, d: Byte)
    ensures Pairs(r, d) == Pairs(Xor(r, Entering(d)), 0) && Shl8(r) == Shl8(Xor(r, Entering(d)))
  {
  }

  lemma Absorb(r: bv32, d: Byte)
    ensures NewCrc(r, d) == NewCrc(Xor(r, Entering(d)), 0)
  {
    AbsorbPairs(r, d);
  }

  lemma LaterBytes(r: bv32, b: bv32)
    requires b & 0xff == 0
    ensures Pairs(Xor(r, Shr8(b)), 0) == Pairs(r, 0)
    ensures Shl8(Xor(r, Shr8(b))) == Xor(Shl8(r), b)
  {
    LaterTop(r, b);
    LaterRest(r, b);
  }

  lemma LaterTop(r: bv32, b: bv32)
    ensures Top(Xor(r, Shr8(b))) == Top(r)
  {
  }

  lemma LaterRest(r: bv32, b: bv32)
    requires b & 0xff == 0
    ensures Shl8(Xor(r, Shr8(b))) == Xor(Shl8(r), b)
  {
  }

  /** Bits entering with later bytes may as well be in the register already. */
  lemma Early(r: bv32, b: bv32)
    requires b & 0xff == 0
    ensures Xor(NewCrc(r, 0), b) == NewCrc(Xor(r, Shr8(b)), 0)
  {
    LaterBytes(r, b);
    var w := Wires(Pairs(r, 0));
    XorAssoc(Shl8(r), w, b);
    XorComm(w, b);
    XorAssoc(Shl8(r), b, w);
  }

  /** At most four bytes as one word, the first on top. */
  function Block(w: seq<Byte>): bv32
    requires |w| <= 4
  {
    if |w| == 0 then 0 else Xor(Entering(w[0]), Shr8(Block(w[1..])))
  }

  function Zeros(n: nat): seq<Byte> {
    seq(n, _ => 0)
  }

  lemma BlockLow(e: bv32, b: bv32, d: Byte)
    requires e == Entering(d)
    ensures b == 0 ==> Xor(e, Shr8(b)) & 0x00ff_ffff == 0
    ensures b & 0x00ff_ffff == 0 ==> Xor(e, Shr8(b)) & 0xffff == 0
    ensures b & 0xffff == 0 ==> Xor(e, Shr8(b)) & 0xff == 0
  {
  }

  lemma {:induction false} BlockLowBytes(w: seq<Byte>)
    requires |w| <= 3
    ensures Block(w) & 0xff == 0
    ensures |w| <= 2 ==> Block(w) & 0xffff == 0
    ensures |w| <= 1 ==> Block(w) & 0x00ff_ffff == 0
    ensures |w| == 0 ==> Block(w) == 0
  {
    if |w| > 0 {
      BlockLowBytes(w[1..]);
      BlockLow(Entering(w[0]), Block(w[1..]), w[0]);
    }
  }

  /** A window of at most four bytes is one word xored into the register, followed by zero bytes. */
  lemma {:induction false} RunBlock(r: bv32, w: seq<Byte>)
    requires |w| <= 4
    ensures Run(r, w) == Run(Xor(r, Block(w)), Zeros(|w|))
    decreases |w|
  {
    if |w| == 0 {
      XorZero(r, Block(w));
    } else {
      var e, b := Entering(w[0]), Block(w[1..]);
      RunBlock(NewCrc(r, w[0]), w[1..]);
      Absorb(r, w[0]);
      BlockLowBytes(w[1..]);
      Early(Xor(r, e), b);
      XorAssoc(r, e, Shr8(b));
      assert Zeros(|w|)[0] == 0 && Zeros(|w|)[1..] == Zeros(|w| - 1);
    }
  }

  lemma BlockSplit(d: Byte, b: bv32, e: Byte, c: bv32)
    requires b & 0xff == 0 && c & 0xff == 0
    requires Xor(Entering(d), Shr8(b)) == Xor(Entering(e), Shr8(c))
    ensures d == e && b == c
  {
  }

  lemma {:induction false} BlockInjective(w: seq<Byte>, v: seq<Byte>)
    requires |w| == |v| <= 4 && Block(w) == Block(v)
    ensures w == v
    decreases |w|
  {
    if |w| > 0 {
      BlockLowBytes(w[1..]);
      BlockLowBytes(v[1..]);
      BlockSplit(w[0], Block(w[1..]), v[0], Block(v[1..]));
      BlockInjective(w[1..], v[1..]);
      assert w == [w[0]] + w[1..] && v == [v[0]] + v[1..];
    }
  }

  lemma XorCancelLeft(r: bv32, x: bv32, y: bv32)
    requires Xor(r, x) == Xor(r, y)
    ensures x == y
  {
  }

  /** Strings that agree outside a window of at most four bytes reach different registers. */
  lemma WindowInjective(r: bv32, w: seq<Byte>, v: seq<Byte>, rest: seq<Byte>)
    requires |w| == |v| <= 4
    requires Run(r, w + rest) == Run(r, v + rest)
    ensures w == v
  {
    RunAppend(r, w, rest);
    RunAppend(r, v, rest);
    RunInjective(Run(r, w), Run(r, v), rest);
    RunBlock(r, w);
    RunBlock(r, v);
    RunInjective(Xor(r, Block(w)), Xor(r, Block(v)), Zeros(|w|));
    XorCancelLeft(r, Block(w), Block(v));
    BlockInjective(w, v);
  }

  /** Of two frames that differ inside a window of at most four bytes, at most one is accepted. */
  lemma BurstDetected(before: seq<Byte>, w: seq<Byte>, v: seq<Byte>, rest: seq<Byte>)
    requires |w| == |v| <= 4 && w != v
    ensures !(Accepts(before + w + rest) && Accepts(before + v + rest))
  {
    if Accepts(before + w + rest) && Accepts(before + v + rest) {
      assert before + w + rest == before + (w + rest) && before + v + rest == before + (v + rest);
      RunAppend(INIT, before, w + rest);
      RunAppend(INIT, before, v + rest);
      WindowInjective(Run(INIT, before), w, v, rest);
    }
  }

  /** The checker accepts exactly the frames whose last four bytes are the ones crc_gen would send. */
  lemma AcceptsIffFcs(m: seq<Byte>, f: seq<Byte>)
    requires |f| == 4
    ensures Accepts(m + f) <==> f == Fcs(Run(INIT, m))
  {
    FcsAccepted(m);
    if Accepts(m + f) {
      var r := Run(INIT, m);
      RunAppend(INIT, m, f);
      RunAppend(INIT, m, Fcs(r));
      assert f + [] == f && Fcs(r) + [] == Fcs(r);
      WindowInjective(r, f, Fcs(r), []);
    }
  }

  // ---------------------------------------------------------------- the first four bytes

  /** The message with the bits of its first four bytes complemented. */
  function Complemented(m: seq<Byte>): seq<Byte>
    requires |m| >= 4
  {
    [!m[0], !m[1], !m[2], !m[3]] + m[4..]
  }

  lemma OnesCancel(k: bv32, e: Byte)
    requires e == 0xff && Top(k) == 0xff
    ensures NewCrc(k, e) == Shl8(k)
  {
  }

  lemma ByteBack(d: Byte, e: Byte)
    requires e == 0xff
    ensures !d ^ e == d
  {
  }

  /** Ones in the register and in the byte that enters cancel. */
  lemma ComplementStep(r: bv32, k: bv32, d: Byte, e: Byte)
    requires e == 0xff && Top(k) == 0xff
    ensures NewCrc(Xor(r, k), d) == Xor(NewCrc(r, !d), Shl8(k))
  {
    ByteBack(d, e);
    NewCrcLinear(r, !d, k, e);
    OnesCancel(k, e);
  }

  lemma OnesShift(k: bv32)
    requires k == 0xffff_ffff
    ensures Top(k) == 0xff && Top(Shl8(k)) == 0xff && Top(Shl8(Shl8(k))) == 0xff && Top(Shl8(Shl8(Shl8(k)))) == 0xff
    ensures Shl8(Shl8(Shl8(Shl8(k)))) == 0
  {
  }

  lemma FourComplemented(r: bv32, k: bv32, m: seq<Byte>, c: seq<Byte>, e: Byte)
    requires k == 0xffff_ffff && e == 0xff && |m| == |c| == 4
    requires c[0] == !m[0] && c[1] == !m[1] && c[2] == !m[2] && c[3] == !m[3]
    ensures Run(Xor(r, k), m) == Run(r, c)
  {
    OnesShift(k);
    var k1 := Shl8(k);
    var k2 := Shl8(k1);
    var k3 := Shl8(k2);
    var r1 := NewCrc(r, c[0]);
    var r2 := NewCrc(r1, c[1]);
    var r3 := NewCrc(r2, c[2]);
    ComplementStep(r, k, m[0], e);
    ComplementStep(r1, k1, m[1], e);
    ComplementStep(r2, k2, m[2], e);
    ComplementStep(r3, k3, m[3], e);
    XorZero(NewCrc(r3, c[3]), Shl8(k3));
    RunFour(Xor(r, k), m);
    RunFour(r, c);
  }

  /**
   The register that both begin with does what section 3.2.9 of IEEE 802.3 defines: the division is that of the message
   with its first 32 bits complemented, from a register of zeros.
   */
  lemma InitComplements(m: seq<Byte>)
    requires |m| >= 4
    ensures Run(INIT, m) == Run(0, Complemented(m))
  {
    var zero: bv32, ones: bv32 := 0, 0xffff_ffff;
    var first, c := m[..4], Complemented(m)[..4];
    FourComplemented(zero, ones, first, c, 0xff);
    XorZeroLeft(zero, ones);
    assert m == first + m[4..] && Complemented(m) == c + m[4..];
    RunAppend(ones, first, m[4..]);
    RunAppend(zero, c, m[4..]);
  }

  lemma ZeroByteMoves(r: bv32, d: Byte)
    requires r == 0xffff_ffff && d == 0
    ensures NewCrc(r, d) != r
  {
  }

  /** A zero byte in front changes the check sequence, which it would not do from a register of zeros. */
  lemma LeadingZero(m: seq<Byte>)
    ensures Run(INIT, [0] + m) != Run(INIT, m)
  {
    ZeroByteMoves(INIT, 0);
    assert ([0] + m)[1..] == m;
    if Run(INIT, [0] + m) == Run(INIT, m) {
      RunInjective(NewCrc(INIT, 0), INIT, m);
    }
  }

  lemma OnesFill(r: bv32)
    ensures ShiftOut(ShiftOut(ShiftOut(ShiftOut(r)))) == 0xffff_ffff
  {
  }

  /** Once the four bytes are out, the generator holds what it begins with. */
  lemma ReadyAgain(r: bv32)
    ensures ShiftedOut(r, 4) == INIT
  {
    OnesFill(r);
  }

  lemma EnteringBack(r: bv32)
    ensures Entering(FcsByte(r)) == (!r) & 0xff00_0000
  {
  }

  lemma Joined(r: bv32, a: bv32, b: bv32, c: bv32, d: bv32)
    requires a == (!r) & 0xff00_0000 && b == (!Shl8(r)) & 0xff00_0000
    requires c == (!Shl8(Shl8(r))) & 0xff00_0000 && d == (!Shl8(Shl8(Shl8(r)))) & 0xff00_0000
    ensures Xor(a, Shr8(Xor(b, Shr8(Xor(c, Shr8(d)))))) == !r
  {
  }

  lemma TopOnly(r: bv32, s: bv32)
    requires Top(r) == Top(s)
    ensures FcsByte(r) == FcsByte(s)
  {
  }

  lemma BlockOne(d: Byte)
    ensures Block([d]) == Entering(d)
  {
    var zero: bv32 := 0;
    ShiftedZero(zero);
    XorZero(Entering(d), Shr8(zero));
  }

  lemma BlockMore(d: Byte, w: seq<Byte>)
    requires |w| <= 3
    ensures Block([d] + w) == Xor(Entering(d), Shr8(Block(w)))
  {
    assert ([d] + w)[1..] == w;
  }

  lemma BlockFour(a: Byte, b: Byte, c: Byte, d: Byte)
    ensures Block([a, b, c, d]) == Xor(Entering(a), Shr8(Xor(Entering(b), Shr8(Xor(Entering(c), Shr8(Entering(d)))))))
  {
    BlockOne(d);
    BlockMore(c, [d]);
    BlockMore(b, [c] + [d]);
    BlockMore(a, [b] + ([c] + [d]));
    assert [a] + ([b] + ([c] + [d])) == [a, b, c, d];
  }

  lemma ShiftedZero(zero: bv32)
    requires zero == 0
    ensures Shr8(zero) == 0
  {
  }

  /** What is sent is the complement of the register, from the top bit on, each byte beginning with its lowest bit. */
  lemma FcsIsComplement(r: bv32)
    ensures Block(Fcs(r)) == !r
  {
    var r1 := ShiftOut(r);
    var r2 := ShiftOut(r1);
    var r3 := ShiftOut(r2);
    var f := Fcs(r);
    ShiftedTops(r);
    TopOnly(r1, Shl8(r));
    TopOnly(r2, Shl8(Shl8(r)));
    TopOnly(r3, Shl8(Shl8(Shl8(r))));
    EnteringBack(r);
    EnteringBack(Shl8(r));
    EnteringBack(Shl8(Shl8(r)));
    EnteringBack(Shl8(Shl8(Shl8(r))));
    Joined(r, Entering(f[0]), Entering(f[1]), Entering(f[2]), Entering(f[3]));
    BlockFour(f[0], f[1], f[2], f[3]);
  }

  // ---------------------------------------------------------------- generator and checker on one wire

  lemma RunSnoc(r: bv32, m: seq<Byte>, d: Byte)
    ensures Run(r, m + [d]) == Run(Run(r, m), [d])
  {
    RunAppend(r, m, [d]);
  }

  /** The bytes that the generator shifts out, one for each clock. */
  function Shifted(r: bv32, n: nat): (s: seq<Byte>)
    ensures |s| == n
    decreases n
  {
    if n == 0 then [] else [FcsByte(r)] + Shifted(ShiftOut(r), n - 1)
  }

  function ShiftedOut(r: bv32, n: nat): bv32
    decreases n
  {
    if n == 0 then r else ShiftedOut(ShiftOut(r), n - 1)
  }

  lemma {:induction false} ShiftedSnoc(r: bv32, n: nat)
    ensures Shifted(r, n + 1) == Shifted(r, n) + [FcsByte(ShiftedOut(r, n))]
    ensures ShiftedOut(r, n + 1) == ShiftOut(ShiftedOut(r, n))
    decreases n
  {
    if n > 0 {
      ShiftedSnoc(ShiftOut(r), n - 1);
    }
  }

  lemma FourShifted(r: bv32)
    ensures Shifted(r, 4) == Fcs(r)
  {
    var r1 := ShiftOut(r);
    var r2 := ShiftOut(r1);
    assert Shifted(r1, 3) == [FcsByte(r1)] + Shifted(r2, 2);
    assert Shifted(r2, 2) == [FcsByte(r2)] + Shifted(ShiftOut(r2), 1);
  }

  /**
   A frame from one clocked register to the other: each byte clocks both, and then the generator shifts out the four
   bytes that it presents. Whatever the message, the checker says good at the end.
   */
  method SendAndCheck(m: seq<Byte>) returns (wire: seq<Byte>, good: bool)
    ensures wire == m + Fcs(Run(INIT, m)) && good
  {
    var gen := new CrcGen();
    var chk := new CrcChk();
    gen.Clock(true, false, 0);
    chk.Clock(true, 0);
    wire := [];
    var i := 0;
    while i < |m|
      invariant i <= |m| && wire == m[..i] && gen.crcReg == chk.crcReg == Run(INIT, wire)
    {
      RunSnoc(INIT, m[..i], m[i]);
      assert m[..i + 1] == m[..i] + [m[i]];
      gen.Clock(false, false, m[i]);
      chk.Clock(false, m[i]);
      wire := wire + [m[i]];
      i := i + 1;
    }
    ghost var r := Run(INIT, m);
    assert m[..i] == m && m + Shifted(r, 0) == m;
    i := 0;
    while i < 4
      invariant i <= 4 && wire == m + Shifted(r, i) && gen.crcReg == ShiftedOut(r, i) && chk.crcReg == Run(INIT, wire)
    {
      var b := gen.Output();
      RunSnoc(INIT, wire, b);
      ShiftedSnoc(r, i);
      chk.Clock(false, b);
      gen.Clock(false, true, 0);
      wire := wire + [b];
      i := i + 1;
    }
    FourShifted(r);
    FcsAccepted(m);
    good := chk.Good();
  }
}
