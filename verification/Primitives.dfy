/**
 The operations of basewords.fs that other modules speak of, by the fields that the assembler or's together.
 */
module Primitives {
  import opened J1
  import opened Forth

  const NOTHING: AluOp := Op(0, false, false, false, 0, 0)
  const DEPTHS: AluOp := Op(14, true, false, false, 0, 1)
  const FETCH: AluOp := Op(12, false, false, false, 0, 0)
  const STORE_DROP: AluOp := Op(0, false, false, true, 0, 3)
  const DROP: AluOp := Op(1, false, false, false, 0, 3)
  const DUP: AluOp := Op(0, true, false, false, 0, 1)
  const OVER: AluOp := Op(1, true, false, false, 0, 1)
  const SWAP: AluOp := Op(1, true, false, false, 0, 0)
  const PLUS: AluOp := Op(2, false, false, false, 0, 3)
  const AND: AluOp := Op(3, false, false, false, 0, 3)
  const OR: AluOp := Op(4, false, false, false, 0, 3)
  const XOR: AluOp := Op(5, false, false, false, 0, 3)
  const INVERT: AluOp := Op(6, false, false, false, 0, 0)
  const EQUAL: AluOp := Op(7, false, false, false, 0, 3)
  const LESS: AluOp := Op(8, false, false, false, 0, 3)
  const U_LESS: AluOp := Op(15, false, false, false, 0, 3)
  const RSHIFT: AluOp := Op(9, false, false, false, 0, 3)
  const LSHIFT: AluOp := Op(13, false, false, false, 0, 3)
  const DEC: AluOp := Op(10, false, false, false, 0, 0)
  const TO_R: AluOp := Op(1, false, true, false, 1, 3)
  const R_FROM: AluOp := Op(11, true, false, false, 3, 1)
  const DUP_TO_R: AluOp := Op(0, false, true, false, 1, 0)
  const DUP_FETCH: AluOp := Op(12, true, false, false, 0, 1)
  const TWO_DUP_XOR: AluOp := Op(5, true, false, false, 0, 1)
}
