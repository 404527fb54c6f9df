/**
 The J1 stack processor of j1.v: one step of the machine on its exact state, including the two
 circular stacks of 32 cells, and the clocked registers that take that step.
 */
module J1 {
  import opened Words

  const RAM_WORDS := 0x2000
  const STACK_CELLS := 32

  /** An access to an address outside the RAM, as a device sees it. */
  datatype Access = Read(address: Word, value: Word) | Write(address: Word, value: Word)

  /** What the bus answers to a read, given all accesses so far. */
  type Bus = (seq<Access>, Word) -> Word

  datatype Machine = Machine(
    pc: nat,
    dsp: nat,
    st0: Word,
    rsp: nat,
    dstack: seq<Word>,
    rstack: seq<Word>,
    ram: seq<Word>,
    log: seq<Access>)
  {
    predicate Valid() {
      && pc < RAM_WORDS && dsp < STACK_CELLS && rsp < STACK_CELLS
      && |dstack| == STACK_CELLS && |rstack| == STACK_CELLS && |ram| == RAM_WORDS
    }
  }

  // ---------------------------------------------------------------- instruction fields

  /** Bits high to low of an instruction, as a Verilog part select. */
  function Field(insn: Word, low: nat, width: nat): nat {
    (insn / Pow2(low)) % Pow2(width)
  }

  predicate Bit(insn: Word, n: nat) {
    Field(insn, n, 1) == 1
  }

  /** The fields of an ALU instruction. */
  datatype Op = Op(sel: nat, tn: bool, tr: bool, nm: bool, rd: nat, dd: nat) {
    predicate Valid() {
      sel < 16 && rd < 4 && dd < 4
    }
  }

  function Decode(insn: Word): (op: Op)
    ensures op.Valid()
  {
    assert Pow2(4) == 16 && Pow2(2) == 4;
    Op(Field(insn, 8, 4), Bit(insn, 7), Bit(insn, 6), Bit(insn, 5), Field(insn, 2, 2), Field(insn, 0, 2))
  }

  /** A two-bit stack delta, sign-extended: 0, 1, -2, -1. */
  function Delta(d: nat): int {
    if d == 0 then 0 else if d == 1 then 1 else if d == 2 then -2 else -1
  }

  function Moved(sp: nat, d: nat): (r: nat)
    ensures r < STACK_CELLS
  {
    (sp + Delta(d)) % STACK_CELLS
  }

  /** Pointers have five bits; a delta is sign-extended to five bits and added. */
  lemma MovedIs(sp: nat, d: nat)
    requires sp < 32 && d < 4
    ensures Moved(sp, d) == (sp + (if d / 2 == 1 then 0x1C + d else d)) % 32
  {
  }

  // ---------------------------------------------------------------- the ALU

  function AndWord(a: Word, b: Word): Word {
    AndBound(a, b);
    And(a, b)
  }

  function OrWord(a: Word, b: Word): Word {
    WordPow2();
    OrXorBound(a, b, 16);
    Or(a, b)
  }

  function XorWord(a: Word, b: Word): Word {
    WordPow2();
    OrXorBound(a, b, 16);
    Xor(a, b)
  }

  function ShiftRight(a: Word, n: Word): Word {
    DivLess(a, Pow2(n % 16));
    a / Pow2(n % 16)
  }

  lemma DivLess(a: nat, p: nat)
    requires p > 0
    ensures 0 <= a / p <= a
  {
    DivModIdentity(a, p);
    TimesAtLeast(a / p, p);
  }

  /** The next value of st0; din is what [T] reads. */
  function AluResult(sel: nat, st0: Word, st1: Word, rst0: Word, rsp: nat, dsp: nat, din: Word): Word
    requires rsp < STACK_CELLS && dsp < STACK_CELLS
  {
    match sel
    case 0 => st0
    case 1 => st1
    case 2 => Wrap(st0 + st1)
    case 3 => AndWord(st0, st1)
    case 4 => OrWord(st0, st1)
    case 5 => XorWord(st0, st1)
    case 6 => Not(st0)
    case 7 => Flag(st1 == st0)
    case 8 => Flag(Signed(st1) < Signed(st0))
    case 9 => ShiftRight(st1, st0)
    case 10 => Wrap(st0 - 1)
    case 11 => rst0
    case 12 => din
    case 13 => Wrap(st1 * Pow2(st0 % 16))
    case 14 => 0x100 * rsp + dsp
    case _ => Flag(st1 < st0)
  }

  /** Whether an ALU operation reads the bus, and what it reads. */
  predicate ReadsBus(op: Op, st0: Word) {
    op.sel == 12 && st0 >= 0x4000
  }

  function DataIn(ram: seq<Word>, log: seq<Access>, st0: Word, bus: Bus): Word
    requires |ram| == RAM_WORDS
  {
    if st0 >= 0x4000 then bus(log, st0) else ram[st0 / 2]
  }

  /** The accesses one ALU operation makes. */
  function Accesses(op: Op, log: seq<Access>, st0: Word, st1: Word, din: Word): seq<Access> {
    log + (if ReadsBus(op, st0) then [Read(st0, din)] else []) + (if op.nm then [Write(st0, st1)] else [])
  }

  /** The RAM after an ALU operation: a write goes to the address in the result, not in st0. */
  function Stored(op: Op, ram: seq<Word>, result: Word, st1: Word): (r: seq<Word>)
    requires |ram| == RAM_WORDS
    ensures |r| == RAM_WORDS
  {
    if op.nm && result < 0x4000 then ram[result / 2 := st1] else ram
  }

  // ---------------------------------------------------------------- one step

  function NextPc(m: Machine): nat {
    (m.pc + 1) % RAM_WORDS
  }

  function StepAlu(m: Machine, op: Op, toPc: bool, bus: Bus): Machine
    requires m.Valid() && op.Valid()
  {
    var st1, rst0 := m.dstack[m.dsp], m.rstack[m.rsp];
    var din := DataIn(m.ram, m.log, m.st0, bus);
    var result := AluResult(op.sel, m.st0, st1, rst0, m.rsp, m.dsp, din);
    var dsp, rsp := Moved(m.dsp, op.dd), Moved(m.rsp, op.rd);
    Machine(if toPc then (rst0 / 2) % RAM_WORDS else NextPc(m),
            dsp, result, rsp,
            if op.tn then m.dstack[dsp := m.st0] else m.dstack,
            if op.tr then m.rstack[rsp := m.st0] else m.rstack,
            Stored(op, m.ram, result, st1),
            Accesses(op, m.log, m.st0, st1, din))
  }

  function StepLiteral(m: Machine, n: Word): Machine
    requires m.Valid()
  {
    var dsp := Moved(m.dsp, 1);
    m.(pc := NextPc(m), dsp := dsp, st0 := n, dstack := m.dstack[dsp := m.st0])
  }

  function StepBranch(m: Machine, target: nat): Machine {
    m.(pc := target)
  }

  function StepZeroBranch(m: Machine, target: nat): Machine
    requires m.Valid()
  {
    m.(pc := if m.st0 == 0 then target else NextPc(m), dsp := Moved(m.dsp, 3), st0 := m.dstack[m.dsp])
  }

  function StepCall(m: Machine, target: nat): Machine
    requires m.Valid()
  {
    var rsp := Moved(m.rsp, 1);
    m.(pc := target, rsp := rsp, rstack := m.rstack[rsp := 2 * (m.pc + 1)])
  }

  /** One clock with the instruction at pc. */
  function Step(m: Machine, bus: Bus): (r: Machine)
    requires m.Valid()
    ensures r.Valid()
  {
    var insn := m.ram[m.pc];
    if insn >= 0x8000 then StepLiteral(m, insn - 0x8000)
    else
      var target := insn % 0x2000;
      if insn / 0x2000 == 0 then StepBranch(m, target)
      else if insn / 0x2000 == 1 then StepZeroBranch(m, target)
      else if insn / 0x2000 == 2 then StepCall(m, target)
      else StepAlu(m, Decode(insn), Bit(insn, 12), bus)
  }

  function Run(m: Machine, n: nat, bus: Bus): (r: Machine)
    requires m.Valid()
    ensures r.Valid()
    decreases n
  {
    if n == 0 then m else Run(Step(m, bus), n - 1, bus)
  }

  lemma {:induction false} RunAdd(m: Machine, a: nat, b: nat, bus: Bus)
    requires m.Valid()
    ensures Run(m, a + b, bus) == Run(Run(m, a, bus), b, bus)
    decreases a
  {
    if a > 0 {
      RunAdd(Step(m, bus), a - 1, b, bus);
    }
  }

  /** The machine gets from m to n in some number of steps. */
  ghost predicate Goes(m: Machine, n: Machine, bus: Bus) {
    m.Valid() && n.Valid() && exists k: nat :: Run(m, k, bus) == n
  }

  lemma GoesZero(m: Machine, bus: Bus)
    requires m.Valid()
    ensures Goes(m, m, bus)
  {
    assert Run(m, 0, bus) == m;
  }

  lemma GoesStep(m: Machine, bus: Bus)
    requires m.Valid()
    ensures Goes(m, Step(m, bus), bus)
  {
    assert Run(Step(m, bus), 0, bus) == Step(m, bus);
    assert Run(m, 1, bus) == Step(m, bus);
  }

  lemma GoesOn(a: Machine, b: Machine, c: Machine, bus: Bus)
    requires Goes(a, b, bus) && Goes(b, c, bus)
    ensures Goes(a, c, bus)
  {
    var j: nat :| Run(a, j, bus) == b;
    var k: nat :| Run(b, k, bus) == c;
    RunAdd(a, j, k, bus);
  }

  // ---------------------------------------------------------------- encodings

  /** The word for an ALU operation; toPc is the return bit. */
  function Encode(op: Op, toPc: bool): Word
    requires op.Valid()
  {
    0x6000 + (if toPc then 0x1000 else 0) + 0x100 * op.sel + (if op.tn then 0x80 else 0)
    + (if op.tr then 0x40 else 0) + (if op.nm then 0x20 else 0) + 4 * op.rd + op.dd
  }

  lemma Powers()
    ensures Pow2(0) == 1 && Pow2(1) == 2 && Pow2(2) == 4 && Pow2(4) == 16 && Pow2(5) == 32
    ensures Pow2(6) == 64 && Pow2(7) == 128 && Pow2(8) == 256 && Pow2(12) == 4096 && Pow2(13) == 8192
  {
  }

  lemma FieldIs(insn: Word, low: nat, width: nat, p: nat, q: nat)
    requires Pow2(low) == p && Pow2(width) == q
    ensures Field(insn, low, width) == (insn / p) % q
  {
  }

  /** The word as a sum of its fields, and what is left after dropping the low ones. */
  lemma Dropped(n: Word, p: nat, s: nat, a: nat, b: nat, c: nat, rd: nat, dd: nat)
    requires n == 0x6000 + 0x1000 * p + 0x100 * s + 0x80 * a + 0x40 * b + 0x20 * c + 4 * rd + dd
    requires p < 2 && s < 16 && a < 2 && b < 2 && c < 2 && rd < 4 && dd < 4
    ensures n / 1 == n && n / 4 == 0x1800 + 0x400 * p + 0x40 * s + 0x20 * a + 0x10 * b + 8 * c + rd
    ensures n / 32 == 0x300 + 0x80 * p + 8 * s + 4 * a + 2 * b + c && n / 64 == 0x180 + 0x40 * p + 4 * s + 2 * a + b
    ensures n / 128 == 0xC0 + 0x20 * p + 2 * s + a && n / 256 == 0x60 + 0x10 * p + s
    ensures n / 4096 == 6 + p && n / 8192 == 3
  {
  }

  lemma LowEnds(n: Word, p: nat, s: nat, a: nat, b: nat, c: nat, rd: nat, dd: nat)
    requires n == 0x6000 + 0x1000 * p + 0x100 * s + 0x80 * a + 0x40 * b + 0x20 * c + 4 * rd + dd
    requires p < 2 && s < 16 && a < 2 && b < 2 && c < 2 && rd < 4 && dd < 4
    ensures (n / 1) % 4 == dd && (n / 4) % 4 == rd && (n / 32) % 2 == c && (n / 64) % 2 == b
    ensures (n / 128) % 2 == a && (n / 256) % 16 == s && (n / 4096) % 2 == p
  {
    Dropped(n, p, s, a, b, c, rd, dd);
  }

  /** The machine reads back the operation that was encoded. */
  lemma DecodeEncode(op: Op, toPc: bool)
    requires op.Valid()
    ensures Decode(Encode(op, toPc)) == op && (Bit(Encode(op, toPc), 12) <==> toPc)
    ensures Encode(op, toPc) / 0x2000 == 3
  {
    var n := Encode(op, toPc);
    var p, a := if toPc then 1 else 0, if op.tn then 1 else 0;
    var b, c := if op.tr then 1 else 0, if op.nm then 1 else 0;
    Dropped(n, p, op.sel, a, b, c, op.rd, op.dd);
    LowEnds(n, p, op.sel, a, b, c, op.rd, op.dd);
    Powers();
    FieldIs(n, 8, 4, 256, 16);
    FieldIs(n, 7, 1, 128, 2);
    FieldIs(n, 6, 1, 64, 2);
    FieldIs(n, 5, 1, 32, 2);
    FieldIs(n, 2, 2, 4, 4);
    FieldIs(n, 0, 2, 1, 4);
    FieldIs(n, 12, 1, 4096, 2);
  }

  // ---------------------------------------------------------------- the clocked module

  /** The registers, the stacks and the RAM, updated in place on every clock. */
  class Core {
    var pc: nat
    var dsp: nat
    var st0: Word
    var rsp: nat
    const dstack: array<Word>
    const rstack: array<Word>
    const ram: array<Word>
    ghost var log: seq<Access>

    ghost predicate Valid()
      reads this, dstack, rstack, ram
    {
      State().Valid() && dstack != rstack && dstack != ram && rstack != ram
    }

    ghost function State(): Machine
      reads this, dstack, rstack, ram
    {
      Machine(pc, dsp, st0, rsp, dstack[..], rstack[..], ram[..], log)
    }

    /** Reset clears the registers; stacks and RAM keep their contents. */
    constructor (image: seq<Word>)
      requires |image| == RAM_WORDS
      ensures Valid() && pc == dsp == rsp == 0 && st0 == 0 && ram[..] == image && log == []
      ensures fresh(dstack) && fresh(rstack) && fresh(ram)
    {
      pc, dsp, st0, rsp := 0, 0, 0, 0;
      dstack := new Word[STACK_CELLS](_ => 0);
      rstack := new Word[STACK_CELLS](_ => 0);
      var cells := new Word[RAM_WORDS](_ => 0);
      ram := cells;
      log := [];
      new;
      forall i | 0 <= i < RAM_WORDS {
        ram[i] := image[i];
      }
      assert ram[..] == image;
    }

    /** The stack pointers move, and st0 is written to the stacks that the operation writes. */
    method MoveStacks(op: Op, result: Word)
      requires Valid() && op.Valid()
      modifies this`dsp, this`rsp, this`st0, dstack, rstack
      ensures dsp == Moved(old(dsp), op.dd) && rsp == Moved(old(rsp), op.rd) && st0 == result
      ensures dstack[..] == if op.tn then old(dstack[..])[dsp := old(st0)] else old(dstack[..])
      ensures rstack[..] == if op.tr then old(rstack[..])[rsp := old(st0)] else old(rstack[..])
    {
      dsp, rsp := Moved(dsp, op.dd), Moved(rsp, op.rd);
      if op.tn {
        dstack[dsp] := st0;
      }
      if op.tr {
        rstack[rsp] := st0;
      }
      st0 := result;
    }

    /** The ALU branch of the next-state logic, with the answer of the bus if it is read. */
    method ClockAlu(op: Op, toPc: bool, ioDin: Word, ghost bus: Bus)
      requires Valid() && op.Valid() && ioDin == bus(log, st0)
      modifies this, dstack, rstack, ram
      ensures Valid() && State() == StepAlu(old(State()), op, toPc, bus)
    {
      var st1, rst0 := dstack[dsp], rstack[rsp];
      var din := if st0 >= 0x4000 then ioDin else ram[st0 / 2];
      var result := AluResult(op.sel, st0, st1, rst0, rsp, dsp, din);
      log := Accesses(op, log, st0, st1, din);
      if op.nm && result < 0x4000 {
        ram[result / 2] := st1;
      }
      assert ram[..] == Stored(op, old(ram[..]), result, st1);
      pc := if toPc then (rst0 / 2) % RAM_WORDS else (pc + 1) % RAM_WORDS;
      MoveStacks(op, result);
    }

    method Clock(ioDin: Word, ghost bus: Bus)
      requires Valid() && ioDin == bus(log, st0)
      modifies this, dstack, rstack, ram
      ensures Valid() && State() == Step(old(State()), bus)
    {
      var insn := ram[pc];
      var target, next := insn % 0x2000, (pc + 1) % RAM_WORDS;
      if insn >= 0x8000 {
        dsp := Moved(dsp, 1);
        dstack[dsp] := st0;
        st0, pc := insn - 0x8000, next;
      } else if insn / 0x2000 == 0 {
        pc := target;
      } else if insn / 0x2000 == 1 {
        pc := if st0 == 0 then target else next;
        st0 := dstack[dsp];
        dsp := Moved(dsp, 3);
      } else if insn / 0x2000 == 2 {
        rsp := Moved(rsp, 1);
        rstack[rsp] := 2 * (pc + 1);
        pc := target;
      } else {
        ClockAlu(Decode(insn), Bit(insn, 12), ioDin, bus);
      }
    }
  }
}
