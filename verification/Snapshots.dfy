/**
 What is known of a machine: the top cells of both stacks, the program counter and the memory. One instruction leads
 from one such state to another; with a ring full, it shows what has become of the cell underneath the known ones.
 */
module Snapshots {
  import opened Words
  import opened J1
  import opened CodeGen
  import opened Primitives
  import opened Stacks

  const RAM_BYTES := 0x4000

  type Address = a: nat | a < RAM_WORDS

  /** An operation, plain or with the return folded in. */
  function Insn(op: Op, last: bool): Word
    requires op.Valid()
  {
    if last then Encode(op.(rd := 3), true) else Encode(op, false)
  }

  function CallTo(a: Address): Word {
    0x4000 + a
  }

  function Unless(a: nat): Word {
    0x2000 + Target(a)
  }

  function Number(n: nat): Word
    requires n < 0x8000
  {
    0x8000 + n
  }

  ghost predicate Code1(ram: seq<Word>, at: nat, a: Word) {
    at + 1 < |ram| && ram[at] == a
  }

  ghost predicate Code2(ram: seq<Word>, at: nat, a: Word, b: Word) {
    at + 2 < |ram| && ram[at] == a && ram[at + 1] == b
  }

  ghost predicate Code4(ram: seq<Word>, at: nat, a: Word, b: Word, c: Word, d: Word) {
    at + 4 < |ram| && ram[at] == a && ram[at + 1] == b && ram[at + 2] == c && ram[at + 3] == d
  }

  // ---------------------------------------------------------------- the machine and the known cells

  /** The two stacks of the machine hold these cells, on top of so many others. */
  ghost predicate Shows(m: Machine, d: Cells, r: Cells, h: nat, g: nat) {
    && m.Valid()
    && (d.Cell? ==> m.st0 == d.top && On(m.dstack, m.dsp, d.rest))
    && On(m.rstack, m.rsp, r)
    && m.dsp == (h + Len(d)) % STACK_CELLS && m.rsp == (g + Len(r)) % STACK_CELLS
  }

  /** The data stack after an operation with result x. */
  function DataAfter(op: Op, d: Cells, x: Word): Cells {
    if op.dd == 1 then Cell(x, d)
    else if op.dd == 0 then Cell(x, if op.tn then Cell(Top(d), Rest(Rest(d))) else Rest(d))
    else if Rest(d).Nil? then Nil else Cell(x, Rest(Rest(d)))
  }

  function ReturnsAfter(op: Op, d: Cells, r: Cells): Cells {
    if op.rd == 1 then Cell(Top(d), r) else if op.rd == 3 then Rest(r) else r
  }

  /** The operation finds the cells it takes, and there is room for those it pushes. */
  predicate Fits(op: Op, d: Cells, r: Cells) {
    && (if op.dd == 1 then op.tn && Len(d) <= STACK_CELLS
        else d.Cell? && Len(d) <= STACK_CELLS + 1 && if op.dd == 0 then op.tn ==> d.rest.Cell? else op.dd == 3 && !op.tn)
    && (if op.rd == 1 then op.tr && d.Cell? && Len(r) < STACK_CELLS
        else !op.tr && (op.rd == 0 || (op.rd == 3 && r.Cell?)))
  }

  /** The cells that the result of an operation depends on are known. */
  predicate Known(op: Op, d: Cells, r: Cells) {
    (op.sel == 11 || op.sel == 14 || d.Cell?) && (op.sel in {0, 6, 10, 11, 12, 14} || Rest(d).Cell?) && (op.sel == 11 ==> r.Cell?)
  }

  /** No known cell is left, so the result does not matter. */
  predicate Emptied(op: Op, d: Cells) {
    op.dd == 3 && Rest(d).Nil? && !op.nm
  }

  lemma DataCounted(op: Op, x: Word, d: Cells, r: Cells, h: nat)
    requires op.Valid() && Fits(op, d, r)
    ensures Moved((h + Len(d)) % STACK_CELLS, op.dd) == (h + Len(DataAfter(op, d, x))) % STACK_CELLS
  {
    Shifted(h + Len(d), Delta(op.dd));
    assert Len(DataAfter(op, d, x)) == Len(d) + Delta(op.dd);
  }

  lemma DataMoves(m: Machine, op: Op, x: Word, d: Cells, r: Cells, h: nat, g: nat)
    requires Shows(m, d, r, h, g) && op.Valid() && Fits(op, d, r)
    ensures var sp := Moved(m.dsp, op.dd);
      var e := DataAfter(op, d, x);
      e.Cell? ==> e.top == x && On(if op.tn then m.dstack[sp := m.st0] else m.dstack, sp, e.rest)
  {
    if op.dd == 1 {
      if d.Cell? {
        OnPush(m.dstack, m.dsp, d.rest, m.st0);
      }
    } else if op.dd == 0 {
      if op.tn {
        OnReplace(m.dstack, m.dsp, d.rest, m.st0);
      }
    } else {
      OnPop(m.dstack, m.dsp, d.rest);
    }
  }

  lemma ReturnsCounted(op: Op, d: Cells, r: Cells, g: nat)
    requires op.Valid() && Fits(op, d, r)
    ensures Moved((g + Len(r)) % STACK_CELLS, op.rd) == (g + Len(ReturnsAfter(op, d, r))) % STACK_CELLS
  {
    Shifted(g + Len(r), Delta(op.rd));
    assert Len(ReturnsAfter(op, d, r)) == Len(r) + Delta(op.rd);
  }

  lemma ReturnsMove(m: Machine, op: Op, d: Cells, r: Cells, h: nat, g: nat)
    requires Shows(m, d, r, h, g) && op.Valid() && Fits(op, d, r)
    ensures var sp := Moved(m.rsp, op.rd);
      On(if op.tr then m.rstack[sp := m.st0] else m.rstack, sp, ReturnsAfter(op, d, r))
  {
    if op.rd == 1 {
      OnPush(m.rstack, m.rsp, r, m.st0);
    } else if op.rd == 3 {
      OnPop(m.rstack, m.rsp, r);
    }
  }

  function Computes(m: Machine, op: Op, d: Cells, r: Cells, bus: Bus): Word
    requires m.Valid()
  {
    AluResult(op.sel, Top(d), Top(Rest(d)), Top(r), m.rsp, m.dsp, DataIn(m.ram, m.log, Top(d), bus))
  }

  lemma ResultIs(m: Machine, op: Op, d: Cells, r: Cells, h: nat, g: nat, bus: Bus)
    requires Shows(m, d, r, h, g) && op.Valid() && Known(op, d, r)
    ensures AluResult(op.sel, m.st0, m.dstack[m.dsp], m.rstack[m.rsp], m.rsp, m.dsp, DataIn(m.ram, m.log, m.st0, bus))
            == Computes(m, op, d, r, bus)
  {
    if d.Cell? {
      OnTop(m.dstack, m.dsp, d.rest);
    }
    OnTop(m.rstack, m.rsp, r);
  }

  lemma AluShows(m: Machine, op: Op, toPc: bool, d: Cells, r: Cells, h: nat, g: nat, bus: Bus) returns (x: Word)
    requires Shows(m, d, r, h, g) && op.Valid() && Fits(op, d, r)
    ensures Known(op, d, r) ==> x == Computes(m, op, d, r, bus)
    ensures Shows(StepAlu(m, op, toPc, bus), DataAfter(op, d, x), ReturnsAfter(op, d, r), h, g)
    ensures r.Cell? && toPc ==> StepAlu(m, op, toPc, bus).pc == Target(r.top / 2)
    ensures StepAlu(m, op, toPc, bus).st0 == x
  {
    x := StepAlu(m, op, toPc, bus).st0;
    if Known(op, d, r) {
      ResultIs(m, op, d, r, h, g, bus);
    }
    DataCounted(op, x, d, r, h);
    DataMoves(m, op, x, d, r, h, g);
    ReturnsCounted(op, d, r, g);
    ReturnsMove(m, op, d, r, h, g);
    OnTop(m.rstack, m.rsp, r);
  }

  /** What the memory holds after an operation on these cells. */
  ghost predicate RamAfter(op: Op, before: seq<Word>, after: seq<Word>, d: Cells, x: Word)
    requires |before| == RAM_WORDS
  {
    if op.nm then Rest(d).Cell? && x < RAM_BYTES ==> after == before[x / 2 := Top(Rest(d))] else after == before
  }

  /** The cell above the top of the return stack: the one that was popped last. */
  function Popped(m: Machine): Word
    requires m.Valid()
  {
    m.rstack[Moved(m.rsp, 1)]
  }

  lemma AluMemory(m: Machine, op: Op, toPc: bool, d: Cells, r: Cells, h: nat, g: nat, bus: Bus)
    requires Shows(m, d, r, h, g) && op.Valid()
    ensures RamAfter(op, m.ram, StepAlu(m, op, toPc, bus).ram, d, StepAlu(m, op, toPc, bus).st0)
    ensures !toPc && m.pc + 1 < RAM_WORDS ==> StepAlu(m, op, toPc, bus).pc == m.pc + 1
    ensures op.rd == 3 && !op.tr && r.Cell? ==> Popped(StepAlu(m, op, toPc, bus)) == r.top
  {
    if d.Cell? {
      OnTop(m.dstack, m.dsp, d.rest);
    }
    OnTop(m.rstack, m.rsp, r);
    MovedBack(m.rsp);
  }

  lemma StepIsAlu(m: Machine, op: Op, toPc: bool, bus: Bus)
    requires m.Valid() && op.Valid() && m.ram[m.pc] == Encode(op, toPc)
    ensures Step(m, bus) == StepAlu(m, op, toPc, bus)
  {
    DecodeEncode(op, toPc);
  }

  /** One operation, seen on the known cells. */
  lemma StepShows(m: Machine, op: Op, toPc: bool, d: Cells, r: Cells, h: nat, g: nat, bus: Bus) returns (n: Machine)
    requires Shows(m, d, r, h, g) && op.Valid() && Fits(op, d, r)
    requires m.ram[m.pc] == Encode(op, toPc) && m.pc + 1 < RAM_WORDS
    ensures n == Step(m, bus) && (Known(op, d, r) ==> n.st0 == Computes(m, op, d, r, bus))
    ensures Shows(n, DataAfter(op, d, n.st0), ReturnsAfter(op, d, r), h, g)
    ensures if toPc then r.Cell? ==> n.pc == Target(r.top / 2) else n.pc == m.pc + 1
    ensures RamAfter(op, m.ram, n.ram, d, n.st0)
    ensures op.rd == 3 && !op.tr && r.Cell? ==> Popped(n) == r.top
  {
    StepIsAlu(m, op, toPc, bus);
    n := Step(m, bus);
    var x := AluShows(m, op, toPc, d, r, h, g, bus);
    AluMemory(m, op, toPc, d, r, h, g, bus);
  }

  lemma LiteralShows(m: Machine, x: Word, d: Cells, r: Cells, h: nat, g: nat, bus: Bus) returns (n: Machine)
    requires Shows(m, d, r, h, g) && Len(d) <= STACK_CELLS && x < 0x8000
    requires m.ram[m.pc] == 0x8000 + x && m.pc + 1 < RAM_WORDS
    ensures n == Step(m, bus) && Shows(n, Cell(x, d), r, h, g) && n.pc == m.pc + 1 && n.ram == m.ram
  {
    n := StepLiteral(m, x);
    Shifted(h + Len(d), 1);
    if d.Cell? {
      OnPush(m.dstack, m.dsp, d.rest, m.st0);
    }
  }

  lemma CallShows(m: Machine, to: nat, d: Cells, r: Cells, h: nat, g: nat, bus: Bus) returns (n: Machine)
    requires Shows(m, d, r, h, g) && Len(r) < STACK_CELLS && to < RAM_WORDS && m.ram[m.pc] == 0x4000 + to
    ensures n == Step(m, bus) && Shows(n, d, Cell(2 * (m.pc + 1), r), h, g) && n.pc == to && n.ram == m.ram
  {
    n := StepCall(m, to);
    Shifted(g + Len(r), 1);
    OnPush(m.rstack, m.rsp, r, 2 * (m.pc + 1));
  }

  lemma TestShows(m: Machine, to: nat, d: Cells, r: Cells, h: nat, g: nat, bus: Bus) returns (n: Machine)
    requires Shows(m, d, r, h, g) && d.Cell? && Len(d) <= STACK_CELLS + 1 && to < RAM_WORDS
    requires m.ram[m.pc] == 0x2000 + to && m.pc + 1 < RAM_WORDS
    ensures n == Step(m, bus) && Shows(n, d.rest, r, h, g) && n.ram == m.ram
    ensures n.pc == if d.top == 0 then to else m.pc + 1
    ensures d.rest.Cell? ==> n.dstack[Moved(n.dsp, 1)] == d.rest.top
  {
    MovedBack(m.dsp);
    n := StepZeroBranch(m, to);
    Shifted(h + Len(d), -1);
    OnPop(m.dstack, m.dsp, d.rest);
  }

  // ---------------------------------------------------------------- snapshots

  /** Program counter, the known cells, the memory, and how many more cells are on each stack. */
  datatype Snap = Snap(pc: nat, d: Cells, r: Cells, ram: seq<Word>, h: nat, g: nat)

  ghost predicate Is(m: Machine, s: Snap) {
    Shows(m, s.d, s.r, s.h, s.g) && m.pc == s.pc && m.ram == s.ram
  }

  ghost predicate Gets(m: Machine, t: Snap, bus: Bus) {
    exists n :: Goes(m, n, bus) && Is(n, t)
  }

  /** Whatever machine looks like s, it comes to look like t. */
  ghost predicate Leads(s: Snap, t: Snap, bus: Bus) {
    forall m :: Is(m, s) ==> Gets(m, t, bus)
  }

  lemma LeadsHere(s: Snap, bus: Bus)
    ensures Leads(s, s, bus)
  {
    forall m | Is(m, s)
      ensures Gets(m, s, bus)
    {
      GoesZero(m, bus);
    }
  }

  lemma LeadsOn(s: Snap, t: Snap, u: Snap, bus: Bus)
    requires Leads(s, t, bus) && Leads(t, u, bus)
    ensures Leads(s, u, bus)
  {
    forall m | Is(m, s)
      ensures Gets(m, u, bus)
    {
      var n :| Goes(m, n, bus) && Is(n, t);
      var k :| Goes(n, k, bus) && Is(k, u);
      GoesOn(m, n, k, bus);
    }
  }

  /** What an operation puts on top. */
  function Value(op: Op, s: Snap): Word
    requires |s.ram| == RAM_WORDS
  {
    AluResult(op.sel, Top(s.d), Top(Rest(s.d)), Top(s.r), (s.g + Len(s.r)) % STACK_CELLS, (s.h + Len(s.d)) % STACK_CELLS,
              if Top(s.d) < RAM_BYTES then s.ram[Top(s.d) / 2] else 0)
  }

  function Folded(op: Op, last: bool): Op {
    if last then op.(rd := 3) else op
  }

  /** The next instruction is this operation, and it can be done with the known cells. */
  ghost predicate Next(s: Snap, op: Op, last: bool) {
    && op.Valid() && (last ==> Fusible(op)) && |s.ram| == RAM_WORDS
    && Code1(s.ram, s.pc, Insn(op, last))
    && Fits(Folded(op, last), s.d, s.r) && (Known(op, s.d, s.r) || Emptied(op, s.d))
    && (op.sel == 12 ==> Top(s.d) < RAM_BYTES) && (op.nm ==> Rest(s.d).Cell?)
  }

  /** After the operation, with the return if it is folded in. */
  function Then(s: Snap, op: Op, last: bool, x: Word): Snap
    requires op.Valid() && |s.ram| == RAM_WORDS
  {
    Snap(if last then Target(Top(s.r) / 2) else s.pc + 1, DataAfter(op, s.d, x), ReturnsAfter(Folded(op, last), s.d, s.r),
         if op.nm && x < RAM_BYTES then s.ram[x / 2 := Top(Rest(s.d))] else s.ram, s.h, s.g)
  }

  lemma ValueIs(m: Machine, s: Snap, op: Op, last: bool, bus: Bus)
    requires Is(m, s) && Next(s, op, last) && Known(op, s.d, s.r)
    ensures Computes(m, Folded(op, last), s.d, s.r, bus) == Value(op, s)
  {
  }

  lemma FoldedSame(op: Op, last: bool, d: Cells, x: Word)
    ensures DataAfter(Folded(op, last), d, x) == DataAfter(op, d, x) && Folded(op, last).nm == op.nm
    ensures op.Valid() ==> Folded(op, last).Valid() && Insn(op, last) == Encode(Folded(op, last), last)
    ensures Folded(op, last).sel == op.sel
  {
  }

  lemma OpSteps(m: Machine, s: Snap, op: Op, last: bool, bus: Bus)
    requires Is(m, s) && Next(s, op, last) && (op.nm ==> Value(op, s) < RAM_BYTES)
    ensures Is(Step(m, bus), Then(s, op, last, Value(op, s)))
  {
    FoldedSame(op, last, s.d, Value(op, s));
    if Known(op, s.d, s.r) {
      ValueIs(m, s, op, last, bus);
    }
    var n := StepShows(m, Folded(op, last), last, s.d, s.r, s.h, s.g, bus);
  }

  /** What dsp pushes. */
  function DepthWord(s: Snap): Word {
    0x100 * ((s.g + Len(s.r)) % STACK_CELLS) + (s.h + Len(s.d)) % STACK_CELLS
  }

  // ---------------------------------------------------------------- single instructions

  /** The run from o has come to s, where this instruction is next. */
  ghost predicate Here(o: Snap, s: Snap, insn: Word, bus: Bus) {
    Leads(o, s, bus) && |s.ram| == RAM_WORDS && Code1(s.ram, s.pc, insn)
  }

  /** The data cells have become d, and the word goes on or returns. */
  function Ran(s: Snap, last: bool, d: Cells): Snap {
    if last then s.(pc := Target(Top(s.r) / 2), d := d, r := Rest(s.r)) else s.(pc := s.pc + 1, d := d)
  }

  lemma Do(o: Snap, s: Snap, op: Op, last: bool, bus: Bus)
    requires Leads(o, s, bus) && Next(s, op, last) && (op.nm ==> Value(op, s) < RAM_BYTES)
    ensures Leads(o, Then(s, op, last, Value(op, s)), bus)
  {
    var t := Then(s, op, last, Value(op, s));
    forall m | Is(m, s)
      ensures Gets(m, t, bus)
    {
      OpSteps(m, s, op, last, bus);
      GoesStep(m, bus);
    }
    LeadsOn(o, s, t, bus);
  }

  lemma Dup(o: Snap, s: Snap, bus: Bus) returns (t: Snap)
    requires Here(o, s, Insn(DUP, false), bus) && s.d.Cell? && Len(s.d) <= STACK_CELLS
    ensures Leads(o, t, bus) && t == Ran(s, false, Cell(s.d.top, s.d))
  {
    Do(o, s, DUP, false, bus);
    t := Ran(s, false, Cell(s.d.top, s.d));
  }

  lemma Over(o: Snap, s: Snap, last: bool, bus: Bus) returns (t: Snap)
    requires Here(o, s, Insn(OVER, last), bus) && s.d.Cell? && s.d.rest.Cell? && Len(s.d) <= STACK_CELLS && (last ==> s.r.Cell?)
    ensures Leads(o, t, bus) && t == Ran(s, last, Cell(s.d.rest.top, s.d))
  {
    Do(o, s, OVER, last, bus);
    t := Ran(s, last, Cell(s.d.rest.top, s.d));
  }

  lemma Swap(o: Snap, s: Snap, last: bool, bus: Bus) returns (t: Snap)
    requires Here(o, s, Insn(SWAP, last), bus) && s.d.Cell? && s.d.rest.Cell? && Len(s.d) <= STACK_CELLS + 1 && (last ==> s.r.Cell?)
    ensures Leads(o, t, bus) && t == Ran(s, last, Cell(s.d.rest.top, Cell(s.d.top, s.d.rest.rest)))
  {
    Do(o, s, SWAP, last, bus);
    t := Ran(s, last, Cell(s.d.rest.top, Cell(s.d.top, s.d.rest.rest)));
  }

  lemma Drop(o: Snap, s: Snap, last: bool, bus: Bus) returns (t: Snap)
    requires Here(o, s, Insn(DROP, last), bus) && s.d.Cell? && Len(s.d) <= STACK_CELLS + 1 && (last ==> s.r.Cell?)
    ensures Leads(o, t, bus) && t == Ran(s, last, s.d.rest)
  {
    Do(o, s, DROP, last, bus);
    t := Ran(s, last, s.d.rest);
  }

  lemma Plus(o: Snap, s: Snap, last: bool, bus: Bus) returns (t: Snap)
    requires Here(o, s, Insn(PLUS, last), bus) && s.d.Cell? && s.d.rest.Cell? && Len(s.d) <= STACK_CELLS + 1 && (last ==> s.r.Cell?)
    ensures Leads(o, t, bus) && t == Ran(s, last, Cell(Wrap(s.d.top + s.d.rest.top), s.d.rest.rest))
  {
    Do(o, s, PLUS, last, bus);
    t := Ran(s, last, Cell(Wrap(s.d.top + s.d.rest.top), s.d.rest.rest));
  }

  lemma Ands(o: Snap, s: Snap, bus: Bus) returns (t: Snap)
    requires Here(o, s, Insn(AND, false), bus) && s.d.Cell? && s.d.rest.Cell? && Len(s.d) <= STACK_CELLS + 1
    ensures Leads(o, t, bus) && t == Ran(s, false, Cell(AndWord(s.d.top, s.d.rest.top), s.d.rest.rest))
  {
    Do(o, s, AND, false, bus);
    t := Ran(s, false, Cell(AndWord(s.d.top, s.d.rest.top), s.d.rest.rest));
  }

  lemma Inverts(o: Snap, s: Snap, bus: Bus) returns (t: Snap)
    requires Here(o, s, Insn(INVERT, false), bus) && s.d.Cell? && Len(s.d) <= STACK_CELLS + 1
    ensures Leads(o, t, bus) && t == Ran(s, false, Cell(Not(s.d.top), s.d.rest))
  {
    Do(o, s, INVERT, false, bus);
    t := Ran(s, false, Cell(Not(s.d.top), s.d.rest));
  }

  lemma ShiftsRight(o: Snap, s: Snap, bus: Bus) returns (t: Snap)
    requires Here(o, s, Insn(RSHIFT, false), bus) && s.d.Cell? && s.d.rest.Cell? && Len(s.d) <= STACK_CELLS + 1
    ensures Leads(o, t, bus) && t == Ran(s, false, Cell(ShiftRight(s.d.rest.top, s.d.top), s.d.rest.rest))
  {
    Do(o, s, RSHIFT, false, bus);
    t := Ran(s, false, Cell(ShiftRight(s.d.rest.top, s.d.top), s.d.rest.rest));
  }

  lemma ShiftsLeft(o: Snap, s: Snap, bus: Bus) returns (t: Snap)
    requires Here(o, s, Insn(LSHIFT, true), bus) && s.r.Cell? && s.d.Cell? && s.d.rest.Cell? && Len(s.d) <= STACK_CELLS + 1
    ensures Leads(o, t, bus) && t == Ran(s, true, Cell(Wrap(s.d.rest.top * Pow2(s.d.top % 16)), s.d.rest.rest))
  {
    Do(o, s, LSHIFT, true, bus);
    t := Ran(s, true, Cell(Wrap(s.d.rest.top * Pow2(s.d.top % 16)), s.d.rest.rest));
  }

  lemma Less(o: Snap, s: Snap, last: bool, bus: Bus) returns (t: Snap)
    requires Here(o, s, Insn(DEC, last), bus) && s.d.Cell? && Len(s.d) <= STACK_CELLS + 1 && (last ==> s.r.Cell?)
    ensures Leads(o, t, bus) && t == Ran(s, last, Cell(Wrap(s.d.top - 1), s.d.rest))
  {
    Do(o, s, DEC, last, bus);
    t := Ran(s, last, Cell(Wrap(s.d.top - 1), s.d.rest));
  }

  lemma Fetches(o: Snap, s: Snap, bus: Bus) returns (t: Snap)
    requires Here(o, s, Insn(FETCH, false), bus) && s.d.Cell? && Len(s.d) <= STACK_CELLS + 1 && s.d.top < RAM_BYTES
    ensures Leads(o, t, bus) && t == Ran(s, false, Cell(s.ram[s.d.top / 2], s.d.rest))
  {
    Do(o, s, FETCH, false, bus);
    t := Ran(s, false, Cell(s.ram[s.d.top / 2], s.d.rest));
  }

  lemma DupFetch(o: Snap, s: Snap, bus: Bus) returns (t: Snap)
    requires Here(o, s, Insn(DUP_FETCH, false), bus) && s.d.Cell? && Len(s.d) <= STACK_CELLS && s.d.top < RAM_BYTES
    ensures Leads(o, t, bus) && t == Ran(s, false, Cell(s.ram[s.d.top / 2], s.d))
  {
    Do(o, s, DUP_FETCH, false, bus);
    t := Ran(s, false, Cell(s.ram[s.d.top / 2], s.d));
  }

  lemma TwoDupXor(o: Snap, s: Snap, bus: Bus) returns (t: Snap)
    requires Here(o, s, Insn(TWO_DUP_XOR, false), bus) && s.d.Cell? && s.d.rest.Cell? && Len(s.d) <= STACK_CELLS
    ensures Leads(o, t, bus) && t == Ran(s, false, Cell(XorWord(s.d.top, s.d.rest.top), s.d))
  {
    Do(o, s, TWO_DUP_XOR, false, bus);
    t := Ran(s, false, Cell(XorWord(s.d.top, s.d.rest.top), s.d));
  }

  lemma Depths(o: Snap, s: Snap, bus: Bus) returns (t: Snap)
    requires Here(o, s, Insn(DEPTHS, false), bus) && Len(s.d) <= STACK_CELLS
    ensures Leads(o, t, bus) && t == Ran(s, false, Cell(DepthWord(s), s.d))
  {
    Do(o, s, DEPTHS, false, bus);
    t := Ran(s, false, Cell(DepthWord(s), s.d));
  }

  lemma ToR(o: Snap, s: Snap, bus: Bus) returns (t: Snap)
    requires Here(o, s, Insn(TO_R, false), bus) && s.d.Cell? && Len(s.d) <= STACK_CELLS + 1 && Len(s.r) < STACK_CELLS
    ensures Leads(o, t, bus) && t == Ran(s, false, s.d.rest).(r := Cell(s.d.top, s.r))
  {
    Do(o, s, TO_R, false, bus);
    t := Ran(s, false, s.d.rest).(r := Cell(s.d.top, s.r));
  }

  lemma DupToR(o: Snap, s: Snap, bus: Bus) returns (t: Snap)
    requires Here(o, s, Insn(DUP_TO_R, false), bus) && s.d.Cell? && Len(s.d) <= STACK_CELLS + 1 && Len(s.r) < STACK_CELLS
    ensures Leads(o, t, bus) && t == s.(pc := s.pc + 1, r := Cell(s.d.top, s.r))
  {
    Do(o, s, DUP_TO_R, false, bus);
    t := s.(pc := s.pc + 1, r := Cell(s.d.top, s.r));
  }

  lemma FromR(o: Snap, s: Snap, bus: Bus) returns (t: Snap)
    requires Here(o, s, Insn(R_FROM, false), bus) && s.r.Cell? && Len(s.d) <= STACK_CELLS
    ensures Leads(o, t, bus) && t == Ran(s, false, Cell(s.r.top, s.d)).(r := s.r.rest)
  {
    Do(o, s, R_FROM, false, bus);
    t := Ran(s, false, Cell(s.r.top, s.d)).(r := s.r.rest);
  }

  lemma StoreDrop(o: Snap, s: Snap, bus: Bus) returns (t: Snap)
    requires Here(o, s, Insn(STORE_DROP, false), bus) && s.d.Cell? && s.d.rest.Cell? && Len(s.d) <= STACK_CELLS + 1 && s.d.top < RAM_BYTES
    ensures Leads(o, t, bus) && t == Ran(s, false, Cell(s.d.top, s.d.rest.rest)).(ram := s.ram[s.d.top / 2 := s.d.rest.top])
  {
    Do(o, s, STORE_DROP, false, bus);
    t := Ran(s, false, Cell(s.d.top, s.d.rest.rest)).(ram := s.ram[s.d.top / 2 := s.d.rest.top]);
  }

  lemma Returns(o: Snap, s: Snap, bus: Bus) returns (t: Snap)
    requires Here(o, s, RETURN, bus) && s.r.Cell? && s.d.Cell? && Len(s.d) <= STACK_CELLS + 1
    ensures Leads(o, t, bus) && t == Ran(s, true, s.d)
  {
    assert Insn(NOTHING, true) == RETURN;
    Do(o, s, NOTHING, true, bus);
    t := Ran(s, true, s.d);
  }

  lemma Pushes(o: Snap, s: Snap, x: Word, bus: Bus) returns (t: Snap)
    requires x < 0x8000 && Here(o, s, Number(x), bus) && Len(s.d) <= STACK_CELLS
    ensures Leads(o, t, bus) && t == Ran(s, false, Cell(x, s.d))
  {
    t := Ran(s, false, Cell(x, s.d));
    forall m | Is(m, s)
      ensures Gets(m, t, bus)
    {
      var n := LiteralShows(m, x, s.d, s.r, s.h, s.g, bus);
      GoesStep(m, bus);
    }
    LeadsOn(o, s, t, bus);
  }

  lemma Calls(o: Snap, s: Snap, to: Address, bus: Bus) returns (t: Snap)
    requires Here(o, s, CallTo(to), bus) && Len(s.r) < STACK_CELLS
    ensures Leads(o, t, bus) && t == s.(pc := to, r := Cell(2 * (s.pc + 1), s.r))
  {
    t := s.(pc := to, r := Cell(2 * (s.pc + 1), s.r));
    forall m | Is(m, s)
      ensures Gets(m, t, bus)
    {
      var n := CallShows(m, to, s.d, s.r, s.h, s.g, bus);
      GoesStep(m, bus);
    }
    LeadsOn(o, s, t, bus);
  }

  lemma Jumps(o: Snap, s: Snap, to: Address, bus: Bus) returns (t: Snap)
    requires Here(o, s, to, bus)
    ensures Leads(o, t, bus) && t == s.(pc := to)
  {
    t := s.(pc := to);
    forall m | Is(m, s)
      ensures Gets(m, t, bus)
    {
      GoesStep(m, bus);
    }
    LeadsOn(o, s, t, bus);
  }

  /** The conditional branch of while. */
  lemma Tests(o: Snap, s: Snap, to: nat, bus: Bus) returns (t: Snap)
    requires to < RAM_WORDS && Here(o, s, Unless(to), bus) && s.d.Cell? && Len(s.d) <= STACK_CELLS + 1
    ensures Leads(o, t, bus) && t == s.(pc := if s.d.top == 0 then to else s.pc + 1, d := s.d.rest)
  {
    t := s.(pc := if s.d.top == 0 then to else s.pc + 1, d := s.d.rest);
    forall m | Is(m, s)
      ensures Gets(m, t, bus)
    {
      var n := TestShows(m, to, s.d, s.r, s.h, s.g, bus);
      GoesStep(m, bus);
    }
    LeadsOn(o, s, t, bus);
  }

  // ---------------------------------------------------------------- the cell underneath a full ring

  /** The cell below the return cells has been written over with this one. */
  function Sunk(s: Snap, x: Word): Snap
    requires s.g > 0
  {
    s.(r := Under(s.r, x), g := s.g - 1)
  }

  /** The same if the ring was full. */
  function SunkIf(s: Snap, deep: bool, x: Word): Snap {
    if deep && s.g > 0 then Sunk(s, x) else s
  }

  lemma SunkIs(n: Machine, t: Snap, x: Word)
    requires Is(n, t) && t.g > 0 && Len(t.r) == STACK_CELLS - 1 && Popped(n) == x
    ensures Is(n, Sunk(t, x))
  {
    assert (n.rsp - Len(t.r)) % STACK_CELLS == Moved(n.rsp, 1);
    OnUnder(n.rstack, n.rsp, t.r, x);
  }

  lemma PopsReturn(m: Machine, s: Snap, op: Op, last: bool, bus: Bus)
    requires Is(m, s) && Next(s, op, last) && !op.nm && !op.tr && (last || op.rd == 3) && s.r.Cell?
    ensures Popped(Step(m, bus)) == s.r.top
  {
    FoldedSame(op, last, s.d, 0);
    var n := StepShows(m, Folded(op, last), last, s.d, s.r, s.h, s.g, bus);
  }

  lemma ReturnBottoms(m: Machine, s: Snap, op: Op, last: bool, bus: Bus)
    requires Is(m, s) && Next(s, op, last) && !op.nm && !op.tr && (last || op.rd == 3) && s.r.Cell? && s.g > 0 && Len(s.r) == STACK_CELLS
    ensures Is(Step(m, bus), Sunk(Then(s, op, last, Value(op, s)), s.r.top))
  {
    OpSteps(m, s, op, last, bus);
    PopsReturn(m, s, op, last, bus);
    SunkIs(Step(m, bus), Then(s, op, last, Value(op, s)), s.r.top);
  }

  /** Any operation that pops a full return stack; it shows what has become of the cell underneath. */
  lemma Pops(o: Snap, s: Snap, op: Op, last: bool, deep: bool, bus: Bus) returns (t: Snap)
    requires Leads(o, s, bus) && Next(s, op, last) && !op.nm && !op.tr && (last || op.rd == 3) && s.r.Cell?
    requires deep ==> s.g > 0 && Len(s.r) == STACK_CELLS
    ensures Leads(o, t, bus) && t == SunkIf(Then(s, op, last, Value(op, s)), deep, s.r.top)
  {
    if deep {
      t := Sunk(Then(s, op, last, Value(op, s)), s.r.top);
      forall m | Is(m, s)
        ensures Gets(m, t, bus)
      {
        ReturnBottoms(m, s, op, last, bus);
        GoesStep(m, bus);
      }
      LeadsOn(o, s, t, bus);
    } else {
      Do(o, s, op, last, bus);
      t := Then(s, op, last, Value(op, s));
    }
  }

  lemma PlusBack(o: Snap, s: Snap, deep: bool, bus: Bus) returns (t: Snap)
    requires Here(o, s, Insn(PLUS, true), bus) && s.d.Cell? && s.d.rest.Cell? && Len(s.d) <= STACK_CELLS + 1 && s.r.Cell?
    requires deep ==> s.g > 0 && Len(s.r) == STACK_CELLS
    ensures Leads(o, t, bus) && t == SunkIf(Ran(s, true, Cell(Wrap(s.d.top + s.d.rest.top), s.d.rest.rest)), deep, s.r.top)
  {
    t := Pops(o, s, PLUS, true, deep, bus);
  }

  lemma LessBack(o: Snap, s: Snap, deep: bool, bus: Bus) returns (t: Snap)
    requires Here(o, s, Insn(DEC, true), bus) && s.d.Cell? && Len(s.d) <= STACK_CELLS + 1 && s.r.Cell?
    requires deep ==> s.g > 0 && Len(s.r) == STACK_CELLS
    ensures Leads(o, t, bus) && t == SunkIf(Ran(s, true, Cell(Wrap(s.d.top - 1), s.d.rest)), deep, s.r.top)
  {
    t := Pops(o, s, DEC, true, deep, bus);
  }

  lemma FromRAt(o: Snap, s: Snap, deep: bool, bus: Bus) returns (t: Snap)
    requires Here(o, s, Insn(R_FROM, false), bus) && s.r.Cell? && Len(s.d) <= STACK_CELLS
    requires deep ==> s.g > 0 && Len(s.r) == STACK_CELLS
    ensures Leads(o, t, bus) && t == SunkIf(Ran(s, false, Cell(s.r.top, s.d)).(r := s.r.rest), deep, s.r.top)
  {
    t := Pops(o, s, R_FROM, false, deep, bus);
  }

  /** The cell above the second one of the data stack: the one that was popped last. */
  function Dropped(m: Machine): Word
    requires m.Valid()
  {
    m.dstack[Moved(m.dsp, 1)]
  }

  /** The cell below the data cells has been written over with this one. */
  function Lowered(s: Snap, x: Word): Snap
    requires s.h > 0
  {
    s.(d := Under(s.d, x), h := s.h - 1)
  }

  function LoweredIf(s: Snap, deep: bool, x: Word): Snap {
    if deep && s.h > 0 then Lowered(s, x) else s
  }

  lemma LoweredIs(n: Machine, t: Snap, x: Word)
    requires Is(n, t) && t.h > 0 && Len(t.d) == STACK_CELLS && Dropped(n) == x
    ensures Is(n, Lowered(t, x))
  {
    assert (n.dsp - Len(t.d.rest)) % STACK_CELLS == Moved(n.dsp, 1);
    OnUnder(n.dstack, n.dsp, t.d.rest, x);
    assert Under(t.d, x) == Cell(t.d.top, Under(t.d.rest, x));
  }

  lemma StoreDrops(m: Machine, s: Snap, bus: Bus)
    requires Is(m, s) && Next(s, STORE_DROP, false)
    ensures Dropped(Step(m, bus)) == s.d.rest.top
  {
    FoldedSame(STORE_DROP, false, s.d, 0);
    StepIsAlu(m, STORE_DROP, false, bus);
    MovedBack(m.dsp);
    OnTop(m.dstack, m.dsp, s.d.rest);
  }

  lemma StoreDropAt(o: Snap, s: Snap, deep: bool, bus: Bus) returns (t: Snap)
    requires Here(o, s, Insn(STORE_DROP, false), bus) && s.d.Cell? && s.d.rest.Cell? && Len(s.d) <= STACK_CELLS + 1
    requires s.d.top < RAM_BYTES && (deep ==> s.h > 0 && Len(s.d) == STACK_CELLS + 1)
    ensures Leads(o, t, bus)
    ensures var u := Ran(s, false, Cell(s.d.top, s.d.rest.rest)).(ram := s.ram[s.d.top / 2 := s.d.rest.top]);
      t == if deep then Lowered(u, s.d.rest.top) else u
  {
    if deep {
      var u := Then(s, STORE_DROP, false, Value(STORE_DROP, s));
      t := Lowered(u, s.d.rest.top);
      forall m | Is(m, s)
        ensures Gets(m, t, bus)
      {
        OpSteps(m, s, STORE_DROP, false, bus);
        StoreDrops(m, s, bus);
        LoweredIs(Step(m, bus), u, s.d.rest.top);
        GoesStep(m, bus);
      }
      LeadsOn(o, s, t, bus);
    } else {
      t := StoreDrop(o, s, bus);
    }
  }

  /** The test of a loop; with the ring full it shows what has become of the cell underneath. */
  lemma TestsAt(o: Snap, s: Snap, to: nat, deep: bool, bus: Bus) returns (t: Snap)
    requires to < RAM_WORDS && Here(o, s, Unless(to), bus)
    requires s.d.Cell? && s.d.rest.Cell? && Len(s.d) <= STACK_CELLS + 1
    requires deep ==> s.h > 0 && Len(s.d) == STACK_CELLS + 1
    ensures Leads(o, t, bus)
    ensures var u := s.(pc := if s.d.top == 0 then to else s.pc + 1, d := s.d.rest);
      t == if deep then Lowered(u, s.d.rest.top) else u
  {
    if deep {
      var u := s.(pc := if s.d.top == 0 then to else s.pc + 1, d := s.d.rest);
      t := Lowered(u, s.d.rest.top);
      forall m | Is(m, s)
        ensures Gets(m, t, bus)
      {
        var n := TestShows(m, to, s.d, s.r, s.h, s.g, bus);
        LoweredIs(n, u, s.d.rest.top);
        GoesStep(m, bus);
      }
      LeadsOn(o, s, t, bus);
    } else {
      t := Tests(o, s, to, bus);
    }
  }

  lemma SunkEither(u: Snap, sinks: bool, some: bool, x: Word, y: Word)
    requires sinks ==> u.g > 0
    ensures SunkIf(u, (sinks && !some) || (sinks && some), if sinks && some then x else y)
            == u.(r := if !sinks then u.r else Under(u.r, if some then x else y), g := if sinks then u.g - 1 else u.g)
  {
  }
}
