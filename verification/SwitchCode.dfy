/**
 The compiled code of launch, pause and progress and of the words of nuc.fs that they call, and the store in which they
 keep a task.
 */
module SwitchCode {
  import opened Words
  import opened J1
  import opened CodeGen
  import opened Primitives
  import opened Stacks
  import opened Snapshots

  // ---------------------------------------------------------------- code

  /** Where the words and the two variables are. */
  datatype Layout = Layout(
    launch: Address, pause: Address, progress: Address, minus: Address, negate: Address, onePlus: Address, cells: Address,
    cellPlus: Address, tuck: Address, bounds: Address, minusRot: Address, twoMinus: Address, twoDrop: Address,
    taskptr: Address, mark: Address)

  // pause, stretch by stretch.

  ghost predicate CountCode(ram: seq<Word>, p: nat, l: Layout) {
    && Code4(ram, p, Insn(DEPTHS, false), Number(2 * l.mark), Insn(FETCH, false), CallTo(l.minus))
    && Code4(ram, p + 4, Number(2 * l.taskptr), Insn(FETCH, false), Insn(STORE_DROP, false), Insn(DROP, false))
  }

  ghost predicate StartCode(ram: seq<Word>, p: nat, l: Layout) {
    && Code4(ram, p + 8, Number(2 * l.taskptr), Insn(FETCH, false), Insn(DUP, false), CallTo(l.cellPlus))
    && Code4(ram, p + 12, Insn(SWAP, false), Insn(FETCH, false), Insn(DUP_TO_R, false), Number(0xFF))
    && Code1(ram, p + 16, Insn(AND, false))
  }

  ghost predicate SaveDataCode(ram: seq<Word>, p: nat, l: Layout) {
    && Code2(ram, p + 17, Insn(DUP, false), Unless(p + 27))
    && Code4(ram, p + 19, Insn(TO_R, false), CallTo(l.tuck), Insn(STORE_DROP, false), Insn(DROP, false))
    && Code4(ram, p + 23, CallTo(l.cellPlus), Insn(R_FROM, false), Insn(DEC, false), Target(p + 17))
  }

  ghost predicate RangeCode(ram: seq<Word>, p: nat, l: Layout) {
    && Code4(ram, p + 27, Insn(DROP, false), Insn(R_FROM, false), Number(7), Insn(RSHIFT, false))
    && Code1(ram, p + 31, CallTo(l.bounds))
  }

  ghost predicate SaveReturnsCode(ram: seq<Word>, p: nat, l: Layout) {
    && Code2(ram, p + 32, Insn(TWO_DUP_XOR, false), Unless(p + 40))
    && Code4(ram, p + 34, Insn(R_FROM, false), Insn(OVER, false), Insn(STORE_DROP, false), Insn(DROP, false))
    && Code2(ram, p + 38, CallTo(l.cellPlus), Target(p + 32))
  }

  // progress, stretch by stretch.

  ghost predicate MarkCode(ram: seq<Word>, p: nat, l: Layout) {
    Code4(ram, p, Insn(DEPTHS, false), Number(2 * l.mark), Insn(STORE_DROP, false), Insn(DROP, false))
  }

  ghost predicate SizesCode(ram: seq<Word>, p: nat, l: Layout) {
    && Code4(ram, p + 4, Number(2 * l.taskptr), Insn(FETCH, false), Insn(DUP, false), Insn(FETCH, false))
    && Code4(ram, p + 8, CallTo(l.cells), Insn(DUP_TO_R, false), Number(0xFF), Insn(AND, false))
  }

  ghost predicate EndsCode(ram: seq<Word>, p: nat, l: Layout) {
    && Code4(ram, p + 12, Insn(OVER, false), Insn(PLUS, false), Insn(R_FROM, false), Number(8))
    && Code2(ram, p + 16, Insn(RSHIFT, false), Insn(OVER, false)) && Code1(ram, p + 18, Insn(PLUS, false))
  }

  ghost predicate LoadReturnsCode(ram: seq<Word>, p: nat, l: Layout) {
    && Code2(ram, p + 19, Insn(TWO_DUP_XOR, false), Unless(p + 25))
    && Code4(ram, p + 21, Insn(DUP_FETCH, false), Insn(TO_R, false), CallTo(l.twoMinus), Target(p + 19))
  }

  ghost predicate LoadDataCode(ram: seq<Word>, p: nat, l: Layout) {
    && Code2(ram, p + 26, Insn(TWO_DUP_XOR, false), Unless(p + 32))
    && Code4(ram, p + 28, Insn(DUP_FETCH, false), CallTo(l.minusRot), CallTo(l.twoMinus), Target(p + 26))
  }

  ghost predicate LaunchCode(ram: seq<Word>, p: nat, l: Layout) {
    && Code4(ram, p, Number(2 * l.taskptr), Insn(FETCH, false), Number(0x100), Insn(OVER, false))
    && Code4(ram, p + 4, Insn(STORE_DROP, false), Insn(DROP, false), CallTo(l.cellPlus), Insn(STORE_DROP, false))
    && Code1(ram, p + 8, Insn(DROP, true))
  }

  // The words of nuc.fs that these call.

  ghost predicate MinusCode(ram: seq<Word>, l: Layout) {
    Code2(ram, l.minus, CallTo(l.negate), Insn(PLUS, true))
    && Code2(ram, l.negate, Insn(INVERT, false), l.onePlus) && Code2(ram, l.onePlus, Number(1), Insn(PLUS, true))
  }

  ghost predicate CellsCode(ram: seq<Word>, l: Layout) {
    Code2(ram, l.cells, Number(1), Insn(LSHIFT, true))
  }

  ghost predicate CellPlusCode(ram: seq<Word>, l: Layout) {
    Code2(ram, l.cellPlus, Number(2), Insn(PLUS, true))
  }

  ghost predicate TuckCode(ram: seq<Word>, l: Layout) {
    Code2(ram, l.tuck, Insn(SWAP, false), Insn(OVER, true))
  }

  ghost predicate BoundsCode(ram: seq<Word>, l: Layout) {
    Code2(ram, l.bounds, Insn(OVER, false), Insn(PLUS, false)) && Code1(ram, l.bounds + 2, Insn(SWAP, true))
  }

  ghost predicate MinusRotCode(ram: seq<Word>, l: Layout) {
    Code4(ram, l.minusRot, Insn(SWAP, false), Insn(TO_R, false), Insn(SWAP, false), Insn(R_FROM, false))
    && Code1(ram, l.minusRot + 4, RETURN)
  }

  ghost predicate TwoMinusCode(ram: seq<Word>, l: Layout) {
    Code2(ram, l.twoMinus, Insn(DEC, false), Insn(DEC, true))
  }

  ghost predicate TwoDropCode(ram: seq<Word>, l: Layout) {
    Code2(ram, l.twoDrop, Insn(DROP, false), Insn(DROP, true))
  }

  predicate InPause(l: Layout, c: nat) {
    l.pause <= c <= l.pause + 40
  }

  predicate InProgress(l: Layout, c: nat) {
    l.progress <= c <= l.progress + 32
  }

  /** Code cells of the two words and of those they call. */
  predicate InCode(l: Layout, c: nat) {
    || InPause(l, c) || InProgress(l, c) || l.launch <= c <= l.launch + 8
    || l.minus <= c <= l.minus + 1 || l.negate <= c <= l.negate + 1 || l.onePlus <= c <= l.onePlus + 1
    || l.cells <= c <= l.cells + 1 || l.cellPlus <= c <= l.cellPlus + 1 || l.tuck <= c <= l.tuck + 1
    || l.bounds <= c <= l.bounds + 2 || l.minusRot <= c <= l.minusRot + 4 || l.twoMinus <= c <= l.twoMinus + 1
    || l.twoDrop <= c <= l.twoDrop + 1
  }

  datatype Piece =
    | CountPiece | StartPiece | SaveDataPiece | RangePiece | SaveReturnsPiece | PauseEndPiece
    | MarkPiece | SizesPiece | EndsPiece | LoadReturnsPiece | BetweenPiece | LoadDataPiece | ProgressEndPiece
    | LaunchPiece | MinusPiece | TwicePiece | CellPlusPiece | TuckPiece | BoundsPiece | MinusRotPiece | TwoMinusPiece | TwoDropPiece

  ghost predicate In(ram: seq<Word>, l: Layout, piece: Piece) {
    match piece
    case CountPiece => CountCode(ram, l.pause, l)
    case StartPiece => StartCode(ram, l.pause, l)
    case SaveDataPiece => SaveDataCode(ram, l.pause, l)
    case RangePiece => RangeCode(ram, l.pause, l)
    case SaveReturnsPiece => SaveReturnsCode(ram, l.pause, l)
    case PauseEndPiece => Code1(ram, l.pause + 40, l.twoDrop)
    case MarkPiece => MarkCode(ram, l.progress, l)
    case SizesPiece => SizesCode(ram, l.progress, l)
    case EndsPiece => EndsCode(ram, l.progress, l)
    case LoadReturnsPiece => LoadReturnsCode(ram, l.progress, l)
    case BetweenPiece => Code1(ram, l.progress + 25, Insn(DROP, false))
    case LoadDataPiece => LoadDataCode(ram, l.progress, l)
    case ProgressEndPiece => Code1(ram, l.progress + 32, l.twoDrop)
    case LaunchPiece => LaunchCode(ram, l.launch, l)
    case MinusPiece => MinusCode(ram, l)
    case TwicePiece => CellsCode(ram, l)
    case CellPlusPiece => CellPlusCode(ram, l)
    case TuckPiece => TuckCode(ram, l)
    case BoundsPiece => BoundsCode(ram, l)
    case MinusRotPiece => MinusRotCode(ram, l)
    case TwoMinusPiece => TwoMinusCode(ram, l)
    case TwoDropPiece => TwoDropCode(ram, l)
  }

  /** All of the code is in memory. */
  ghost predicate Coded(ram: seq<Word>, l: Layout) {
    forall piece :: In(ram, l, piece)
  }

  /** The variables are apart from the code and from each other. */
  predicate Laid(l: Layout) {
    l.mark != l.taskptr && !InCode(l, l.mark) && !InCode(l, l.taskptr)
  }

  predicate OfPause(piece: Piece) {
    piece.CountPiece? || piece.StartPiece? || piece.SaveDataPiece? || piece.RangePiece? || piece.SaveReturnsPiece? || piece.PauseEndPiece?
  }

  predicate OfProgress(piece: Piece) {
    piece.MarkPiece? || piece.SizesPiece? || piece.EndsPiece?
    || piece.LoadReturnsPiece? || piece.BetweenPiece? || piece.LoadDataPiece? || piece.ProgressEndPiece?
  }

  lemma PauseStore(ram: seq<Word>, l: Layout, c: nat, x: Word, piece: Piece)
    requires In(ram, l, piece) && OfPause(piece) && c < |ram| && !InPause(l, c)
    ensures In(ram[c := x], l, piece)
  {
  }

  lemma ProgressStore(ram: seq<Word>, l: Layout, c: nat, x: Word, piece: Piece)
    requires In(ram, l, piece) && OfProgress(piece) && c < |ram| && !InProgress(l, c)
    ensures In(ram[c := x], l, piece)
  {
  }

  lemma WordStore(ram: seq<Word>, l: Layout, c: nat, x: Word, piece: Piece)
    requires In(ram, l, piece) && !OfPause(piece) && !OfProgress(piece) && c < |ram| && !InCode(l, c)
    ensures In(ram[c := x], l, piece)
  {
  }

  lemma CodedStore(ram: seq<Word>, l: Layout, c: nat, x: Word)
    requires Coded(ram, l) && c < |ram| && !InCode(l, c)
    ensures Coded(ram[c := x], l)
  {
    var after := ram[c := x];
    forall piece: Piece
      ensures In(after, l, piece)
    {
      assert In(ram, l, piece);
      if OfPause(piece) {
        PauseStore(ram, l, c, x, piece);
      } else if OfProgress(piece) {
        ProgressStore(ram, l, c, x, piece);
      } else {
        WordStore(ram, l, c, x, piece);
      }
    }
  }

  // ---------------------------------------------------------------- the words of nuc.fs

  lemma TwoLess(a: Word)
    ensures Wrap(Wrap(a - 1) - 1) == Wrap(a - 2)
  {
  }

  lemma TwoMinus(o: Snap, s: Snap, l: Layout, deep: bool, bus: Bus) returns (t: Snap)
    requires Here(o, s, CallTo(l.twoMinus), bus) && Coded(s.ram, l)
    requires s.d.Cell? && Len(s.d) <= STACK_CELLS + 1 && Len(s.r) < STACK_CELLS
    requires deep ==> s.g > 0 && Len(s.r) + 1 == STACK_CELLS
    ensures Leads(o, t, bus) && t == SunkIf(Ran(s, false, Cell(Wrap(s.d.top - 2), s.d.rest)), deep, 2 * (s.pc + 1))
  {
    assert In(s.ram, l, TwoMinusPiece);
    BackAfter(s.pc);
    TwoLess(s.d.top);
    var a := Calls(o, s, l.twoMinus, bus);
    var b := Less(o, a, false, bus);
    t := LessBack(o, b, deep, bus);
  }

  lemma CellPlus(o: Snap, s: Snap, l: Layout, deep: bool, bus: Bus) returns (t: Snap)
    requires Here(o, s, CallTo(l.cellPlus), bus) && Coded(s.ram, l)
    requires s.d.Cell? && Len(s.d) <= STACK_CELLS && Len(s.r) < STACK_CELLS
    requires deep ==> s.g > 0 && Len(s.r) + 1 == STACK_CELLS
    ensures Leads(o, t, bus)
    ensures var u := Ran(s, false, Cell(Wrap(s.d.top + 2), s.d.rest));
      t == if deep then Sunk(u, 2 * (s.pc + 1)) else u
  {
    assert In(s.ram, l, CellPlusPiece);
    BackAfter(s.pc);
    var a := Calls(o, s, l.cellPlus, bus);
    var b := Pushes(o, a, 2, bus);
    t := PlusBack(o, b, deep, bus);
  }

  lemma Doubles(o: Snap, s: Snap, l: Layout, bus: Bus) returns (t: Snap)
    requires Here(o, s, CallTo(l.cells), bus) && Coded(s.ram, l)
    requires s.d.Cell? && Len(s.d) <= STACK_CELLS && Len(s.r) < STACK_CELLS
    ensures Leads(o, t, bus) && t == Ran(s, false, Cell(Wrap(2 * s.d.top), s.d.rest))
  {
    assert In(s.ram, l, TwicePiece);
    BackAfter(s.pc);
    var a := Calls(o, s, l.cells, bus);
    var b := Pushes(o, a, 1, bus);
    assert Pow2(1) == 2;
    t := ShiftsLeft(o, b, bus);
  }

  lemma Tuck(o: Snap, s: Snap, l: Layout, bus: Bus) returns (t: Snap)
    requires Here(o, s, CallTo(l.tuck), bus) && Coded(s.ram, l)
    requires s.d.Cell? && s.d.rest.Cell? && Len(s.d) <= STACK_CELLS && Len(s.r) < STACK_CELLS
    ensures Leads(o, t, bus) && t == Ran(s, false, Cell(s.d.top, Cell(s.d.rest.top, Cell(s.d.top, s.d.rest.rest))))
  {
    assert In(s.ram, l, TuckPiece);
    BackAfter(s.pc);
    var a := Calls(o, s, l.tuck, bus);
    var b := Swap(o, a, false, bus);
    t := Over(o, b, true, bus);
  }

  lemma MinusRot(o: Snap, s: Snap, l: Layout, deep: bool, bus: Bus) returns (t: Snap)
    requires Here(o, s, CallTo(l.minusRot), bus) && Coded(s.ram, l)
    requires s.d.Cell? && s.d.rest.Cell? && s.d.rest.rest.Cell?
    requires Len(s.d) <= STACK_CELLS + 1 && Len(s.r) + 1 < STACK_CELLS
    requires deep ==> s.g > 0 && Len(s.r) + 2 == STACK_CELLS
    ensures Leads(o, t, bus)
    ensures t == SunkIf(Ran(s, false, Cell(s.d.rest.top, Cell(s.d.rest.rest.top, Cell(s.d.top, s.d.rest.rest.rest)))),
                        deep, s.d.rest.top)
  {
    assert In(s.ram, l, MinusRotPiece);
    BackAfter(s.pc);
    var a := Calls(o, s, l.minusRot, bus);
    var b := Swap(o, a, false, bus);
    var c := ToR(o, b, bus);
    var d := Swap(o, c, false, bus);
    var e := FromRAt(o, d, deep, bus);
    t := Returns(o, e, bus);
  }

  lemma Bounds(o: Snap, s: Snap, l: Layout, bus: Bus) returns (t: Snap)
    requires Here(o, s, CallTo(l.bounds), bus) && Coded(s.ram, l)
    requires s.d.Cell? && s.d.rest.Cell? && Len(s.d) <= STACK_CELLS && Len(s.r) < STACK_CELLS
    ensures Leads(o, t, bus)
    ensures t == Ran(s, false, Cell(s.d.rest.top, Cell(Wrap(s.d.top + s.d.rest.top), s.d.rest.rest)))
  {
    assert In(s.ram, l, BoundsPiece);
    BackAfter(s.pc);
    var a := Calls(o, s, l.bounds, bus);
    var b := Over(o, a, false, bus);
    var c := Plus(o, b, false, bus);
    t := Swap(o, c, true, bus);
  }

  lemma Difference(a: Word, b: Word)
    ensures Wrap(Wrap(1 + Not(a)) + b) == Wrap(b - a)
  {
  }

  /** `-` calls negate, which jumps to 1+. */
  lemma Minus(o: Snap, s: Snap, l: Layout, deep: bool, bus: Bus) returns (t: Snap)
    requires Here(o, s, CallTo(l.minus), bus) && Coded(s.ram, l)
    requires s.d.Cell? && s.d.rest.Cell? && Len(s.d) <= STACK_CELLS && Len(s.r) + 1 < STACK_CELLS
    requires deep ==> s.g > 0 && Len(s.r) + 2 == STACK_CELLS
    ensures Leads(o, t, bus)
    ensures var u := Ran(s, false, Cell(Wrap(s.d.rest.top - s.d.top), s.d.rest.rest));
      t == if deep then Sunk(u, 2 * (l.minus + 1)) else u
  {
    assert In(s.ram, l, MinusPiece);
    BackAfter(s.pc);
    BackAfter(l.minus);
    Difference(s.d.top, s.d.rest.top);
    var a := Calls(o, s, l.minus, bus);
    var b := Calls(o, a, l.negate, bus);
    var c := Inverts(o, b, bus);
    var d := Jumps(o, c, l.onePlus, bus);
    var e := Pushes(o, d, 1, bus);
    var f := PlusBack(o, e, deep, bus);
    t := Plus(o, f, true, bus);
  }

  /** 2drop in the place of the return: back to the caller of the word. */
  lemma TwoDrop(o: Snap, s: Snap, l: Layout, bus: Bus) returns (t: Snap)
    requires Here(o, s, l.twoDrop, bus) && Coded(s.ram, l)
    requires s.d.Cell? && s.d.rest.Cell? && Len(s.d) <= STACK_CELLS + 1 && s.r.Cell?
    ensures Leads(o, t, bus) && t == Ran(s, true, s.d.rest.rest)
  {
    assert In(s.ram, l, TwoDropPiece);
    var a := Jumps(o, s, l.twoDrop, bus);
    var b := Drop(o, a, false, bus);
    t := Drop(o, b, true, bus);
  }

  /** `2dupxor while`: two different addresses, and the loop goes on. */
  lemma WhileApart(o: Snap, s: Snap, to: nat, bus: Bus) returns (t: Snap)
    requires Leads(o, s, bus) && |s.ram| == RAM_WORDS && to < RAM_WORDS
    requires Code2(s.ram, s.pc, Insn(TWO_DUP_XOR, false), Unless(to))
    requires s.d.Cell? && s.d.rest.Cell? && s.d.top != s.d.rest.top && Len(s.d) <= STACK_CELLS
    ensures Leads(o, t, bus) && t == s.(pc := s.pc + 2)
  {
    XorWordZero(s.d.top, s.d.rest.top);
    var a := TwoDupXor(o, s, bus);
    t := Tests(o, a, to, bus);
  }

  /** The same with two equal addresses, where it ends. */
  lemma WhileMet(o: Snap, s: Snap, to: nat, deep: bool, bus: Bus) returns (t: Snap)
    requires Leads(o, s, bus) && |s.ram| == RAM_WORDS && to < RAM_WORDS
    requires Code2(s.ram, s.pc, Insn(TWO_DUP_XOR, false), Unless(to))
    requires s.d.Cell? && s.d.rest.Cell? && s.d.top == s.d.rest.top && Len(s.d) <= STACK_CELLS
    requires deep ==> s.h > 0 && Len(s.d) == STACK_CELLS
    ensures Leads(o, t, bus) && t == LoweredIf(s.(pc := to), deep, s.d.top)
  {
    XorWordZero(s.d.top, s.d.rest.top);
    var a := TwoDupXor(o, s, bus);
    t := TestsAt(o, a, to, deep, bus);
  }

  // ---------------------------------------------------------------- the store

  /** Memory holds these cells from an address on. */
  ghost predicate Lies(ram: seq<Word>, c: nat, v: Cells)
    decreases v
  {
    v.Cell? ==> c < |ram| && ram[c] == v.top && Lies(ram, c + 1, v.rest)
  }

  /** Memory with these cells written from an address on. */
  function Written(ram: seq<Word>, c: nat, v: Cells): (r: seq<Word>)
    ensures |r| == |ram|
    decreases v
  {
    if v.Cell? && c < |ram| then Written(ram[c := v.top], c + 1, v.rest) else ram
  }

  /** Both counts in one word, as far as 32 cells go. */
  function Counts(nr: nat, nd: nat): Word {
    if nr < STACK_CELLS && nd < STACK_CELLS then 0x100 * nr + nd else 0
  }

  /** The contents of a task's store: both counts, the data cells and the return cells. */
  function Image(td: Cells, tr: Cells): (v: Cells)
    ensures Len(v) == 1 + Len(td) + Len(tr)
  {
    Cell(Counts(Len(tr), Len(td)), Onto(td, tr))
  }

  lemma {:induction false} LiesParts(ram: seq<Word>, c: nat, a: Cells, b: Cells)
    ensures Lies(ram, c, Onto(a, b)) == (Lies(ram, c, a) && Lies(ram, c + Len(a), b))
    decreases a
  {
    if a.Cell? {
      LiesParts(ram, c + 1, a.rest, b);
    }
  }

  lemma LiesUnder(ram: seq<Word>, c: nat, f: Cells, x: Word)
    requires Lies(ram, c, Under(f, x))
    ensures Lies(ram, c, f) && c + Len(f) < |ram| && ram[c + Len(f)] == x
  {
    LiesParts(ram, c, f, Cell(x, Nil));
  }

  lemma {:induction false} LiesStore(ram: seq<Word>, c: nat, v: Cells, k: nat, x: Word)
    requires Lies(ram, c, v) && k < |ram| && !(c <= k < c + Len(v))
    ensures Lies(ram[k := x], c, v)
    decreases v
  {
    if v.Cell? {
      LiesStore(ram, c + 1, v.rest, k, x);
    }
  }

  lemma {:induction false} LiesSame(a: seq<Word>, b: seq<Word>, c: nat, v: Cells)
    requires Lies(a, c, v) && |a| == |b| && forall k :: c <= k < c + Len(v) && k < |a| ==> a[k] == b[k]
    ensures Lies(b, c, v)
    decreases v
  {
    if v.Cell? {
      LiesSame(a, b, c + 1, v.rest);
    }
  }

  lemma {:induction false} WrittenOnto(ram: seq<Word>, c: nat, a: Cells, b: Cells)
    requires c + Len(a) <= |ram|
    ensures Written(ram, c, Onto(a, b)) == Written(Written(ram, c, a), c + Len(a), b)
    decreases a
  {
    if a.Cell? {
      WrittenOnto(ram[c := a.top], c + 1, a.rest, b);
    }
  }

  lemma {:induction false} WrittenElsewhere(ram: seq<Word>, c: nat, v: Cells, k: nat)
    requires k < |ram| && !(c <= k < c + Len(v))
    ensures Written(ram, c, v)[k] == ram[k]
    decreases v
  {
    if v.Cell? && c < |ram| {
      WrittenElsewhere(ram[c := v.top], c + 1, v.rest, k);
    }
  }

  lemma {:induction false} WrittenLies(ram: seq<Word>, c: nat, v: Cells)
    requires c + Len(v) <= |ram|
    ensures Lies(Written(ram, c, v), c, v)
    decreases v
  {
    if v.Cell? {
      WrittenElsewhere(ram[c := v.top], c + 1, v.rest, c);
      WrittenLies(ram[c := v.top], c + 1, v.rest);
    }
  }

  /** The cells of a task's store. */
  predicate InStore(p: nat, size: nat, c: nat) {
    p / 2 <= c <= p / 2 + size
  }

  /** A store for so many cells: in memory, apart from the variables and the code. */
  ghost predicate StoreFits(l: Layout, p: nat, size: nat) {
    && p % 2 == 0 && p + 2 * size + 2 <= RAM_BYTES && !InStore(p, size, l.mark) && !InStore(p, size, l.taskptr)
    && forall c :: InCode(l, c) ==> !InStore(p, size, c)
  }

  ghost predicate Saved(ram: seq<Word>, l: Layout, p: nat, td: Cells, tr: Cells) {
    && Len(td) < STACK_CELLS && Len(tr) < STACK_CELLS && StoreFits(l, p, Len(td) + Len(tr))
    && Lies(ram, p / 2, Image(td, tr))
  }

  lemma SavedParts(ram: seq<Word>, l: Layout, p: nat, td: Cells, tr: Cells)
    requires Saved(ram, l, p, td, tr) && |ram| == RAM_WORDS
    ensures ram[p / 2] == 0x100 * Len(tr) + Len(td)
    ensures Lies(ram, p / 2 + 1, td) && Lies(ram, (p + 2 * Len(td)) / 2 + 1, tr)
  {
    LiesParts(ram, p / 2 + 1, td, tr);
    assert (p + 2 * Len(td)) / 2 == p / 2 + Len(td);
  }

  lemma SavedSame(a: seq<Word>, b: seq<Word>, l: Layout, p: Word, td: Cells, tr: Cells)
    requires |a| == |b| == RAM_WORDS && Saved(a, l, p, td, tr)
    requires forall c: nat :: InStore(p, Len(td) + Len(tr), c) && c < RAM_WORDS ==> b[c] == a[c]
    ensures Saved(b, l, p, td, tr)
  {
    forall k | p / 2 <= k < p / 2 + Len(Image(td, tr)) && k < |a|
      ensures a[k] == b[k]
    {
      assert InStore(p, Len(td) + Len(tr), k);
    }
    LiesSame(a, b, p / 2, Image(td, tr));
  }

  /** No code among these cells. */
  predicate Clear(l: Layout, c: nat, n: nat) {
    forall k :: c <= k < c + n ==> !InCode(l, k)
  }

  lemma Clears(l: Layout, p: Word, nd: nat, nr: nat)
    requires StoreFits(l, p, nd + nr)
    ensures p % 2 == 0 && p + 2 + 2 * nd + 2 * nr <= RAM_BYTES && !InCode(l, p / 2) && p / 2 != l.taskptr
    ensures Clear(l, (p + 2) / 2, nd) && Clear(l, (p + 2 + 2 * nd) / 2, nr)
    ensures (p + 2) / 2 == p / 2 + 1 && (p + 2 + 2 * nd) / 2 == p / 2 + 1 + nd && (p + 2) % 2 == 0 && (p + 2 + 2 * nd) % 2 == 0
  {
    assert InStore(p, nd + nr, p / 2);
    forall k | p / 2 + 1 <= k < p / 2 + 1 + nd + nr
      ensures !InCode(l, k)
    {
      assert InStore(p, nd + nr, k);
    }
  }

  lemma ImageIs(w: Word, td: Cells, tr: Cells)
    requires Len(td) < STACK_CELLS && Len(tr) < STACK_CELLS && w == 0x100 * Len(tr) + Len(td)
    ensures Image(td, tr) == Cell(w, Onto(td, tr))
  {
  }

  /** What pause leaves in memory. */
  lemma Stores(ram: seq<Word>, l: Layout, p: Word, w: Word, td: Cells, tr: Cells)
    requires |ram| == RAM_WORDS && Len(td) < STACK_CELLS && Len(tr) < STACK_CELLS && w == 0x100 * Len(tr) + Len(td)
    requires StoreFits(l, p, Len(td) + Len(tr))
    ensures Written(Written(ram[p / 2 := w], p / 2 + 1, td), p / 2 + 1 + Len(td), tr) == Written(ram, p / 2, Image(td, tr))
    ensures Saved(Written(ram, p / 2, Image(td, tr)), l, p, td, tr)
  {
    Clears(l, p, Len(td), Len(tr));
    ImageIs(w, td, tr);
    assert Written(ram, p / 2, Image(td, tr)) == Written(ram[p / 2 := w], p / 2 + 1, Onto(td, tr));
    WrittenOnto(ram[p / 2 := w], p / 2 + 1, td, tr);
    WrittenLies(ram, p / 2, Image(td, tr));
  }

  // ---------------------------------------------------------------- arithmetic

  lemma {:induction false} XorZero(a: nat, b: nat)
    ensures Xor(a, b) == 0 <==> a == b
    decreases a + b
  {
    if a != 0 && b != 0 {
      XorZero(a / 2, b / 2);
    }
  }

  lemma XorWordZero(a: Word, b: Word)
    ensures XorWord(a, b) == 0 <==> a == b
  {
    XorZero(a, b);
  }

  lemma {:induction false} AndSwap(a: nat, b: nat)
    ensures And(a, b) == And(b, a)
    decreases a
  {
    if a != 0 {
      AndSwap(a / 2, b / 2);
    } else {
      AndZero(b);
    }
  }

  lemma LowByte(w: Word)
    ensures AndWord(0xFF, w) == w % 0x100
  {
    assert Pow2(8) == 0x100 by {
      assert Pow2(4) == 16;
    }
    AndSwap(0xFF, w);
    AndLow(w, 8);
  }

  lemma HighByte(w: Word)
    ensures ShiftRight(w, 8) == w / 0x100
  {
    assert Pow2(8) == 0x100 by {
      assert Pow2(4) == 16;
    }
  }

  lemma Doubled(w: Word, nr: nat, nd: nat)
    requires w == 0x100 * nr + nd && nr < STACK_CELLS && nd < STACK_CELLS
    ensures Wrap(2 * w) % 0x100 == 2 * nd && Wrap(2 * w) / 0x100 == 2 * nr
  {
    assert 2 * w == (2 * nr) * 0x100 + 2 * nd && Wrap(2 * w) == 2 * w;
    ModUnique(2 * w, 2 * nr, 2 * nd, 0x100);
  }

  lemma Halves(w: Word, nr: nat, nd: nat)
    requires w == 0x100 * nr + nd && nr < STACK_CELLS && nd < STACK_CELLS
    ensures AndWord(0xFF, Wrap(2 * w)) == 2 * nd && ShiftRight(Wrap(2 * w), 8) == 2 * nr
  {
    LowByte(Wrap(2 * w));
    HighByte(Wrap(2 * w));
    Doubled(w, nr, nd);
  }

  lemma Seventh(w: Word, nr: nat, nd: nat)
    requires w == 0x100 * nr + nd && nr < STACK_CELLS && nd < STACK_CELLS
    ensures AndWord(0xFF, w) == nd && ShiftRight(w, 7) == 2 * nr
  {
    LowByte(w);
    assert Pow2(7) == 0x80 by {
      assert Pow2(4) == 16;
    }
    assert 0x100 * nr + nd == 0x80 * (2 * nr) + nd;
  }

  lemma WrapSmall(a: nat)
    requires a <= RAM_BYTES
    ensures Wrap(a) == a
  {
  }

  lemma AddressStep(at: Word, n: nat)
    requires at % 2 == 0 && n > 0 && at + 2 * n <= RAM_BYTES
    ensures Wrap(at + 2) == at + 2 && (at + 2) / 2 == at / 2 + 1 && (at + 2) % 2 == 0 && at < RAM_BYTES
  {
  }

  lemma CountStep(k: Word)
    requires k > 0
    ensures Wrap(k - 1) == k - 1
  {
  }

  // ---------------------------------------------------------------- cells in use

  function Max(a: nat, b: nat): nat {
    if a < b then b else a
  }

  /** The most data cells in use while n cells of the caller's and k of the task's are moved. */
  function DataPeak(n: nat, k: nat): nat {
    n + 3 + Max(1, k)
  }

  /** The same for the return cells, in progress. */
  function ReturnPeak(n: nat, k: nat, cells: nat): nat {
    n + k + if cells > 0 then 2 else 1
  }

  /** The most return cells in use while k of the task's go to memory from n of the caller's. */
  function PausePeak(n: nat, k: nat, cells: nat): nat {
    n + k + if cells > 0 then 3 else 2
  }

  /** The data stack is one cell too deep. */
  predicate Loses(s: Snap, n: nat, k: nat) {
    s.h > 0 && DataPeak(n, k) == STACK_CELLS + 1
  }

  /** The return stack is one cell too deep. */
  predicate LosesReturn(s: Snap, peak: nat) {
    s.g > 0 && peak == STACK_CELLS
  }

  /** How many cells are underneath once the lowest known one is another. */
  function Hidden(s: Snap, n: nat, k: nat): nat {
    if Loses(s, n, k) then s.h - 1 else s.h
  }

  function Covered(s: Snap, peak: nat): nat {
    if LosesReturn(s, peak) then s.g - 1 else s.g
  }
}
