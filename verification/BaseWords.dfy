/**
 The words of basewords.fs that take several instructions, seen on the data stack as a sequence of
 cells with the top first.
 */
module BaseWords {
  import opened Words
  import opened J1
  import opened Forth
  import opened Correctness
  import opened Primitives

  const TWO_TO_R := [SWAP, TO_R, TO_R]
  const TWO_R_FROM := [R_FROM, R_FROM, SWAP]
  const TWO_R_FETCH := [R_FROM, R_FROM, OVER, OVER, TO_R, TO_R, SWAP]
  const STORE := [STORE_DROP, DROP]

  function Phrase(ops: seq<AluOp>): Prog {
    if ops == [] then End else Prog.Then(Alu(ops[0]), Phrase(ops[1..]))
  }

  /** The data stack holds at least these cells, and the word's return stack exactly those. */
  ghost predicate Stacks(s: State, v: seq<Word>, r: seq<Word>) {
    s.r == r && (v == [] || (s.st0 == v[0] && View(s.dstack, s.dsp, v[1..])))
  }

  ghost predicate SameMemoryAndLog(s: State, t: State) {
    s.ram == t.ram && s.log == t.log
  }

  /** The operations, one after the other, lead from s to t. */
  ghost predicate Gets(ops: seq<AluOp>, s: State, t: State, under: nat, w: World) {
    forall fuel: nat :: ExecProg(Phrase(ops), s, under, fuel, w) == Done(t)
  }

  lemma GetsOne(op: AluOp, s: State, t: State, under: nat, w: World)
    requires AluSafe(op, s, under, w) && t == Computed(op, s, under, w)
    ensures Gets([op], s, t, under, w)
  {
  }

  lemma {:induction false} PhraseAppend(a: seq<AluOp>, b: seq<AluOp>, s: State, under: nat, fuel: nat, w: World)
    ensures ExecProg(Phrase(a + b), s, under, fuel, w)
            == match ExecProg(Phrase(a), s, under, fuel, w)
               case Done(t) => ExecProg(Phrase(b), t, under, fuel, w)
               case o => o
  {
    if a == [] {
      assert a + b == b;
    } else {
      assert (a + b)[1..] == a[1..] + b;
      var first := ExecItem(Alu(a[0]), s, under, fuel, w);
      if first.Done? {
        PhraseAppend(a[1..], b, first.s, under, fuel, w);
      }
    }
  }

  lemma GetsAppend(a: seq<AluOp>, b: seq<AluOp>, s: State, t: State, u: State, under: nat, w: World)
    requires Gets(a, s, t, under, w) && Gets(b, t, u, under, w)
    ensures Gets(a + b, s, u, under, w)
  {
    forall fuel: nat
      ensures ExecProg(Phrase(a + b), s, under, fuel, w) == Done(u)
    {
      PhraseAppend(a, b, s, under, fuel, w);
    }
  }

  lemma GetsThree(a: AluOp, b: AluOp, c: AluOp, s: State, t: State, u: State, x: State, under: nat, w: World)
    requires Gets([a], s, t, under, w) && Gets([b], t, u, under, w) && Gets([c], u, x, under, w)
    ensures Gets([a, b, c], s, x, under, w)
  {
    GetsAppend([a], [b], s, t, u, under, w);
    GetsAppend([a] + [b], [c], s, u, x, under, w);
    assert [a] + [b] + [c] == [a, b, c];
  }

  // ---------------------------------------------------------------- the primitives

  lemma ViewReplaced(stack: seq<Word>, sp: nat, a: Word, v: seq<Word>, b: Word)
    requires View(stack, sp, [a] + v)
    ensures stack[sp] == a && View(stack[sp := b], sp, [b] + v)
  {
    assert stack[(sp - 0) % STACK_CELLS] == ([a] + v)[0];
    forall i | 0 <= i < |[b] + v|
      ensures stack[sp := b][(sp - i) % STACK_CELLS] == ([b] + v)[i]
    {
      if i > 0 {
        Apart(sp, i);
        assert ([b] + v)[i] == ([a] + v)[i];
      }
    }
  }

  lemma Swapped(s: State, r: seq<Word>, under: nat, w: World)
    requires s.r == r && under + |r| <= STACK_CELLS
    ensures AluSafe(SWAP, s, under, w)
    ensures Computed(SWAP, s, under, w) == s.(st0 := s.dstack[s.dsp], dstack := s.dstack[s.dsp := s.st0])
  {
    assert [] + r[0..] == r;
  }

  lemma SwapStep(s: State, a: Word, b: Word, v: seq<Word>, r: seq<Word>, under: nat, w: World) returns (t: State)
    requires Stacks(s, [b, a] + v, r) && under + |r| <= STACK_CELLS
    ensures Gets([SWAP], s, t, under, w) && Stacks(t, [a, b] + v, r) && SameMemoryAndLog(s, t)
  {
    assert ([b, a] + v)[1..] == [a] + v && ([a, b] + v)[1..] == [b] + v;
    ViewReplaced(s.dstack, s.dsp, a, v, b);
    Swapped(s, r, under, w);
    t := Computed(SWAP, s, under, w);
    GetsOne(SWAP, s, t, under, w);
  }

  lemma PushedIs(op: AluOp, s: State, x: Word, dsp: nat, under: nat, w: World)
    requires op.tn && op.dd == 1 && !op.tr && !op.nm && op.sel != 12 && AluSafe(op, s, under, w)
    requires Result(op, s, under, w) == x && dsp == Moved(s.dsp, 1)
    ensures Computed(op, s, under, w) == s.(dsp := dsp, st0 := x, dstack := s.dstack[dsp := s.st0], r := s.r[Taken(op)..])
  {
    assert [] + s.r[Taken(op)..] == s.r[Taken(op)..] && s.log + [] + [] == s.log;
  }

  /** over, and any other operation that pushes a cell. */
  lemma PushStep(op: AluOp, s: State, v: seq<Word>, r: seq<Word>, x: Word, under: nat, w: World) returns (t: State)
    requires op.tn && op.dd == 1 && !op.tr && !op.nm && op.sel != 12 && AluSafe(op, s, under, w)
    requires Stacks(s, v, r) && 0 < |v| <= STACK_CELLS && Result(op, s, under, w) == x
    ensures Gets([op], s, t, under, w) && Stacks(t, [x] + v, r[Taken(op)..]) && SameMemoryAndLog(s, t)
  {
    var dsp := Moved(s.dsp, 1);
    t := s.(dsp := dsp, st0 := x, dstack := s.dstack[dsp := s.st0], r := r[Taken(op)..]);
    PushedIs(op, s, x, dsp, under, w);
    GetsOne(op, s, t, under, w);
    ViewPush(s.dstack, s.dsp, v[1..], s.st0);
    assert [s.st0] + v[1..] == v && ([x] + v)[1..] == v;
  }

  lemma OverStep(s: State, a: Word, b: Word, v: seq<Word>, r: seq<Word>, under: nat, w: World) returns (t: State)
    requires Stacks(s, [b, a] + v, r) && under + |r| <= STACK_CELLS && |v| + 2 <= STACK_CELLS
    ensures Gets([OVER], s, t, under, w) && Stacks(t, [a, b, a] + v, r) && SameMemoryAndLog(s, t)
  {
    assert ([b, a] + v)[1..] == [a] + v;
    assert s.dstack[(s.dsp - 0) % STACK_CELLS] == ([a] + v)[0];
    t := PushStep(OVER, s, [b, a] + v, r, a, under, w);
    assert [a] + ([b, a] + v) == [a, b, a] + v && r[0..] == r;
  }

  lemma FromStep(s: State, v: seq<Word>, r: seq<Word>, x: Word, under: nat, w: World) returns (t: State)
    requires Stacks(s, v, [x] + r) && 0 < |v| <= STACK_CELLS && under + |r| + 1 <= STACK_CELLS
    ensures Gets([R_FROM], s, t, under, w) && Stacks(t, [x] + v, r) && SameMemoryAndLog(s, t)
  {
    t := PushStep(R_FROM, s, v, [x] + r, x, under, w);
    assert ([x] + r)[1..] == r;
  }

  lemma ToStep(s: State, v: seq<Word>, r: seq<Word>, x: Word, under: nat, w: World) returns (t: State)
    requires Stacks(s, [x] + v, r) && under + |r| < STACK_CELLS
    ensures Gets([TO_R], s, t, under, w) && Stacks(t, v, [x] + r) && SameMemoryAndLog(s, t)
  {
    assert ([x] + v)[1..] == v && r[0..] == r;
    Uncovered(s, v);
    t := Computed(TO_R, s, under, w);
    GetsOne(TO_R, s, t, under, w);
  }

  /** The cell below the top comes to the top, and the rest moves up. */
  lemma Uncovered(s: State, v: seq<Word>)
    requires View(s.dstack, s.dsp, v)
    ensures v != [] ==> s.dstack[s.dsp] == v[0] && View(s.dstack, Moved(s.dsp, 3), v[1..])
  {
    if v != [] {
      assert s.dstack[(s.dsp - 0) % STACK_CELLS] == v[0];
      ViewDrop(s.dstack, s.dsp, v, 1);
    }
  }

  // ---------------------------------------------------------------- one cell for two

  /** The ALU sees only the two cells on top. */
  predicate OfTwo(op: AluOp) {
    op.dd == 3 && op.rd == 0 && !op.tn && !op.tr && !op.nm && (op.sel < 10 || op.sel == 13 || op.sel == 15)
  }

  lemma Combined(op: AluOp, s: State, a: Word, b: Word, v: seq<Word>, r: seq<Word>, under: nat, w: World)
    returns (t: State, c: Word)
    requires OfTwo(op) && Stacks(s, [b, a] + v, r) && under + |r| <= STACK_CELLS
    ensures Gets([op], s, t, under, w) && Stacks(t, [c] + v, r) && SameMemoryAndLog(s, t)
    ensures c == AluResult(op.sel, b, a, 0, 0, 0, 0)
  {
    c := AluResult(op.sel, b, a, 0, 0, 0, 0);
    assert ([b, a] + v)[1..] == [a] + v && ([a] + v)[1..] == v && ([c] + v)[1..] == v && r[0..] == r && [] + r == r;
    Uncovered(s, [a] + v);
    t := Computed(op, s, under, w);
    GetsOne(op, s, t, under, w);
  }

  /** A flag is all ones or all zeros. */
  predicate Says(c: Word, yes: bool) {
    c == if yes then 0xFFFF else 0
  }

  /** x is the number that the cell stands for in two's complement. */
  predicate StandsFor(cell: Word, x: int) {
    -0x8000 <= x < 0x8000 && x % 0x1_0000 == cell
  }

  /** < compares in two's complement: the cell below with the one on top. */
  lemma LessRuns(s: State, a: Word, b: Word, x: int, y: int, v: seq<Word>, r: seq<Word>, under: nat, w: World)
    returns (t: State, c: Word)
    requires Stacks(s, [b, a] + v, r) && under + |r| <= STACK_CELLS && StandsFor(a, x) && StandsFor(b, y)
    ensures Gets([LESS], s, t, under, w) && Stacks(t, [c] + v, r) && SameMemoryAndLog(s, t) && Says(c, x < y)
  {
    t, c := Combined(LESS, s, a, b, v, r, under, w);
  }

  lemma ULessRuns(s: State, a: Word, b: Word, v: seq<Word>, r: seq<Word>, under: nat, w: World)
    returns (t: State, c: Word)
    requires Stacks(s, [b, a] + v, r) && under + |r| <= STACK_CELLS
    ensures Gets([U_LESS], s, t, under, w) && Stacks(t, [c] + v, r) && SameMemoryAndLog(s, t) && Says(c, a < b)
  {
    t, c := Combined(U_LESS, s, a, b, v, r, under, w);
  }

  lemma EqualRuns(s: State, a: Word, b: Word, v: seq<Word>, r: seq<Word>, under: nat, w: World)
    returns (t: State, c: Word)
    requires Stacks(s, [b, a] + v, r) && under + |r| <= STACK_CELLS
    ensures Gets([EQUAL], s, t, under, w) && Stacks(t, [c] + v, r) && SameMemoryAndLog(s, t) && Says(c, a == b)
  {
    t, c := Combined(EQUAL, s, a, b, v, r, under, w);
  }

  lemma OrRuns(s: State, a: Word, b: Word, v: seq<Word>, r: seq<Word>, under: nat, w: World)
    returns (t: State, c: Word)
    requires Stacks(s, [b, a] + v, r) && under + |r| <= STACK_CELLS
    ensures Gets([OR], s, t, under, w) && Stacks(t, [c] + v, r) && SameMemoryAndLog(s, t)
    ensures forall i: nat :: BitAt(c, i) <==> BitAt(a, i) || BitAt(b, i)
  {
    t, c := Combined(OR, s, a, b, v, r, under, w);
    forall i: nat
      ensures BitAt(c, i) <==> BitAt(a, i) || BitAt(b, i)
    {
      OrAt(b, a, i);
    }
  }

  lemma AndRuns(s: State, a: Word, b: Word, v: seq<Word>, r: seq<Word>, under: nat, w: World)
    returns (t: State, c: Word)
    requires Stacks(s, [b, a] + v, r) && under + |r| <= STACK_CELLS
    ensures Gets([AND], s, t, under, w) && Stacks(t, [c] + v, r) && SameMemoryAndLog(s, t)
    ensures forall i: nat :: BitAt(c, i) <==> BitAt(a, i) && BitAt(b, i)
  {
    t, c := Combined(AND, s, a, b, v, r, under, w);
    forall i: nat
      ensures BitAt(c, i) <==> BitAt(a, i) && BitAt(b, i)
    {
      AndAt(b, a, i);
    }
  }

  lemma XorRuns(s: State, a: Word, b: Word, v: seq<Word>, r: seq<Word>, under: nat, w: World)
    returns (t: State, c: Word)
    requires Stacks(s, [b, a] + v, r) && under + |r| <= STACK_CELLS
    ensures Gets([XOR], s, t, under, w) && Stacks(t, [c] + v, r) && SameMemoryAndLog(s, t)
    ensures forall i: nat :: BitAt(c, i) <==> BitAt(a, i) != BitAt(b, i)
  {
    t, c := Combined(XOR, s, a, b, v, r, under, w);
    forall i: nat
      ensures BitAt(c, i) <==> BitAt(a, i) != BitAt(b, i)
    {
      XorAt(b, a, i);
    }
  }

  lemma PlusRuns(s: State, a: Word, b: Word, v: seq<Word>, r: seq<Word>, under: nat, w: World)
    returns (t: State, c: Word)
    requires Stacks(s, [b, a] + v, r) && under + |r| <= STACK_CELLS
    ensures Gets([PLUS], s, t, under, w) && Stacks(t, [c] + v, r) && SameMemoryAndLog(s, t)
    ensures c == if a + b < 0x1_0000 then a + b else a + b - 0x1_0000
  {
    t, c := Combined(PLUS, s, a, b, v, r, under, w);
  }

  /** rshift keeps the quotient by a power of two; of the count only the low four bits matter. */
  lemma RShiftRuns(s: State, a: Word, b: Word, v: seq<Word>, r: seq<Word>, under: nat, w: World)
    returns (t: State, c: Word)
    requires Stacks(s, [b, a] + v, r) && under + |r| <= STACK_CELLS
    ensures Gets([RSHIFT], s, t, under, w) && Stacks(t, [c] + v, r) && SameMemoryAndLog(s, t)
    ensures c * Pow2(b % 16) <= a < c * Pow2(b % 16) + Pow2(b % 16)
  {
    t, c := Combined(RSHIFT, s, a, b, v, r, under, w);
    DivModIdentity(a, Pow2(b % 16));
  }

  /** lshift loses what goes beyond sixteen bits. */
  lemma LShiftRuns(s: State, a: Word, b: Word, v: seq<Word>, r: seq<Word>, under: nat, w: World)
    returns (t: State, c: Word)
    requires Stacks(s, [b, a] + v, r) && under + |r| <= STACK_CELLS
    ensures Gets([LSHIFT], s, t, under, w) && Stacks(t, [c] + v, r) && SameMemoryAndLog(s, t)
    ensures c == (a * Pow2(b % 16)) % 0x1_0000
  {
    t, c := Combined(LSHIFT, s, a, b, v, r, under, w);
  }

  // ---------------------------------------------------------------- one cell for one

  lemma InPlace(op: AluOp, s: State, x: Word, log: seq<Access>, under: nat, w: World)
    requires op.dd == 0 && op.rd == 0 && !op.tn && !op.tr && !op.nm && AluSafe(op, s, under, w)
    requires Result(op, s, under, w) == x && log == s.log + if op.sel == 12 && s.st0 >= 0x4000 then [Read(s.st0, x)] else []
    ensures Computed(op, s, under, w) == s.(st0 := x, log := log)
  {
    assert s.r[0..] == s.r && [] + s.r == s.r && log + [] == log;
  }

  lemma Changed(op: AluOp, s: State, a: Word, v: seq<Word>, r: seq<Word>, x: Word, under: nat, w: World) returns (t: State)
    requires op.dd == 0 && op.rd == 0 && !op.tn && !op.tr && !op.nm && AluSafe(op, s, under, w)
    requires Stacks(s, [a] + v, r) && Result(op, s, under, w) == x
    ensures Gets([op], s, t, under, w) && Stacks(t, [x] + v, r) && t.ram == s.ram
    ensures t.log == s.log + if op.sel == 12 && a >= 0x4000 then [Read(a, x)] else []
  {
    assert ([a] + v)[1..] == v && ([x] + v)[1..] == v;
    var log := s.log + if op.sel == 12 && a >= 0x4000 then [Read(a, x)] else [];
    InPlace(op, s, x, log, under, w);
    t := s.(st0 := x, log := log);
    GetsOne(op, s, t, under, w);
  }

  lemma InvertRuns(s: State, a: Word, v: seq<Word>, r: seq<Word>, under: nat, w: World) returns (t: State, c: Word)
    requires Stacks(s, [a] + v, r) && under + |r| <= STACK_CELLS
    ensures Gets([INVERT], s, t, under, w) && Stacks(t, [c] + v, r) && SameMemoryAndLog(s, t)
    ensures forall i: nat :: i < 16 ==> (BitAt(c, i) <==> !BitAt(a, i))
  {
    c := Not(a);
    t := Changed(INVERT, s, a, v, r, c, under, w);
    WordPow2();
    forall i: nat | i < 16
      ensures BitAt(c, i) <==> !BitAt(a, i)
    {
      NotAt(a, i, 16);
    }
  }

  lemma DecRuns(s: State, a: Word, v: seq<Word>, r: seq<Word>, under: nat, w: World) returns (t: State, c: Word)
    requires Stacks(s, [a] + v, r) && under + |r| <= STACK_CELLS
    ensures Gets([DEC], s, t, under, w) && Stacks(t, [c] + v, r) && SameMemoryAndLog(s, t)
    ensures c == if a == 0 then 0xFFFF else a - 1
  {
    c := Wrap(a - 1);
    t := Changed(DEC, s, a, v, r, c, under, w);
  }

  /** @ reads a cell of memory, or the bus from 0x4000 on, and only then is there an access. */
  lemma FetchRuns(s: State, address: Word, v: seq<Word>, r: seq<Word>, under: nat, w: World) returns (t: State, c: Word)
    requires Stacks(s, [address] + v, r) && under + |r| <= STACK_CELLS
    requires address < 0x4000 ==> address / 2 !in w.code
    ensures Gets([FETCH], s, t, under, w) && Stacks(t, [c] + v, r) && t.ram == s.ram
    ensures if address < 0x4000 then c == s.ram[address / 2] && t.log == s.log
            else c == w.bus(s.log, address) && t.log == s.log + [Read(address, c)]
  {
    c := if address < 0x4000 then s.ram[address / 2] else w.bus(s.log, address);
    t := Changed(FETCH, s, address, v, r, c, under, w);
  }

  /** dsp pushes the depths of both stacks before the push, the one of the return stack in the upper byte. */
  lemma DepthsRun(s: State, v: seq<Word>, r: seq<Word>, under: nat, w: World) returns (t: State, c: Word)
    requires Stacks(s, v, r) && 0 < |v| <= STACK_CELLS && under + |r| <= STACK_CELLS
    ensures Gets([DEPTHS], s, t, under, w) && Stacks(t, [c] + v, r) && SameMemoryAndLog(s, t)
    ensures c % 0x100 == s.dsp && c / 0x100 == (w.base + under + |r|) % STACK_CELLS
  {
    c := Result(DEPTHS, s, under, w);
    t := PushStep(DEPTHS, s, v, r, c, under, w);
    assert r[0..] == r;
  }

  // ---------------------------------------------------------------- the words

  /** 2>r moves two cells and keeps their order: the one that was on top stays on top. */
  lemma TwoToR(s: State, a: Word, b: Word, v: seq<Word>, r: seq<Word>, under: nat, w: World) returns (x: State)
    requires Stacks(s, [b, a] + v, r) && under + |r| + 2 <= STACK_CELLS
    ensures Gets(TWO_TO_R, s, x, under, w) && Stacks(x, v, [b, a] + r) && SameMemoryAndLog(s, x)
  {
    var t := SwapStep(s, a, b, v, r, under, w);
    assert [a, b] + v == [a] + ([b] + v) && [b] + ([a] + r) == [b, a] + r;
    var u := ToStep(t, [b] + v, r, a, under, w);
    x := ToStep(u, v, [a] + r, b, under, w);
    GetsThree(SWAP, TO_R, TO_R, s, t, u, x, under, w);
  }

  /** 2r> brings back what 2>r put away. */
  lemma TwoRFrom(s: State, a: Word, b: Word, v: seq<Word>, r: seq<Word>, under: nat, w: World) returns (x: State)
    requires Stacks(s, v, [b, a] + r) && 0 < |v| < STACK_CELLS && under + |r| + 2 <= STACK_CELLS
    ensures Gets(TWO_R_FROM, s, x, under, w) && Stacks(x, [b, a] + v, r) && SameMemoryAndLog(s, x)
  {
    assert [b, a] + r == [b] + ([a] + r) && [a] + ([b] + v) == [a, b] + v;
    var t := FromStep(s, v, [a] + r, b, under, w);
    var u := FromStep(t, [b] + v, r, a, under, w);
    x := SwapStep(u, b, a, v, r, under, w);
    GetsThree(R_FROM, R_FROM, SWAP, s, t, u, x, under, w);
  }

  /** Two copies go to the return stack, two stay. */
  lemma CopyTwo(s: State, a: Word, b: Word, v: seq<Word>, r: seq<Word>, under: nat, w: World) returns (y: State)
    requires Stacks(s, [a, b] + v, r) && |v| + 3 <= STACK_CELLS && under + |r| + 2 <= STACK_CELLS
    ensures Gets([OVER, OVER, TO_R] + [TO_R], s, y, under, w) && Stacks(y, [a, b] + v, [b, a] + r) && SameMemoryAndLog(s, y)
  {
    assert [b, a, b] + v == [b, a] + ([b] + v) && [a, b, a] + ([b] + v) == [a] + ([b] + ([a, b] + v));
    assert [b] + ([a] + r) == [b, a] + r;
    var t := OverStep(s, b, a, v, r, under, w);
    var u := OverStep(t, a, b, [b] + v, r, under, w);
    var x := ToStep(u, [b] + ([a, b] + v), r, a, under, w);
    y := ToStep(x, [a, b] + v, [a] + r, b, under, w);
    GetsThree(OVER, OVER, TO_R, s, t, u, x, under, w);
    GetsAppend([OVER, OVER, TO_R], [TO_R], s, x, y, under, w);
  }

  /** 2r@ copies the two cells and leaves the return stack as it was. */
  lemma TwoRFetch(s: State, a: Word, b: Word, v: seq<Word>, r: seq<Word>, under: nat, w: World) returns (z: State)
    requires Stacks(s, v, [b, a] + r) && 0 < |v| && |v| + 3 <= STACK_CELLS && under + |r| + 2 <= STACK_CELLS
    ensures Gets(TWO_R_FETCH, s, z, under, w) && Stacks(z, [b, a] + v, [b, a] + r) && SameMemoryAndLog(s, z)
  {
    assert [b, a] + r == [b] + ([a] + r) && [a] + ([b] + v) == [a, b] + v;
    var t := FromStep(s, v, [a] + r, b, under, w);
    var u := FromStep(t, [b] + v, r, a, under, w);
    var y := CopyTwo(u, a, b, v, r, under, w);
    z := SwapStep(y, b, a, v, [b, a] + r, under, w);
    var copy := [OVER, OVER, TO_R] + [TO_R];
    GetsAppend([R_FROM], [R_FROM], s, t, u, under, w);
    GetsAppend([R_FROM] + [R_FROM], copy, s, u, y, under, w);
    GetsAppend([R_FROM] + [R_FROM] + copy, [SWAP], s, y, z, under, w);
    assert [R_FROM] + [R_FROM] + copy + [SWAP] == TWO_R_FETCH;
  }

  /** The second cell goes to the address on top, which is dropped. */
  lemma StoreDropRuns(s: State, address: Word, x: Word, v: seq<Word>, r: seq<Word>, under: nat, w: World) returns (t: State)
    requires Stacks(s, [address, x] + v, r) && under + |r| <= STACK_CELLS
    requires address < 0x4000 ==> address / 2 !in w.code
    ensures Gets([STORE_DROP], s, t, under, w) && View(t.dstack, t.dsp, v) && t.r == r && t.log == s.log + [Write(address, x)]
    ensures t.ram == if address < 0x4000 then s.ram[address / 2 := x] else s.ram
  {
    assert ([address, x] + v)[1..] == [x] + v && ([x] + v)[1..] == v && r[0..] == r && [] + r == r;
    Uncovered(s, [x] + v);
    t := Computed(STORE_DROP, s, under, w);
    GetsOne(STORE_DROP, s, t, under, w);
  }

  /** What is on top comes off. */
  lemma DropRuns(s: State, v: seq<Word>, r: seq<Word>, under: nat, w: World) returns (t: State)
    requires View(s.dstack, s.dsp, v) && s.r == r && under + |r| <= STACK_CELLS
    ensures Gets([DROP], s, t, under, w) && Stacks(t, v, r) && SameMemoryAndLog(s, t)
  {
    assert r[0..] == r && [] + r == r;
    Uncovered(s, v);
    t := Computed(DROP, s, under, w);
    GetsOne(DROP, s, t, under, w);
  }

  /** ! stores the second cell at the address on top and drops both. */
  lemma Store(s: State, address: Word, x: Word, v: seq<Word>, r: seq<Word>, under: nat, w: World) returns (u: State)
    requires Stacks(s, [address, x] + v, r) && under + |r| <= STACK_CELLS
    requires address < 0x4000 ==> address / 2 !in w.code
    ensures Gets(STORE, s, u, under, w) && Stacks(u, v, r) && u.log == s.log + [Write(address, x)]
    ensures u.ram == if address < 0x4000 then s.ram[address / 2 := x] else s.ram
  {
    var t := StoreDropRuns(s, address, x, v, r, under, w);
    u := DropRuns(t, v, r, under, w);
    GetsAppend([STORE_DROP], [DROP], s, t, u, under, w);
    assert [STORE_DROP] + [DROP] == STORE;
  }
}
