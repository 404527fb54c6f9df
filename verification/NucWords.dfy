/**
 Words of nuc.fs that are compiled from other words: what they leave on the data stack, and with them division on the
 processor.
 */
module NucWords {
  import opened Words
  import opened J1
  import opened Forth
  import opened Primitives
  import opened Stacks
  import opened Division
  import BaseWords

  // ---------------------------------------------------------------- the definitions

  const ONE_PLUS: nat := 0
  const ROT: nat := 1
  const MINUS_ROT: nat := 2
  const TUCK: nat := 3
  const TWO_DUP: nat := 4
  const AT_LEAST: nat := 5
  const NEGATE: nat := 6
  const MINUS: nat := 7
  const TWICE: nat := 8
  const NEGATIVE: nat := 9
  const DIVSTEP: nat := 10
  const UM_MOD: nat := 11
  const D_PLUS: nat := 12

  function One(a: Item): Prog {
    Then(a, End)
  }

  function Two(a: Item, b: Item): Prog {
    Then(a, One(b))
  }

  function Four(a: Item, b: Item, c: Item, d: Item): Prog {
    Then(a, Then(b, Two(c, d)))
  }

  /** What divstep does when the divisor goes into the high cell. */
  const SUBTRACT: Prog :=
    Then(Call(TUCK), Then(Call(MINUS), Then(Alu(SWAP), Then(Call(ROT), Then(Call(ONE_PLUS), One(Call(ROT)))))))

  const COMPARE: Prog :=
    Then(Call(ROT), Then(Call(TWO_DUP), Then(Call(AT_LEAST), One(IfElse(SUBTRACT, One(Call(MINUS_ROT)))))))

  const SHIFT: Prog :=
    Then(Alu(SWAP), Then(Call(TWICE), Then(Alu(SWAP), COMPARE)))

  const DIVSTEP_BODY: Prog :=
    Then(Call(TWICE), Then(Alu(OVER), Then(Call(NEGATIVE), Then(If(One(Call(ONE_PLUS))), SHIFT))))

  function Divsteps(n: nat, rest: Prog): Prog {
    if n == 0 then rest else Then(Call(DIVSTEP), Divsteps(n - 1, rest))
  }

  const UM_MOD_END: Prog := Then(Call(ROT), Two(Alu(DROP), Alu(SWAP)))

  const CARRY: Prog :=
    Then(Alu(DUP), Then(Call(ROT), Two(Alu(U_LESS), IfElse(Two(Alu(R_FROM), Call(ONE_PLUS)), One(Alu(R_FROM))))))

  const NUC: seq<Prog> := [
    Two(Lit(1), Alu(PLUS)),
    Four(Alu(TO_R), Alu(SWAP), Alu(R_FROM), Alu(SWAP)),
    Four(Alu(SWAP), Alu(TO_R), Alu(SWAP), Alu(R_FROM)),
    Two(Alu(SWAP), Alu(OVER)),
    Two(Alu(OVER), Alu(OVER)),
    Two(Alu(LESS), Alu(INVERT)),
    Two(Alu(INVERT), Call(ONE_PLUS)),
    Two(Call(NEGATE), Alu(PLUS)),
    Two(Lit(1), Alu(LSHIFT)),
    Two(Lit(0), Alu(LESS)),
    DIVSTEP_BODY,
    Then(Call(MINUS_ROT), Divsteps(16, UM_MOD_END)),
    Then(Call(ROT), Then(Alu(PLUS), Then(Alu(TO_R), Then(Alu(OVER), Then(Alu(PLUS), CARRY)))))
  ]

  // ---------------------------------------------------------------- one item

  /** The data stack holds at least these cells, and the word's return stack exactly those. */
  ghost predicate Has(s: State, d: Cells, r: seq<Word>) {
    s.r == r && d.Cell? && s.st0 == d.top && On(s.dstack, s.dsp, d.rest)
  }

  ghost predicate Same(s: State, t: State) {
    s.ram == t.ram && s.log == t.log
  }

  /** The item leads from s to t. */
  ghost predicate Does(it: Item, s: State, t: State, under: nat, fuel: nat, w: World) {
    ExecItem(it, s, under, fuel, w) == Done(t)
  }

  /** The items lead from s to t. */
  ghost predicate Passes(p: Prog, s: State, t: State, under: nat, fuel: nat, w: World) {
    ExecProg(p, s, under, fuel, w) == Done(t)
  }

  /** The word, or what is left of it, returns from s with t. */
  ghost predicate Runs(p: Prog, s: State, t: State, under: nat, fuel: nat, w: World) {
    ExecWord(p, s, under, fuel, w) == Returned(t)
  }

  lemma Literal(n: Word, s: State, d: Cells, r: seq<Word>, under: nat, fuel: nat, w: World) returns (t: State)
    requires Has(s, d, r) && Len(d) <= STACK_CELLS
    ensures Does(Lit(n), s, t, under, fuel, w) && Has(t, Cell(n, d), r) && Same(s, t)
  {
    t := Pushed(s, n);
    OnPush(s.dstack, s.dsp, d.rest, s.st0);
  }

  lemma Push(op: AluOp, s: State, d: Cells, r: seq<Word>, x: Word, under: nat, fuel: nat, w: World) returns (t: State)
    requires op.tn && op.dd == 1 && !op.tr && !op.nm && op.sel != 12 && AluSafe(op, s, under, w)
    requires Has(s, d, r) && Len(d) <= STACK_CELLS && Result(op, s, under, w) == x
    ensures Does(Alu(op), s, t, under, fuel, w) && Has(t, Cell(x, d), r[Taken(op)..]) && Same(s, t)
  {
    var dsp := Moved(s.dsp, 1);
    BaseWords.PushedIs(op, s, x, dsp, under, w);
    t := Computed(op, s, under, w);
    OnPush(s.dstack, s.dsp, d.rest, s.st0);
  }

  lemma Over(s: State, d: Cells, r: seq<Word>, under: nat, fuel: nat, w: World) returns (t: State)
    requires Has(s, d, r) && d.rest.Cell? && Len(d) <= STACK_CELLS && under + |r| <= STACK_CELLS
    ensures Does(Alu(OVER), s, t, under, fuel, w) && Has(t, Cell(d.rest.top, d), r) && Same(s, t)
  {
    OnTop(s.dstack, s.dsp, d.rest);
    t := Push(OVER, s, d, r, d.rest.top, under, fuel, w);
    assert r[0..] == r;
  }

  lemma Dup(s: State, d: Cells, r: seq<Word>, under: nat, fuel: nat, w: World) returns (t: State)
    requires Has(s, d, r) && Len(d) <= STACK_CELLS && under + |r| <= STACK_CELLS
    ensures Does(Alu(DUP), s, t, under, fuel, w) && Has(t, Cell(d.top, d), r) && Same(s, t)
  {
    t := Push(DUP, s, d, r, d.top, under, fuel, w);
    assert r[0..] == r;
  }

  lemma FromR(s: State, d: Cells, x: Word, under: nat, fuel: nat, w: World) returns (t: State)
    requires Has(s, d, [x]) && Len(d) <= STACK_CELLS && under + 1 <= STACK_CELLS
    ensures Does(Alu(R_FROM), s, t, under, fuel, w) && Has(t, Cell(x, d), []) && Same(s, t)
  {
    t := Push(R_FROM, s, d, [x], x, under, fuel, w);
    assert [x][1..] == [];
  }

  lemma ToR(s: State, d: Cells, under: nat, fuel: nat, w: World) returns (t: State)
    requires Has(s, d, []) && d.rest.Cell? && under + 1 <= STACK_CELLS
    ensures Does(Alu(TO_R), s, t, under, fuel, w) && Has(t, d.rest, [d.top]) && Same(s, t)
  {
    OnTop(s.dstack, s.dsp, d.rest);
    OnPop(s.dstack, s.dsp, d.rest);
    t := s.(dsp := Moved(s.dsp, 3), st0 := d.rest.top, r := [d.top]);
    assert [s.st0] + s.r[0..] == [d.top] && s.log + [] + [] == s.log;
    assert Computed(TO_R, s, under, w) == t;
  }

  lemma Swap(s: State, d: Cells, r: seq<Word>, under: nat, fuel: nat, w: World) returns (t: State)
    requires Has(s, d, r) && d.rest.Cell? && Len(d) <= STACK_CELLS + 1 && under + |r| <= STACK_CELLS
    ensures Does(Alu(SWAP), s, t, under, fuel, w) && Has(t, Cell(d.rest.top, Cell(d.top, d.rest.rest)), r) && Same(s, t)
  {
    OnTop(s.dstack, s.dsp, d.rest);
    OnReplace(s.dstack, s.dsp, d.rest, s.st0);
    BaseWords.Swapped(s, r, under, w);
    t := Computed(SWAP, s, under, w);
  }

  lemma DropTop(s: State, d: Cells, r: seq<Word>, under: nat, fuel: nat, w: World) returns (t: State)
    requires Has(s, d, r) && d.rest.Cell? && under + |r| <= STACK_CELLS
    ensures Does(Alu(DROP), s, t, under, fuel, w) && Has(t, d.rest, r) && Same(s, t)
  {
    OnTop(s.dstack, s.dsp, d.rest);
    OnPop(s.dstack, s.dsp, d.rest);
    t := s.(dsp := Moved(s.dsp, 3), st0 := d.rest.top);
    assert [] + s.r[0..] == s.r && s.log + [] + [] == s.log;
    assert Computed(DROP, s, under, w) == t;
  }

  lemma Binary(op: AluOp, s: State, d: Cells, r: seq<Word>, x: Word, under: nat, fuel: nat, w: World) returns (t: State)
    requires BaseWords.OfTwo(op) && Has(s, d, r) && d.rest.Cell? && under + |r| <= STACK_CELLS
    requires x == AluResult(op.sel, d.top, d.rest.top, 0, 0, 0, 0)
    ensures Does(Alu(op), s, t, under, fuel, w) && Has(t, Cell(x, d.rest.rest), r) && Same(s, t)
  {
    OnTop(s.dstack, s.dsp, d.rest);
    OnPop(s.dstack, s.dsp, d.rest);
    t := s.(dsp := Moved(s.dsp, 3), st0 := x);
    assert [] + s.r[0..] == s.r && s.log + [] + [] == s.log;
    assert Computed(op, s, under, w) == t;
  }

  lemma Inverted(s: State, d: Cells, r: seq<Word>, under: nat, fuel: nat, w: World) returns (t: State)
    requires Has(s, d, r) && under + |r| <= STACK_CELLS
    ensures Does(Alu(INVERT), s, t, under, fuel, w) && Has(t, Cell(Not(d.top), d.rest), r) && Same(s, t)
  {
    assert s.log + [] == s.log;
    BaseWords.InPlace(INVERT, s, Not(d.top), s.log, under, w);
    t := Computed(INVERT, s, under, w);
  }

  // ---------------------------------------------------------------- words out of items

  lemma Nothing(s: State, under: nat, fuel: nat, w: World)
    requires s.r == []
    ensures Runs(End, s, s, under, fuel, w)
  {
  }

  /** One item, and then the rest of the word. */
  lemma Onward(first: Item, rest: Prog, s: State, t: State, u: State, under: nat, fuel: nat, w: World)
    requires Does(first, s, t, under, fuel, w) && Runs(rest, t, u, under, fuel, w) && (rest.Then? || !first.Call?)
    ensures Runs(Then(first, rest), s, u, under, fuel, w)
  {
  }

  lemma Along(first: Item, rest: Prog, s: State, t: State, u: State, under: nat, fuel: nat, w: World)
    requires Does(first, s, t, under, fuel, w) && Passes(rest, t, u, under, fuel, w)
    ensures Passes(Then(first, rest), s, u, under, fuel, w)
  {
  }

  lemma Pair(a: Item, b: Item, s: State, t: State, u: State, under: nat, fuel: nat, w: World)
    requires Does(a, s, t, under, fuel, w) && Does(b, t, u, under, fuel, w) && !b.Call? && u.r == []
    ensures Runs(Two(a, b), s, u, under, fuel, w)
  {
    Nothing(u, under, fuel, w);
    Onward(b, End, t, u, u, under, fuel, w);
    Onward(a, One(b), s, t, u, under, fuel, w);
  }

  /** A call in the middle of a word. */
  lemma Called(k: nat, s: State, t: State, d: Cells, r: seq<Word>, under: nat, fuel: nat, w: World) returns (u: State)
    requires k < |w.defs| && s.r == r && fuel > 0 && under + |r| < STACK_CELLS
    requires Runs(w.defs[k], s.(r := []), t, under + |r| + 1, fuel - 1, w) && Has(t, d, []) && Same(s, t)
    ensures Does(Call(k), s, u, under, fuel, w) && Has(u, d, r) && Same(s, u)
  {
    u := t.(r := r);
  }

  /** Return cells under a word that is called at the end of another. */
  function Beneath(under: nat, w: World): nat {
    if w.jumps then under else under + 1
  }

  lemma CalledLast(k: nat, s: State, t: State, under: nat, fuel: nat, w: World)
    requires k < |w.defs| && s.r == [] && t.r == [] && fuel > 0 && under < STACK_CELLS
    requires Runs(w.defs[k], s, t, Beneath(under, w), fuel - 1, w)
    ensures Runs(One(Call(k)), s, t, under, fuel, w)
  {
    assert s.(r := []) == s && t.(r := s.r) == t;
    if !w.jumps {
      assert Does(Call(k), s, t, under, fuel, w);
      Nothing(t, under, fuel, w);
    }
  }

  ghost predicate Knows(w: World) {
    |NUC| <= |w.defs| && forall k :: 0 <= k < |NUC| ==> w.defs[k] == NUC[k]
  }

  // ---------------------------------------------------------------- what a word leaves

  ghost predicate Returns(k: nat, e: Cells, s: State, under: nat, fuel: nat, w: World)
    requires k < |w.defs|
  {
    exists t :: Runs(w.defs[k], s, t, under, fuel, w) && Has(t, e, []) && Same(s, t)
  }

  /**
   From stacks with d on top the word returns with e there and memory as it was; it needs this many return cells, and
   calls go that deep.
   */
  ghost predicate Leaves(k: nat, d: Cells, e: Cells, cells: nat, deep: nat, w: World)
    requires k < |w.defs|
  {
    forall s: State, under: nat, fuel: nat ::
      Has(s, d, []) && under + cells <= STACK_CELLS && deep <= fuel ==> Returns(k, e, s, under, fuel, w)
  }

  lemma Do(k: nat, s: State, d: Cells, e: Cells, r: seq<Word>, cells: nat, deep: nat, under: nat, fuel: nat, w: World)
    returns (u: State)
    requires k < |w.defs| && Leaves(k, d, e, cells, deep, w) && Has(s, d, r)
    requires under + |r| + 1 + cells <= STACK_CELLS && deep < fuel
    ensures Does(Call(k), s, u, under, fuel, w) && Has(u, e, r) && Same(s, u)
  {
    assert Has(s.(r := []), d, []);
    assert Returns(k, e, s.(r := []), under + |r| + 1, fuel - 1, w);
    var t :| Runs(w.defs[k], s.(r := []), t, under + |r| + 1, fuel - 1, w) && Has(t, e, []) && Same(s, t);
    u := Called(k, s, t, e, r, under, fuel, w);
  }

  lemma DoLast(k: nat, s: State, d: Cells, e: Cells, cells: nat, deep: nat, under: nat, fuel: nat, w: World)
    returns (t: State)
    requires k < |w.defs| && Leaves(k, d, e, cells, deep, w) && Has(s, d, [])
    requires under + 1 + cells <= STACK_CELLS && deep < fuel
    ensures Runs(One(Call(k)), s, t, under, fuel, w) && Has(t, e, []) && Same(s, t)
  {
    assert Returns(k, e, s, Beneath(under, w), fuel - 1, w);
    t :| Runs(w.defs[k], s, t, Beneath(under, w), fuel - 1, w) && Has(t, e, []) && Same(s, t);
    CalledLast(k, s, t, under, fuel, w);
  }

  // ---------------------------------------------------------------- small words

  /** A word of two items, the second of which is no call. */
  lemma LeavesPair(k: nat, a: Item, b: Item, e: Cells, s: State, t: State, u: State, under: nat, fuel: nat, w: World)
    requires Knows(w) && k < |NUC| && NUC[k] == Two(a, b) && !b.Call?
    requires Does(a, s, t, under, fuel, w) && Does(b, t, u, under, fuel, w) && Has(u, e, []) && Same(s, u)
    ensures Returns(k, e, s, under, fuel, w)
  {
    Pair(a, b, s, t, u, under, fuel, w);
    assert Runs(w.defs[k], s, u, under, fuel, w);
  }

  lemma OnePlusLeaves(a: Word, v: Cells, w: World)
    requires Knows(w) && Len(v) < STACK_CELLS
    ensures Leaves(ONE_PLUS, Cell(a, v), Cell(Wrap(a + 1), v), 0, 0, w)
  {
    var d, e := Cell(a, v), Cell(Wrap(a + 1), v);
    forall s: State, under: nat, fuel: nat | Has(s, d, []) && under <= STACK_CELLS
      ensures Returns(ONE_PLUS, e, s, under, fuel, w)
    {
      var t := Literal(1, s, d, [], under, fuel, w);
      var u := Binary(PLUS, t, Cell(1, d), [], Wrap(a + 1), under, fuel, w);
      LeavesPair(ONE_PLUS, Lit(1), Alu(PLUS), e, s, t, u, under, fuel, w);
    }
  }

  lemma TwiceLeaves(a: Word, v: Cells, w: World)
    requires Knows(w) && Len(v) < STACK_CELLS
    ensures Leaves(TWICE, Cell(a, v), Cell(Wrap(2 * a), v), 0, 0, w)
  {
    var d, e := Cell(a, v), Cell(Wrap(2 * a), v);
    forall s: State, under: nat, fuel: nat | Has(s, d, []) && under <= STACK_CELLS
      ensures Returns(TWICE, e, s, under, fuel, w)
    {
      var t := Literal(1, s, d, [], under, fuel, w);
      assert Pow2(1 % 16) == 2 * Pow2(0);
      var u := Binary(LSHIFT, t, Cell(1, d), [], Wrap(2 * a), under, fuel, w);
      LeavesPair(TWICE, Lit(1), Alu(LSHIFT), e, s, t, u, under, fuel, w);
    }
  }

  /** 0< */
  lemma NegativeLeaves(a: Word, v: Cells, w: World)
    requires Knows(w) && Len(v) < STACK_CELLS
    ensures Leaves(NEGATIVE, Cell(a, v), Cell(Flag(a >= 0x8000), v), 0, 0, w)
  {
    var d, e := Cell(a, v), Cell(Flag(a >= 0x8000), v);
    forall s: State, under: nat, fuel: nat | Has(s, d, []) && under <= STACK_CELLS
      ensures Returns(NEGATIVE, e, s, under, fuel, w)
    {
      var t := Literal(0, s, d, [], under, fuel, w);
      var u := Binary(LESS, t, Cell(0, d), [], Flag(a >= 0x8000), under, fuel, w);
      LeavesPair(NEGATIVE, Lit(0), Alu(LESS), e, s, t, u, under, fuel, w);
    }
  }

  /** >= */
  lemma AtLeastLeaves(a: Word, b: Word, v: Cells, w: World)
    requires Knows(w)
    ensures Leaves(AT_LEAST, Cell(b, Cell(a, v)), Cell(Flag(Signed(a) >= Signed(b)), v), 0, 0, w)
  {
    var d, f, e := Cell(b, Cell(a, v)), Flag(Signed(a) < Signed(b)), Cell(Flag(Signed(a) >= Signed(b)), v);
    forall s: State, under: nat, fuel: nat | Has(s, d, []) && under <= STACK_CELLS
      ensures Returns(AT_LEAST, e, s, under, fuel, w)
    {
      var t := Binary(LESS, s, d, [], f, under, fuel, w);
      var u := Inverted(t, Cell(f, v), [], under, fuel, w);
      LeavesPair(AT_LEAST, Alu(LESS), Alu(INVERT), e, s, t, u, under, fuel, w);
    }
  }

  lemma TuckLeaves(a: Word, b: Word, v: Cells, w: World)
    requires Knows(w) && Len(v) + 3 <= STACK_CELLS + 1
    ensures Leaves(TUCK, Cell(b, Cell(a, v)), Cell(b, Cell(a, Cell(b, v))), 0, 0, w)
  {
    var d, e := Cell(b, Cell(a, v)), Cell(b, Cell(a, Cell(b, v)));
    forall s: State, under: nat, fuel: nat | Has(s, d, []) && under <= STACK_CELLS
      ensures Returns(TUCK, e, s, under, fuel, w)
    {
      var t := Swap(s, d, [], under, fuel, w);
      var u := Over(t, Cell(a, Cell(b, v)), [], under, fuel, w);
      LeavesPair(TUCK, Alu(SWAP), Alu(OVER), e, s, t, u, under, fuel, w);
    }
  }

  lemma TwoDupLeaves(a: Word, b: Word, v: Cells, w: World)
    requires Knows(w) && Len(v) + 4 <= STACK_CELLS + 1
    ensures Leaves(TWO_DUP, Cell(b, Cell(a, v)), Cell(b, Cell(a, Cell(b, Cell(a, v)))), 0, 0, w)
  {
    var d, e := Cell(b, Cell(a, v)), Cell(b, Cell(a, Cell(b, Cell(a, v))));
    forall s: State, under: nat, fuel: nat | Has(s, d, []) && under <= STACK_CELLS
      ensures Returns(TWO_DUP, e, s, under, fuel, w)
    {
      var t := Over(s, d, [], under, fuel, w);
      var u := Over(t, Cell(a, d), [], under, fuel, w);
      LeavesPair(TWO_DUP, Alu(OVER), Alu(OVER), e, s, t, u, under, fuel, w);
    }
  }

  /** A word of four operations. */
  lemma RunsFour(a: AluOp, b: AluOp, c: AluOp, d: AluOp, s: State, t: State, u: State, x: State, y: State,
                 under: nat, fuel: nat, w: World)
    requires Does(Alu(a), s, t, under, fuel, w) && Does(Alu(b), t, u, under, fuel, w)
    requires Does(Alu(c), u, x, under, fuel, w) && Does(Alu(d), x, y, under, fuel, w) && y.r == []
    ensures Runs(Four(Alu(a), Alu(b), Alu(c), Alu(d)), s, y, under, fuel, w)
  {
    Pair(Alu(c), Alu(d), u, x, y, under, fuel, w);
    Onward(Alu(b), Two(Alu(c), Alu(d)), t, u, y, under, fuel, w);
    Onward(Alu(a), Then(Alu(b), Two(Alu(c), Alu(d))), s, t, y, under, fuel, w);
  }

  lemma RotRuns(s: State, a: Word, b: Word, c: Word, v: Cells, under: nat, fuel: nat, w: World) returns (y: State)
    requires Len(v) + 3 <= STACK_CELLS + 1 && under + 1 <= STACK_CELLS && Has(s, Cell(c, Cell(b, Cell(a, v))), [])
    ensures Runs(Four(Alu(TO_R), Alu(SWAP), Alu(R_FROM), Alu(SWAP)), s, y, under, fuel, w)
    ensures Has(y, Cell(a, Cell(c, Cell(b, v))), []) && Same(s, y)
  {
    var t := ToR(s, Cell(c, Cell(b, Cell(a, v))), under, fuel, w);
    var u := Swap(t, Cell(b, Cell(a, v)), [c], under, fuel, w);
    var x := FromR(u, Cell(a, Cell(b, v)), c, under, fuel, w);
    y := Swap(x, Cell(c, Cell(a, Cell(b, v))), [], under, fuel, w);
    RunsFour(TO_R, SWAP, R_FROM, SWAP, s, t, u, x, y, under, fuel, w);
  }

  /** rot brings the third cell to the top. */
  lemma RotLeaves(a: Word, b: Word, c: Word, v: Cells, w: World)
    requires Knows(w) && Len(v) + 3 <= STACK_CELLS + 1
    ensures Leaves(ROT, Cell(c, Cell(b, Cell(a, v))), Cell(a, Cell(c, Cell(b, v))), 1, 0, w)
  {
    forall s: State, under: nat, fuel: nat | Has(s, Cell(c, Cell(b, Cell(a, v))), []) && under + 1 <= STACK_CELLS
      ensures Returns(ROT, Cell(a, Cell(c, Cell(b, v))), s, under, fuel, w)
    {
      var y := RotRuns(s, a, b, c, v, under, fuel, w);
      assert Runs(w.defs[ROT], s, y, under, fuel, w);
    }
  }

  lemma MinusRotRuns(s: State, a: Word, b: Word, c: Word, v: Cells, under: nat, fuel: nat, w: World) returns (y: State)
    requires Len(v) + 3 <= STACK_CELLS + 1 && under + 1 <= STACK_CELLS && Has(s, Cell(c, Cell(b, Cell(a, v))), [])
    ensures Runs(Four(Alu(SWAP), Alu(TO_R), Alu(SWAP), Alu(R_FROM)), s, y, under, fuel, w)
    ensures Has(y, Cell(b, Cell(a, Cell(c, v))), []) && Same(s, y)
  {
    assert Len(Cell(b, Cell(a, v))) == 2 + Len(v);
    var t := Swap(s, Cell(c, Cell(b, Cell(a, v))), [], under, fuel, w);
    var u := ToR(t, Cell(b, Cell(c, Cell(a, v))), under, fuel, w);
    var x := Swap(u, Cell(c, Cell(a, v)), [b], under, fuel, w);
    y := FromR(x, Cell(a, Cell(c, v)), b, under, fuel, w);
    RunsFour(SWAP, TO_R, SWAP, R_FROM, s, t, u, x, y, under, fuel, w);
  }

  /** -rot puts the top cell third. */
  lemma MinusRotLeaves(a: Word, b: Word, c: Word, v: Cells, w: World)
    requires Knows(w) && Len(v) + 3 <= STACK_CELLS + 1
    ensures Leaves(MINUS_ROT, Cell(c, Cell(b, Cell(a, v))), Cell(b, Cell(a, Cell(c, v))), 1, 0, w)
  {
    forall s: State, under: nat, fuel: nat | Has(s, Cell(c, Cell(b, Cell(a, v))), []) && under + 1 <= STACK_CELLS
      ensures Returns(MINUS_ROT, Cell(b, Cell(a, Cell(c, v))), s, under, fuel, w)
    {
      var y := MinusRotRuns(s, a, b, c, v, under, fuel, w);
      assert Runs(w.defs[MINUS_ROT], s, y, under, fuel, w);
    }
  }

  lemma NegateLeaves(a: Word, v: Cells, w: World)
    requires Knows(w) && Len(v) < STACK_CELLS
    ensures Leaves(NEGATE, Cell(a, v), Cell(Wrap(0x1_0000 - a), v), 1, 1, w)
  {
    var d, n, e := Cell(a, v), Cell(Not(a), v), Cell(Wrap(0x1_0000 - a), v);
    OnePlusLeaves(Not(a), v, w);
    assert Wrap(Not(a) + 1) == Wrap(0x1_0000 - a);
    forall s: State, under: nat, fuel: nat | Has(s, d, []) && under + 1 <= STACK_CELLS && 1 <= fuel
      ensures Returns(NEGATE, e, s, under, fuel, w)
    {
      var t := Inverted(s, d, [], under, fuel, w);
      var u := DoLast(ONE_PLUS, t, n, e, 0, 0, under, fuel, w);
      Onward(Alu(INVERT), One(Call(ONE_PLUS)), s, t, u, under, fuel, w);
      assert Runs(w.defs[NEGATE], s, u, under, fuel, w);
    }
  }

  lemma MinusLeaves(a: Word, b: Word, v: Cells, w: World)
    requires Knows(w) && Len(v) + 2 <= STACK_CELLS
    ensures Leaves(MINUS, Cell(b, Cell(a, v)), Cell(Wrap(a - b), v), 2, 2, w)
  {
    var d, n, e := Cell(b, Cell(a, v)), Cell(Wrap(0x1_0000 - b), Cell(a, v)), Cell(Wrap(a - b), v);
    NegateLeaves(b, Cell(a, v), w);
    assert Wrap(Wrap(0x1_0000 - b) + a) == Wrap(a - b);
    forall s: State, under: nat, fuel: nat | Has(s, d, []) && under + 2 <= STACK_CELLS && 2 <= fuel
      ensures Returns(MINUS, e, s, under, fuel, w)
    {
      var t := Do(NEGATE, s, d, n, [], 1, 1, under, fuel, w);
      var u := Binary(PLUS, t, n, [], Wrap(a - b), under, fuel, w);
      LeavesPair(MINUS, Call(NEGATE), Alu(PLUS), e, s, t, u, under, fuel, w);
    }
  }

  // ---------------------------------------------------------------- divstep

  lemma PassesTwo(a: Item, b: Item, rest: Prog, s: State, t: State, u: State, x: State, under: nat, fuel: nat, w: World)
    requires Does(a, s, t, under, fuel, w) && Does(b, t, u, under, fuel, w) && Passes(rest, u, x, under, fuel, w)
    ensures Passes(Then(a, Then(b, rest)), s, x, under, fuel, w)
  {
    Along(b, rest, t, u, x, under, fuel, w);
    Along(a, Then(b, rest), s, t, x, under, fuel, w);
  }

  /** `swap rot 1+ rot` of the branch that subtracts. */
  lemma SubtractEnd(s: State, high: Word, low: Word, divisor: Word, v: Cells, under: nat, fuel: nat, w: World)
    returns (t: State)
    requires Knows(w) && Len(v) + 5 <= STACK_CELLS + 1 && under + 2 <= STACK_CELLS && 0 < fuel
    requires Has(s, Cell(high, Cell(divisor, Cell(low, v))), [])
    ensures Passes(Then(Alu(SWAP), Then(Call(ROT), Two(Call(ONE_PLUS), Call(ROT)))), s, t, under, fuel, w)
    ensures Has(t, Cell(high, Cell(Wrap(low + 1), Cell(divisor, v))), []) && Same(s, t)
  {
    var b, c, d := Cell(divisor, Cell(high, Cell(low, v))), Cell(low, Cell(divisor, Cell(high, v))), Cell(divisor, Cell(high, v));
    RotLeaves(low, high, divisor, v, w);
    OnePlusLeaves(low, d, w);
    RotLeaves(high, divisor, Wrap(low + 1), v, w);
    assert Len(b.rest) == 2 + Len(v);
    var x := Swap(s, Cell(high, Cell(divisor, Cell(low, v))), [], under, fuel, w);
    var y := Do(ROT, x, b, c, [], 1, 0, under, fuel, w);
    var z := Do(ONE_PLUS, y, c, Cell(Wrap(low + 1), d), [], 0, 0, under, fuel, w);
    t := Do(ROT, z, Cell(Wrap(low + 1), d), Cell(high, Cell(Wrap(low + 1), Cell(divisor, v))), [], 1, 0, under, fuel, w);
    PassesTwo(Call(ONE_PLUS), Call(ROT), End, y, z, t, t, under, fuel, w);
    PassesTwo(Alu(SWAP), Call(ROT), Two(Call(ONE_PLUS), Call(ROT)), s, x, y, t, under, fuel, w);
  }

  lemma Subtracts(s: State, high: Word, low: Word, divisor: Word, v: Cells, under: nat, fuel: nat, w: World)
    returns (t: State)
    requires Knows(w) && Len(v) + 5 <= STACK_CELLS + 1 && under + 3 <= STACK_CELLS && 2 < fuel
    requires Has(s, Cell(divisor, Cell(high, Cell(low, v))), [])
    ensures Passes(SUBTRACT, s, t, under, fuel, w)
    ensures Has(t, Cell(Wrap(high - divisor), Cell(Wrap(low + 1), Cell(divisor, v))), []) && Same(s, t)
  {
    var a, b := Cell(divisor, Cell(high, Cell(low, v))), Cell(divisor, Cell(low, v));
    TuckLeaves(high, divisor, Cell(low, v), w);
    MinusLeaves(high, divisor, b, w);
    var x := Do(TUCK, s, a, Cell(divisor, Cell(high, b)), [], 0, 0, under, fuel, w);
    var y := Do(MINUS, x, Cell(divisor, Cell(high, b)), Cell(Wrap(high - divisor), b), [], 2, 2, under, fuel, w);
    t := SubtractEnd(y, Wrap(high - divisor), low, divisor, v, under, fuel, w);
    PassesTwo(Call(TUCK), Call(MINUS), Then(Alu(SWAP), Then(Call(ROT), Two(Call(ONE_PLUS), Call(ROT)))), s, x, y, t,
              under, fuel, w);
  }

  lemma PutsBack(s: State, high: Word, low: Word, divisor: Word, v: Cells, under: nat, fuel: nat, w: World)
    returns (t: State)
    requires Knows(w) && Len(v) + 5 <= STACK_CELLS + 1 && under + 2 <= STACK_CELLS && 0 < fuel
    requires Has(s, Cell(divisor, Cell(high, Cell(low, v))), [])
    ensures Passes(One(Call(MINUS_ROT)), s, t, under, fuel, w)
    ensures Has(t, Cell(high, Cell(low, Cell(divisor, v))), []) && Same(s, t)
  {
    MinusRotLeaves(low, high, divisor, v, w);
    t := Do(MINUS_ROT, s, Cell(divisor, Cell(high, Cell(low, v))), Cell(high, Cell(low, Cell(divisor, v))), [], 1, 0,
            under, fuel, w);
    Along(Call(MINUS_ROT), End, s, t, t, under, fuel, w);
  }

  /** What is left of the cells when the divisor is not above the high one, as signed numbers, and when it is. */
  function Compared(high: Word, low: Word, divisor: Word, v: Cells): Cells {
    if Signed(high) >= Signed(divisor) then Cell(Wrap(high - divisor), Cell(Wrap(low + 1), Cell(divisor, v)))
    else Cell(high, Cell(low, Cell(divisor, v)))
  }

  lemma Branches(s: State, high: Word, low: Word, divisor: Word, v: Cells, under: nat, fuel: nat, w: World)
    returns (t: State)
    requires Knows(w) && Len(v) + 5 <= STACK_CELLS + 1 && under + 3 <= STACK_CELLS && 2 < fuel
    requires Has(s, Cell(Flag(Signed(high) >= Signed(divisor)), Cell(divisor, Cell(high, Cell(low, v)))), [])
    ensures Does(IfElse(SUBTRACT, One(Call(MINUS_ROT))), s, t, under, fuel, w)
    ensures Has(t, Compared(high, low, divisor, v), []) && Same(s, t)
  {
    var rest := Cell(divisor, Cell(high, Cell(low, v)));
    Uncovers(s, s.st0, rest, []);
    if Signed(high) >= Signed(divisor) {
      t := Subtracts(Popped(s), high, low, divisor, v, under, fuel, w);
    } else {
      t := PutsBack(Popped(s), high, low, divisor, v, under, fuel, w);
    }
  }

  lemma Uncovers(s: State, x: Word, rest: Cells, r: seq<Word>)
    requires Has(s, Cell(x, rest), r) && rest.Cell?
    ensures Has(Popped(s), rest, r) && Same(s, Popped(s))
  {
    OnTop(s.dstack, s.dsp, rest);
    OnPop(s.dstack, s.dsp, rest);
  }

  lemma Compares(s: State, high: Word, low: Word, divisor: Word, v: Cells, under: nat, fuel: nat, w: World)
    returns (t: State)
    requires Knows(w) && Len(v) + 5 <= STACK_CELLS + 1 && under + 3 <= STACK_CELLS && 2 < fuel
    requires Has(s, Cell(high, Cell(low, Cell(divisor, v))), [])
    ensures Runs(COMPARE, s, t, under, fuel, w) && Has(t, Compared(high, low, divisor, v), []) && Same(s, t)
  {
    var a, b := Cell(high, Cell(low, Cell(divisor, v))), Cell(divisor, Cell(high, Cell(low, v)));
    var f := Flag(Signed(high) >= Signed(divisor));
    RotLeaves(divisor, low, high, v, w);
    TwoDupLeaves(high, divisor, Cell(low, v), w);
    AtLeastLeaves(high, divisor, b, w);
    var x := Do(ROT, s, a, b, [], 1, 0, under, fuel, w);
    var y := Do(TWO_DUP, x, b, Cell(divisor, Cell(high, b)), [], 0, 0, under, fuel, w);
    var z := Do(AT_LEAST, y, Cell(divisor, Cell(high, b)), Cell(f, b), [], 0, 0, under, fuel, w);
    t := Branches(z, high, low, divisor, v, under, fuel, w);
    Pair(Call(AT_LEAST), IfElse(SUBTRACT, One(Call(MINUS_ROT))), y, z, t, under, fuel, w);
    Onward(Call(TWO_DUP), Two(Call(AT_LEAST), IfElse(SUBTRACT, One(Call(MINUS_ROT)))), x, y, t, under, fuel, w);
    Onward(Call(ROT), Then(Call(TWO_DUP), Two(Call(AT_LEAST), IfElse(SUBTRACT, One(Call(MINUS_ROT))))), s, x, t, under, fuel, w);
  }

  /** `swap 2* swap`, and on. */
  lemma Shifts(s: State, high: Word, dq: Word, low: Word, divisor: Word, v: Cells, under: nat, fuel: nat, w: World)
    returns (t: State)
    requires Knows(w) && Len(v) + 5 <= STACK_CELLS + 1 && under + 3 <= STACK_CELLS && 2 < fuel
    requires Has(s, Cell(high, Cell(dq, Cell(divisor, v))), []) && low == Wrap(2 * dq)
    ensures Runs(SHIFT, s, t, under, fuel, w) && Has(t, Compared(high, low, divisor, v), []) && Same(s, t)
  {
    var b := Cell(high, Cell(divisor, v));
    TwiceLeaves(dq, b, w);
    assert Len(b.rest) == 1 + Len(v);
    var x := Swap(s, Cell(high, Cell(dq, Cell(divisor, v))), [], under, fuel, w);
    var y := Do(TWICE, x, Cell(dq, b), Cell(low, b), [], 0, 0, under, fuel, w);
    var z := Swap(y, Cell(low, b), [], under, fuel, w);
    t := Compares(z, high, low, divisor, v, under, fuel, w);
    Onward(Alu(SWAP), COMPARE, y, z, t, under, fuel, w);
    Onward(Call(TWICE), Then(Alu(SWAP), COMPARE), x, y, t, under, fuel, w);
    Onward(Alu(SWAP), Then(Call(TWICE), Then(Alu(SWAP), COMPARE)), s, x, t, under, fuel, w);
  }

  /** `if 1+ then`: the bit shifted out of the lower cell comes in. */
  lemma BitComesIn(s: State, yes: bool, h: Word, high: Word, v: Cells, under: nat, fuel: nat, w: World) returns (t: State)
    requires Knows(w) && Len(v) < STACK_CELLS && under + 1 <= STACK_CELLS && 0 < fuel
    requires Has(s, Cell(Flag(yes), Cell(h, v)), []) && high == if yes then Wrap(h + 1) else h
    ensures Does(If(One(Call(ONE_PLUS))), s, t, under, fuel, w) && Has(t, Cell(high, v), []) && Same(s, t)
  {
    Uncovers(s, s.st0, Cell(h, v), []);
    if yes {
      OnePlusLeaves(h, v, w);
      t := Do(ONE_PLUS, Popped(s), Cell(h, v), Cell(high, v), [], 0, 0, under, fuel, w);
      Along(Call(ONE_PLUS), End, Popped(s), t, t, under, fuel, w);
    } else {
      t := Popped(s);
    }
  }

  lemma DivstepRuns(s: State, hi: Word, dq: Word, divisor: Word, high: Word, low: Word, v: Cells,
                    under: nat, fuel: nat, w: World) returns (t: State)
    requires Knows(w) && Len(v) + 5 <= STACK_CELLS + 1 && under + 3 <= STACK_CELLS && 2 < fuel
    requires Has(s, Cell(hi, Cell(dq, Cell(divisor, v))), []) && low == Wrap(2 * dq)
    requires high == if dq >= 0x8000 then Wrap(Wrap(2 * hi) + 1) else Wrap(2 * hi)
    ensures Runs(DIVSTEP_BODY, s, t, under, fuel, w) && Has(t, Compared(high, low, divisor, v), []) && Same(s, t)
  {
    var b, h := Cell(dq, Cell(divisor, v)), Wrap(2 * hi);
    assert Len(b.rest) == 1 + Len(v);
    TwiceLeaves(hi, b, w);
    NegativeLeaves(dq, Cell(h, b), w);
    var x := Do(TWICE, s, Cell(hi, b), Cell(h, b), [], 0, 0, under, fuel, w);
    var y := Over(x, Cell(h, b), [], under, fuel, w);
    var z := Do(NEGATIVE, y, Cell(dq, Cell(h, b)), Cell(Flag(dq >= 0x8000), Cell(h, b)), [], 0, 0, under, fuel, w);
    var q := BitComesIn(z, dq >= 0x8000, h, high, b, under, fuel, w);
    t := Shifts(q, high, dq, low, divisor, v, under, fuel, w);
    var bit := If(One(Call(ONE_PLUS)));
    Onward(bit, SHIFT, z, q, t, under, fuel, w);
    Onward(Call(NEGATIVE), Then(bit, SHIFT), y, z, t, under, fuel, w);
    Onward(Alu(OVER), Then(Call(NEGATIVE), Then(bit, SHIFT)), x, y, t, under, fuel, w);
    Onward(Call(TWICE), Then(Alu(OVER), Then(Call(NEGATIVE), Then(bit, SHIFT))), s, x, t, under, fuel, w);
  }

  lemma StepParts(hi: Word, dq: Word, divisor: Word, high: Word, low: Word)
    requires low == Wrap(2 * dq) && high == if dq >= 0x8000 then Wrap(Wrap(2 * hi) + 1) else Wrap(2 * hi)
    ensures Restoring(0x8000, divisor, Parts(dq, hi))
            == if Signed(high) >= Signed(divisor) then Parts(low + 1, Wrap(high - divisor)) else Parts(low, high)
    ensures low + 1 < 0x1_0000
  {
    WrapSum(dq, dq, 0);
    HighShifted(hi);
  }

  lemma HighShifted(hi: Word)
    ensures Wrap(2 * hi + 1) == Wrap(Wrap(2 * hi) + 1) && Wrap(2 * hi + 0) == Wrap(2 * hi)
  {
    WrapSum(hi, hi, 0);
    WrapSum(hi, hi, 1);
  }

  lemma DivstepReturns(hi: Word, dq: Word, divisor: Word, high: Word, low: Word, v: Cells, w: World)
    requires Knows(w) && Len(v) + 5 <= STACK_CELLS + 1 && low == Wrap(2 * dq)
    requires high == if dq >= 0x8000 then Wrap(Wrap(2 * hi) + 1) else Wrap(2 * hi)
    ensures Leaves(DIVSTEP, Cell(hi, Cell(dq, Cell(divisor, v))), Compared(high, low, divisor, v), 3, 3, w)
  {
    var d := Cell(hi, Cell(dq, Cell(divisor, v)));
    forall m: State, under: nat, fuel: nat | Has(m, d, []) && under + 3 <= STACK_CELLS && 3 <= fuel
      ensures Returns(DIVSTEP, Compared(high, low, divisor, v), m, under, fuel, w)
    {
      var t := DivstepRuns(m, hi, dq, divisor, high, low, v, under, fuel, w);
      assert Runs(w.defs[DIVSTEP], m, t, under, fuel, w);
    }
  }

  lemma ComparedParts(high: Word, low: Word, divisor: Word, p: Parts, v: Cells)
    requires p == if Signed(high) >= Signed(divisor) then Parts(low + 1, Wrap(high - divisor)) else Parts(low, high)
    requires low + 1 < 0x1_0000
    ensures p.low < 0x1_0000 && Compared(high, low, divisor, v) == Cell(p.high, Cell(p.low, Cell(divisor, v)))
  {
  }

  /** divstep is one step of the restoring division. */
  lemma DivstepLeaves(s: Parts, divisor: Word, v: Cells, w: World)
    requires Knows(w) && Len(v) + 5 <= STACK_CELLS + 1 && s.low < 0x1_0000
    ensures var p := Restoring(0x8000, divisor, s);
      && p.low < 0x1_0000
      && Leaves(DIVSTEP, Cell(s.high, Cell(s.low, Cell(divisor, v))), Cell(p.high, Cell(p.low, Cell(divisor, v))), 3, 3, w)
  {
    var h := Wrap(2 * s.high);
    var high, low := if s.low >= 0x8000 then Wrap(h + 1) else h, Wrap(2 * s.low);
    StepParts(s.high, s.low, divisor, high, low);
    ComparedParts(high, low, divisor, Restoring(0x8000, divisor, s), v);
    DivstepReturns(s.high, s.low, divisor, high, low, v, w);
  }

  // ---------------------------------------------------------------- um/mod

  /** So many steps one after the other, before the rest of the word. */
  lemma {:induction false} DivstepsRun(n: nat, rest: Prog, m: State, s: Parts, divisor: Word, v: Cells,
                                       under: nat, fuel: nat, w: World) returns (t: State)
    requires Knows(w) && Len(v) + 5 <= STACK_CELLS + 1 && s.low < 0x1_0000 && under + 4 <= STACK_CELLS && 3 < fuel
    requires Has(m, Cell(s.high, Cell(s.low, Cell(divisor, v))), []) && rest.Then?
    ensures var p := Steps(0x8000, n, divisor, s);
      p.low < 0x1_0000 && Has(t, Cell(p.high, Cell(p.low, Cell(divisor, v))), []) && Same(m, t)
    ensures ExecWord(Divsteps(n, rest), m, under, fuel, w) == ExecWord(rest, t, under, fuel, w)
    decreases n
  {
    if n == 0 {
      t := m;
    } else {
      var p := Restoring(0x8000, divisor, s);
      DivstepLeaves(s, divisor, v, w);
      var x := Do(DIVSTEP, m, Cell(s.high, Cell(s.low, Cell(divisor, v))), Cell(p.high, Cell(p.low, Cell(divisor, v))), [],
                  3, 3, under, fuel, w);
      t := DivstepsRun(n - 1, rest, x, p, divisor, v, under, fuel, w);
      assert Divsteps(n - 1, rest).Then?;
    }
  }

  /** `rot drop swap`: the divisor goes, and the quotient comes to the top. */
  lemma QuotientOnTop(s: State, high: Word, low: Word, divisor: Word, v: Cells, under: nat, fuel: nat, w: World)
    returns (t: State)
    requires Knows(w) && Len(v) + 5 <= STACK_CELLS + 1 && under + 2 <= STACK_CELLS && 0 < fuel
    requires Has(s, Cell(high, Cell(low, Cell(divisor, v))), [])
    ensures Runs(UM_MOD_END, s, t, under, fuel, w) && Has(t, Cell(low, Cell(high, v)), []) && Same(s, t)
  {
    var b := Cell(high, Cell(low, v));
    RotLeaves(divisor, low, high, v, w);
    assert Len(b.rest) == 1 + Len(v);
    var x := Do(ROT, s, Cell(high, Cell(low, Cell(divisor, v))), Cell(divisor, b), [], 1, 0, under, fuel, w);
    var y := DropTop(x, Cell(divisor, b), [], under, fuel, w);
    t := Swap(y, b, [], under, fuel, w);
    Pair(Alu(DROP), Alu(SWAP), x, y, t, under, fuel, w);
    Onward(Call(ROT), Two(Alu(DROP), Alu(SWAP)), s, x, t, under, fuel, w);
  }

  /** um/mod leaves the quotient on top of the remainder, as the sixteen steps compute them. */
  lemma UmModLeaves(lo: Word, hi: Word, divisor: Word, v: Cells, w: World)
    requires Knows(w) && Len(v) + 5 <= STACK_CELLS + 1
    ensures var p := UmModOf(lo, hi, divisor);
      p.low < 0x1_0000 && Leaves(UM_MOD, Cell(divisor, Cell(hi, Cell(lo, v))), Cell(p.low, Cell(p.high, v)), 4, 4, w)
  {
    var p := UmModOf(lo, hi, divisor);
    var d := Cell(divisor, Cell(hi, Cell(lo, v)));
    StepsLow(16, divisor, Parts(lo, hi));
    MinusRotLeaves(lo, hi, divisor, v, w);
    forall s: State, under: nat, fuel: nat | Has(s, d, []) && under + 4 <= STACK_CELLS && 4 <= fuel
      ensures Returns(UM_MOD, Cell(p.low, Cell(p.high, v)), s, under, fuel, w)
    {
      var x := Do(MINUS_ROT, s, d, Cell(hi, Cell(lo, Cell(divisor, v))), [], 1, 0, under, fuel, w);
      var y := DivstepsRun(16, UM_MOD_END, x, Parts(lo, hi), divisor, v, under, fuel, w);
      var t := QuotientOnTop(y, p.high, p.low, divisor, v, under, fuel, w);
      Onward(Call(MINUS_ROT), Divsteps(16, UM_MOD_END), s, x, t, under, fuel, w);
      assert Runs(w.defs[UM_MOD], s, t, under, fuel, w);
    }
  }

  lemma {:induction false} StepsLow(n: nat, divisor: Word, s: Parts)
    requires s.low < 0x1_0000
    ensures Steps(0x8000, n, divisor, s).low < 0x1_0000
    decreases n
  {
    if n > 0 {
      StepsLow(n - 1, divisor, Restoring(0x8000, divisor, s));
    }
  }

  // ---------------------------------------------------------------- d+

  /** `if r> 1+ else r> then` */
  lemma CarryBranches(s: State, yes: bool, h: Word, sum: Word, high: Word, v: Cells, under: nat, fuel: nat, w: World)
    returns (t: State)
    requires Knows(w) && Len(v) + 3 <= STACK_CELLS && under + 2 <= STACK_CELLS && 0 < fuel
    requires Has(s, Cell(Flag(yes), Cell(sum, v)), [h]) && high == if yes then Wrap(h + 1) else h
    ensures Does(IfElse(Two(Alu(R_FROM), Call(ONE_PLUS)), One(Alu(R_FROM))), s, t, under, fuel, w)
    ensures Has(t, Cell(high, Cell(sum, v)), []) && Same(s, t)
  {
    Uncovers(s, s.st0, Cell(sum, v), [h]);
    var x := FromR(Popped(s), Cell(sum, v), h, under, fuel, w);
    if yes {
      OnePlusLeaves(h, Cell(sum, v), w);
      t := Do(ONE_PLUS, x, Cell(h, Cell(sum, v)), Cell(high, Cell(sum, v)), [], 0, 0, under, fuel, w);
      PassesTwo(Alu(R_FROM), Call(ONE_PLUS), End, Popped(s), x, t, t, under, fuel, w);
    } else {
      t := x;
      Along(Alu(R_FROM), End, Popped(s), t, t, under, fuel, w);
    }
  }

  /** `dup rot u<`, and the branches: the carry is there if the sum is below the augend. */
  lemma Carries(s: State, sum: Word, augend: Word, h: Word, high: Word, v: Cells, under: nat, fuel: nat, w: World)
    returns (t: State)
    requires Knows(w) && Len(v) + 4 <= STACK_CELLS && under + 3 <= STACK_CELLS && 0 < fuel
    requires Has(s, Cell(sum, Cell(augend, v)), [h]) && high == if sum < augend then Wrap(h + 1) else h
    ensures Runs(CARRY, s, t, under, fuel, w) && Has(t, Cell(high, Cell(sum, v)), []) && Same(s, t)
  {
    var b, f := Cell(sum, v), Flag(sum < augend);
    RotLeaves(augend, sum, sum, v, w);
    var x := Dup(s, Cell(sum, Cell(augend, v)), [h], under, fuel, w);
    var y := Do(ROT, x, Cell(sum, Cell(sum, Cell(augend, v))), Cell(augend, Cell(sum, b)), [h], 1, 0, under, fuel, w);
    var z := Binary(U_LESS, y, Cell(augend, Cell(sum, b)), [h], f, under, fuel, w);
    t := CarryBranches(z, sum < augend, h, sum, high, v, under, fuel, w);
    var branch := IfElse(Two(Alu(R_FROM), Call(ONE_PLUS)), One(Alu(R_FROM)));
    Pair(Alu(U_LESS), branch, y, z, t, under, fuel, w);
    Onward(Call(ROT), Two(Alu(U_LESS), branch), x, y, t, under, fuel, w);
    Onward(Alu(DUP), Then(Call(ROT), Two(Alu(U_LESS), branch)), s, x, t, under, fuel, w);
  }

  /** `rot + >r` */
  lemma HighPart(s: State, alo: Word, ahi: Word, blo: Word, bhi: Word, v: Cells, under: nat, fuel: nat, w: World)
    returns (x: State, y: State, z: State)
    requires Knows(w) && Len(v) + 5 <= STACK_CELLS && under + 3 <= STACK_CELLS && 0 < fuel
    requires Has(s, Cell(bhi, Cell(blo, Cell(ahi, Cell(alo, v)))), [])
    ensures Does(Call(ROT), s, x, under, fuel, w) && Does(Alu(PLUS), x, y, under, fuel, w)
    ensures Does(Alu(TO_R), y, z, under, fuel, w)
    ensures Has(z, Cell(blo, Cell(alo, v)), [Wrap(bhi + ahi)]) && Same(s, z)
  {
    var b := Cell(blo, Cell(alo, v));
    RotLeaves(ahi, blo, bhi, Cell(alo, v), w);
    x := Do(ROT, s, Cell(bhi, Cell(blo, Cell(ahi, Cell(alo, v)))), Cell(ahi, Cell(bhi, b)), [], 1, 0, under, fuel, w);
    y := Binary(PLUS, x, Cell(ahi, Cell(bhi, b)), [], Wrap(bhi + ahi), under, fuel, w);
    z := ToR(y, Cell(Wrap(bhi + ahi), b), under, fuel, w);
  }

  /** `over +`, and what depends on the sum. */
  lemma LowPart(s: State, alo: Word, blo: Word, h: Word, low: Word, high: Word, v: Cells, under: nat, fuel: nat, w: World)
    returns (t: State)
    requires Knows(w) && Len(v) + 5 <= STACK_CELLS && under + 3 <= STACK_CELLS && 0 < fuel
    requires Has(s, Cell(blo, Cell(alo, v)), [h]) && low == Wrap(alo + blo) && high == if low < alo then Wrap(h + 1) else h
    ensures Runs(Then(Alu(OVER), Then(Alu(PLUS), CARRY)), s, t, under, fuel, w)
    ensures Has(t, Cell(high, Cell(low, v)), []) && Same(s, t)
  {
    var p := Over(s, Cell(blo, Cell(alo, v)), [h], under, fuel, w);
    var q := Binary(PLUS, p, Cell(alo, Cell(blo, Cell(alo, v))), [h], low, under, fuel, w);
    t := Carries(q, low, alo, h, high, v, under, fuel, w);
    Onward(Alu(PLUS), CARRY, p, q, t, under, fuel, w);
    Onward(Alu(OVER), Then(Alu(PLUS), CARRY), s, p, t, under, fuel, w);
  }

  lemma DPlusRuns(s: State, alo: Word, ahi: Word, blo: Word, bhi: Word, low: Word, high: Word, v: Cells,
                  under: nat, fuel: nat, w: World) returns (t: State)
    requires Knows(w) && Len(v) + 5 <= STACK_CELLS && under + 3 <= STACK_CELLS && 0 < fuel
    requires Has(s, Cell(bhi, Cell(blo, Cell(ahi, Cell(alo, v)))), []) && low == Wrap(alo + blo)
    requires high == if low < alo then Wrap(Wrap(bhi + ahi) + 1) else Wrap(bhi + ahi)
    ensures Runs(NUC[D_PLUS], s, t, under, fuel, w) && Has(t, Cell(high, Cell(low, v)), []) && Same(s, t)
  {
    var x, y, z := HighPart(s, alo, ahi, blo, bhi, v, under, fuel, w);
    t := LowPart(z, alo, blo, Wrap(bhi + ahi), low, high, v, under, fuel, w);
    Onward(Alu(TO_R), Then(Alu(OVER), Then(Alu(PLUS), CARRY)), y, z, t, under, fuel, w);
    Onward(Alu(PLUS), Then(Alu(TO_R), Then(Alu(OVER), Then(Alu(PLUS), CARRY))), x, y, t, under, fuel, w);
    Onward(Call(ROT), Then(Alu(PLUS), Then(Alu(TO_R), Then(Alu(OVER), Then(Alu(PLUS), CARRY)))), s, x, t, under, fuel, w);
  }

  /** d+ leaves the sum of two double cells, without the carry out of the upper ones. */
  lemma DPlusLeaves(alo: Word, ahi: Word, blo: Word, bhi: Word, v: Cells, w: World) returns (low: Word, high: Word)
    requires Knows(w) && Len(v) + 5 <= STACK_CELLS
    ensures Double(low, high) == (Double(alo, ahi) + Double(blo, bhi)) % 0x1_0000_0000
    ensures Leaves(D_PLUS, Cell(bhi, Cell(blo, Cell(ahi, Cell(alo, v)))), Cell(high, Cell(low, v)), 3, 1, w)
  {
    var d := Cell(bhi, Cell(blo, Cell(ahi, Cell(alo, v))));
    low := Wrap(alo + blo);
    high := if low < alo then Wrap(Wrap(bhi + ahi) + 1) else Wrap(bhi + ahi);
    CarryAdds(alo, ahi, blo, bhi, low, high);
    var e := Cell(high, Cell(low, v));
    forall s: State, under: nat, fuel: nat | Has(s, d, []) && under + 3 <= STACK_CELLS && 1 <= fuel
      ensures Returns(D_PLUS, e, s, under, fuel, w)
    {
      var t := DPlusRuns(s, alo, ahi, blo, bhi, low, high, v, under, fuel, w);
      assert Runs(w.defs[D_PLUS], s, t, under, fuel, w);
    }
  }

  lemma CarryAdds(alo: Word, ahi: Word, blo: Word, bhi: Word, low: Word, high: Word)
    requires low == Wrap(alo + blo)
    requires high == if low < alo then Wrap(Wrap(bhi + ahi) + 1) else Wrap(bhi + ahi)
    ensures Double(low, high) == (Double(alo, ahi) + Double(blo, bhi)) % 0x1_0000_0000
  {
    WrapSum(alo, blo, 0);
    WrapSum(bhi, ahi, 0);
    WrapSum(Wrap(bhi + ahi), 0, 1);
    DoubleMod(Double(alo, ahi) + Double(blo, bhi));
  }
}
