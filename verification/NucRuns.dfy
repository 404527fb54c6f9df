/**
 Words of nuc.fs from their definitions to the processor: compiled by the cross-compiler, and run.
 */
module NucRuns {
  import opened Words
  import opened J1
  import opened Forth
  import opened CodeGen
  import opened Correctness
  import opened CrossJ1
  import opened Toolchain
  import opened Stacks
  import opened Division
  import opened NucWords
  import opened Primitives

  /** A compiler that has been given the definitions, and later ones, and a processor with its memory that calls word k. */
  ghost predicate Calls(c: Compiler, k: nat, m: Machine, s: State, below: seq<Word>, w: World)
    reads c, c.tflash, c.labels
  {
    && c.Valid() && w.defs == c.defs && w.jumps == c.folding && InCode(c.tdp, w) && Knows(w) && k < |NUC|
    && |c.dict| == |c.defs| && Rel(m, s, below, ImageOf(c.Laid(), c.dict), w) && |below| > 0 && m.pc == c.dict[k]
  }

  /** The data stack of the processor holds at least these cells. */
  ghost predicate Top(m: Machine, d: Cells)
    requires m.Valid()
  {
    d.Cell? && m.st0 == d.top && On(m.dstack, m.dsp, d.rest)
  }

  /** Back at the caller, with e for d, and with memory and bus as they were. */
  ghost predicate Answers(m: Machine, n: Machine, e: Cells, below: seq<Word>, w: World)
    requires |below| > 0
  {
    && Goes(m, n, w.bus) && n.pc == Target(below[0] / 2) && View(n.rstack, n.rsp, below[1..])
    && Top(n, e) && n.log == m.log && |m.ram| == |n.ram| == RAM_WORDS
    && forall a :: 0 <= a < RAM_WORDS && a !in w.code ==> n.ram[a] == m.ram[a]
  }

  lemma Answered(c: Compiler, k: nat, m: Machine, s: State, t: State, n: Machine, e: Cells, below: seq<Word>, w: World)
    requires Calls(c, k, m, s, below, w) && Same(s, t) && Has(t, e, []) && Goes(m, n, w.bus)
    requires SameData(n, t, ImageOf(c.Laid(), c.dict), w)
    requires n.pc == Target(below[0] / 2) && View(n.rstack, n.rsp, below[1..])
    ensures Answers(m, n, e, below, w)
  {
  }

  /** A word that is known to leave e for d does so on the processor. */
  lemma WordAnswers(c: Compiler, k: nat, m: Machine, s: State, d: Cells, e: Cells, cells: nat, deep: nat,
                    below: seq<Word>, w: World) returns (n: Machine)
    requires Calls(c, k, m, s, below, w) && Leaves(k, d, e, cells, deep, w)
    requires Has(s, d, []) && |below| + cells <= STACK_CELLS
    ensures Answers(m, n, e, below, w)
  {
    assert Returns(k, e, s, |below|, deep, w);
    var t :| Runs(w.defs[k], s, t, |below|, deep, w) && Has(t, e, []) && Same(s, t);
    n := CompilerOutputRuns(c, k, m, s, below, deep, w);
    Answered(c, k, m, s, t, n, e, below, w);
  }

  /**
   um/mod on the processor: sixteen compiled divsteps leave the quotient on top of the remainder, exactly for divisors
   up to 16384, and touch nothing else.
   */
  lemma DividesOnProcessor(c: Compiler, m: Machine, s: State, lo: Word, hi: Word, divisor: Word, v: Cells,
                           below: seq<Word>, w: World) returns (n: Machine, quotient: Word, remainder: Word)
    requires Calls(c, UM_MOD, m, s, below, w) && Has(s, Cell(divisor, Cell(hi, Cell(lo, v))), [])
    requires Len(v) + 5 <= STACK_CELLS + 1 && |below| + 4 <= STACK_CELLS
    ensures Answers(m, n, Cell(quotient, Cell(remainder, v)), below, w)
    ensures hi < divisor <= 16384 ==> quotient * divisor + remainder == 0x1_0000 * hi + lo && remainder < divisor
  {
    UmModLeaves(lo, hi, divisor, v, w);
    var p := UmModOf(lo, hi, divisor);
    quotient, remainder := p.low, p.high;
    if hi < divisor <= 16384 {
      UmModExact(lo, hi, divisor);
    }
    n := WordAnswers(c, UM_MOD, m, s, Cell(divisor, Cell(hi, Cell(lo, v))), Cell(quotient, Cell(remainder, v)), 4, 4, below, w);
  }

  /** d+ on the processor. */
  lemma AddsOnProcessor(c: Compiler, m: Machine, s: State, alo: Word, ahi: Word, blo: Word, bhi: Word, v: Cells,
                        below: seq<Word>, w: World) returns (n: Machine, low: Word, high: Word)
    requires Calls(c, D_PLUS, m, s, below, w) && Has(s, Cell(bhi, Cell(blo, Cell(ahi, Cell(alo, v)))), [])
    requires Len(v) + 5 <= STACK_CELLS && |below| + 3 <= STACK_CELLS
    ensures Answers(m, n, Cell(high, Cell(low, v)), below, w)
    ensures Double(low, high) == (Double(alo, ahi) + Double(blo, bhi)) % 0x1_0000_0000
  {
    low, high := DPlusLeaves(alo, ahi, blo, bhi, v, w);
    n := WordAnswers(c, D_PLUS, m, s, Cell(bhi, Cell(blo, Cell(ahi, Cell(alo, v)))), Cell(high, Cell(low, v)), 3, 1, below, w);
  }

  // ---------------------------------------------------------------- the definitions compiled

  function ItemSize(it: Item): nat
    decreases it
  {
    match it
    case Lit(n) => if n < 0x8000 then 1 else 2
    case If(yes) => 1 + Size(yes)
    case IfElse(yes, no) => 2 + Size(yes) + Size(no)
    case Until(body) => Size(body) + 1
    case While(test, body) => Size(test) + Size(body) + 2
    case Again(body) => Size(body) + 1
    case _ => 1
  }

  /** How many words of code the items take. */
  function Size(p: Prog): nat
    decreases p
  {
    if p.End? then 0 else ItemSize(p.first) + Size(p.rest)
  }

  lemma {:induction false} ItemSizeIs(it: Item, at: nat, dict: seq<nat>)
    ensures |ItemCode(it, at, dict)| == ItemSize(it)
    decreases it
  {
    match it
    case If(yes) => SizeIs(yes, at + 1, dict);
    case IfElse(yes, no) =>
      SizeIs(yes, at + 1, dict);
      SizeIs(no, at + 2 + |ProgCode(yes, at + 1, dict)|, dict);
    case Until(body) => SizeIs(body, at, dict);
    case While(test, body) =>
      SizeIs(test, at, dict);
      SizeIs(body, at + |ProgCode(test, at, dict)| + 1, dict);
    case Again(body) => SizeIs(body, at, dict);
    case _ =>
  }

  lemma {:induction false} SizeIs(p: Prog, at: nat, dict: seq<nat>)
    ensures |ProgCode(p, at, dict)| == Size(p)
    decreases p
  {
    if p.Then? {
      ItemSizeIs(p.first, at, dict);
      SizeIs(p.rest, at + |ItemCode(p.first, at, dict)|, dict);
    }
  }

  /** What `;` lays down: one word less when the last item is a call or leaves the return stack alone. */
  lemma {:induction false} WordSize(p: Prog, at: nat, dict: seq<nat>, jumps: bool)
    ensures |WordCode(p, at, dict, jumps)| == Size(p) + if jumps && SavesReturn(p) then 0 else 1
    decreases p
  {
    if p.Then? {
      ItemSizeIs(p.first, at, dict);
      if p.rest.Then? {
        WordSize(p.rest, at + |ItemCode(p.first, at, dict)|, dict, jumps);
      }
    }
  }

  predicate SavesReturn(p: Prog)
    decreases p
  {
    if p.End? then false
    else if p.rest.Then? then SavesReturn(p.rest)
    else match p.first
      case Call(_) => true
      case Alu(op) => op.rd == 0 && !op.tr
      case Lit(n) => n >= 0x8000
      case _ => false
  }

  lemma {:induction false} DivstepsSize(n: nat, rest: Prog)
    ensures Size(Divsteps(n, rest)) == n + Size(rest)
    ensures CallsBelow(rest, UM_MOD + 1) ==> CallsBelow(Divsteps(n, rest), UM_MOD + 1)
  {
    if n > 0 {
      DivstepsSize(n - 1, rest);
    }
  }

  /** A definition that calls itself and earlier words only, and is short. */
  predicate Definable(p: Prog, k: nat) {
    Size(p) < 30 && CallsBelow(p, k + 1) && p.Then?
  }

  lemma SmallWords()
    ensures forall k :: 0 <= k < DIVSTEP ==> Definable(NUC[k], k)
  {
  }

  lemma InFront(a: Item, b: Item, rest: Prog, n: nat)
    ensures Size(Then(a, Then(b, rest))) == ItemSize(a) + ItemSize(b) + Size(rest)
    ensures ItemCallsBelow(a, n) && ItemCallsBelow(b, n) && CallsBelow(rest, n) ==> CallsBelow(Then(a, Then(b, rest)), n)
  {
    assert Then(b, rest).rest == rest;
  }

  lemma SubtractSmall()
    ensures Size(SUBTRACT) == 6 && CallsBelow(SUBTRACT, DIVSTEP)
  {
    InFront(Call(ONE_PLUS), Call(ROT), End, DIVSTEP);
    InFront(Alu(SWAP), Call(ROT), Two(Call(ONE_PLUS), Call(ROT)), DIVSTEP);
    InFront(Call(TUCK), Call(MINUS), Then(Alu(SWAP), Then(Call(ROT), Two(Call(ONE_PLUS), Call(ROT)))), DIVSTEP);
  }

  lemma ShiftSmall()
    ensures Size(SHIFT) == 15 && CallsBelow(SHIFT, DIVSTEP)
  {
    SubtractSmall();
    var branch := IfElse(SUBTRACT, One(Call(MINUS_ROT)));
    InFront(Call(AT_LEAST), branch, End, DIVSTEP);
    InFront(Call(ROT), Call(TWO_DUP), Two(Call(AT_LEAST), branch), DIVSTEP);
    InFront(Call(TWICE), Alu(SWAP), COMPARE, DIVSTEP);
  }

  lemma DivstepSmall()
    ensures Definable(DIVSTEP_BODY, DIVSTEP)
  {
    ShiftSmall();
    MoreCalls(SHIFT, DIVSTEP);
    var bit := If(One(Call(ONE_PLUS)));
    InFront(Call(NEGATIVE), bit, SHIFT, DIVSTEP + 1);
    InFront(Call(TWICE), Alu(OVER), Then(Call(NEGATIVE), Then(bit, SHIFT)), DIVSTEP + 1);
  }

  lemma {:induction false} MoreCallsItem(it: Item, n: nat)
    requires ItemCallsBelow(it, n)
    ensures ItemCallsBelow(it, n + 1)
    decreases it
  {
    match it
    case If(yes) => MoreCalls(yes, n);
    case IfElse(yes, no) =>
      MoreCalls(yes, n);
      MoreCalls(no, n);
    case Until(body) => MoreCalls(body, n);
    case While(test, body) =>
      MoreCalls(test, n);
      MoreCalls(body, n);
    case Again(body) => MoreCalls(body, n);
    case _ =>
  }

  lemma {:induction false} MoreCalls(p: Prog, n: nat)
    requires CallsBelow(p, n)
    ensures CallsBelow(p, n + 1)
    decreases p
  {
    if p.Then? {
      MoreCallsItem(p.first, n);
      MoreCalls(p.rest, n);
    }
  }

  lemma UmModSmall()
    ensures Definable(Then(Call(MINUS_ROT), Divsteps(16, UM_MOD_END)), UM_MOD)
  {
    DivstepsSize(16, UM_MOD_END);
    InFront(Alu(DROP), Alu(SWAP), End, UM_MOD + 1);
    assert Divsteps(16, UM_MOD_END) == Then(Call(DIVSTEP), Divsteps(15, UM_MOD_END));
    InFront(Call(MINUS_ROT), Call(DIVSTEP), Divsteps(15, UM_MOD_END), UM_MOD + 1);
    DivstepsSize(15, UM_MOD_END);
  }

  lemma CarrySmall()
    ensures Size(CARRY) == 8 && CallsBelow(CARRY, D_PLUS + 1)
  {
    var branch := IfElse(Two(Alu(R_FROM), Call(ONE_PLUS)), One(Alu(R_FROM)));
    InFront(Alu(U_LESS), branch, End, D_PLUS + 1);
    InFront(Alu(DUP), Call(ROT), Two(Alu(U_LESS), branch), D_PLUS + 1);
  }

  lemma DPlusSmall(rest: Prog)
    requires rest == Then(Alu(TO_R), Then(Alu(OVER), Then(Alu(PLUS), CARRY)))
    ensures Definable(Then(Call(ROT), Then(Alu(PLUS), rest)), D_PLUS)
  {
    CarrySmall();
    InFront(Alu(OVER), Alu(PLUS), CARRY, D_PLUS + 1);
    assert Size(rest) == 11 && CallsBelow(rest, D_PLUS + 1);
    InFront(Call(ROT), Alu(PLUS), rest, D_PLUS + 1);
  }

  /** Any definitions that are short and not too many, through the compiler, with or without folding. */
  method CompileAll(defs: seq<Prog>, fold: bool) returns (c: Compiler)
    requires |defs| <= 200 && forall k :: 0 <= k < |defs| ==> Definable(defs[k], k)
    ensures fresh(c) && c.Valid() && c.defs == defs && c.folding == fold && |c.dict| == |defs|
  {
    c := new Compiler(fold);
    var k := 0;
    while k < |defs|
      invariant k <= |defs| && fresh(c) && fresh(c.tflash) && fresh(c.labels)
      invariant c.Valid() && c.folding == fold && c.defs == defs[..k] && |c.dict| == k && c.tdp <= 30 * k
    {
      SizeIs(defs[k], c.tdp, c.dict + [c.tdp]);
      WordSize(defs[k], c.tdp, c.dict + [c.tdp], fold);
      ghost var before := c.Laid();
      c.Define(defs[k]);
      assert |c.Laid()| <= |before| + 30;
      k := k + 1;
    }
  }

  /** The definitions compiled: such a compiler as the theorems above ask for. */
  method CompileNuc(fold: bool) returns (c: Compiler)
    ensures fresh(c) && c.Valid() && c.defs == NUC && c.folding == fold && |c.dict| == |NUC|
  {
    SmallWords();
    DivstepSmall();
    UmModSmall();
    DPlusSmall(Then(Alu(TO_R), Then(Alu(OVER), Then(Alu(PLUS), CARRY))));
    c := CompileAll(NUC, fold);
  }
}
