/**
 Compiled code does what the structured program says: the processor, started on the code of a word,
 reaches the caller with the stack, memory and bus accesses of the structured run, and with the
 return stack that was below the word's return address.
 */
module Correctness {
  import opened Words
  import opened J1
  import opened Forth
  import opened CodeGen

  /** Where code lies in memory, cell by cell, and where each word starts. */
  datatype Image = Image(words: map<nat, Word>, dict: seq<nat>)

  ghost predicate Holds(words: map<nat, Word>, a: nat, x: Word) {
    a in words && words[a] == x
  }

  /** The code is in the image from cell `at` on. */
  ghost predicate Loaded(words: map<nat, Word>, at: nat, code: seq<Word>) {
    forall k :: 0 <= k < |code| ==> Holds(words, at + k, code[k])
  }

  /** Word k of the image, compiled with or without the peephole as the world says. */
  ghost predicate WordLoaded(im: Image, w: World, k: nat)
    requires k < |w.defs| && |im.dict| == |w.defs|
  {
    var code := WordCode(w.defs[k], im.dict[k], im.dict, w.jumps);
    im.dict[k] + |code| < RAM_WORDS && Loaded(im.words, im.dict[k], code)
  }

  /** Every definition is compiled into the image, and only code cells belong to it. */
  ghost predicate Compiled(im: Image, w: World) {
    && |im.dict| == |w.defs|
    && im.words.Keys <= w.code
    && forall k :: 0 <= k < |w.defs| ==> WordLoaded(im, w, k)
  }

  /** The cells of the return stack, top first. */
  ghost predicate View(rstack: seq<Word>, rsp: nat, v: seq<Word>) {
    && |rstack| == STACK_CELLS && rsp < STACK_CELLS && |v| <= STACK_CELLS
    && forall i :: 0 <= i < |v| ==> rstack[(rsp - i) % STACK_CELLS] == v[i]
  }

  /** Code cells hold the image, all other cells hold the program's data. */
  ghost predicate SameMemory(machine: seq<Word>, data: seq<Word>, im: Image, w: World) {
    && |machine| == RAM_WORDS && |data| == RAM_WORDS
    && (forall a :: 0 <= a < RAM_WORDS && a !in w.code ==> machine[a] == data[a])
    && (forall a :: 0 <= a < RAM_WORDS && a in im.words ==> machine[a] == im.words[a])
  }

  /** The machine is in the structured state, with `below` on the return stack under its own cells. */
  ghost predicate Rel(m: Machine, s: State, below: seq<Word>, im: Image, w: World) {
    && m.Valid()
    && m.dsp == s.dsp && m.st0 == s.st0 && m.dstack == s.dstack && m.log == s.log
    && View(m.rstack, m.rsp, s.r + below)
    && m.rsp == (w.base + |below| + |s.r|) % STACK_CELLS
    && SameMemory(m.ram, s.ram, im, w)
  }

  /** Data stack, bus accesses and memory are those of the structured state. */
  ghost predicate SameData(m: Machine, s: State, im: Image, w: World) {
    && m.Valid() && m.dsp == s.dsp && m.st0 == s.st0 && m.dstack == s.dstack && m.log == s.log
    && SameMemory(m.ram, s.ram, im, w)
  }

  // ---------------------------------------------------------------- the return stack

  lemma ModSub(a: int, i: int)
    ensures (a % STACK_CELLS - i) % STACK_CELLS == (a - i) % STACK_CELLS
  {
  }

  lemma ViewDrop(rstack: seq<Word>, rsp: nat, v: seq<Word>, d: nat)
    requires View(rstack, rsp, v) && d <= |v|
    ensures View(rstack, (rsp - d) % STACK_CELLS, v[d..])
  {
    forall i | 0 <= i < |v[d..]|
      ensures rstack[((rsp - d) % STACK_CELLS - i) % STACK_CELLS] == v[d..][i]
    {
      ModSub(rsp - d, i);
      assert v[d..][i] == v[d + i];
      assert rsp - d - i == rsp - (d + i);
    }
  }

  lemma Apart(rsp: nat, i: nat)
    requires rsp < STACK_CELLS && 0 < i < STACK_CELLS
    ensures (rsp - i) % STACK_CELLS != rsp
  {
  }

  lemma ViewPush(rstack: seq<Word>, rsp: nat, v: seq<Word>, x: Word)
    requires View(rstack, rsp, v) && |v| < STACK_CELLS
    ensures View(rstack[(rsp + 1) % STACK_CELLS := x], (rsp + 1) % STACK_CELLS, [x] + v)
  {
    var top := (rsp + 1) % STACK_CELLS;
    var moved := rstack[top := x];
    forall i | 0 <= i < |[x] + v|
      ensures moved[(top - i) % STACK_CELLS] == ([x] + v)[i]
    {
      if i > 0 {
        Apart(top, i);
        ModSub(rsp + 1, i);
        assert ([x] + v)[i] == v[i - 1];
        assert rsp + 1 - i == rsp - (i - 1);
      }
    }
  }

  /** The return stack after an ALU operation. */
  lemma ViewMoved(op: AluOp, rstack: seq<Word>, rsp: nat, r: seq<Word>, below: seq<Word>, x: Word)
    requires View(rstack, rsp, r + below) && FrameSafe(op, r, |below|)
    ensures var to := Moved(rsp, op.rd);
      View(if op.tr then rstack[to := x] else rstack, to, FrameMoved(op, r, x) + below)
  {
    var d := Taken(op);
    var to := Moved(rsp, op.rd);
    ViewDrop(rstack, rsp, r + below, d);
    assert (r + below)[d..] == r[d..] + below;
    if op.tr {
      var mid := (rsp - d) % STACK_CELLS;
      ModSub(rsp - d, -1);
      assert to == (mid + 1) % STACK_CELLS;
      ViewPush(rstack, mid, r[d..] + below, x);
      assert FrameMoved(op, r, x) + below == [x] + (r[d..] + below);
    } else {
      assert to == (rsp - d) % STACK_CELLS;
      assert FrameMoved(op, r, x) + below == r[d..] + below;
    }
  }

  // ---------------------------------------------------------------- one instruction

  lemma Fetch(m: Machine, at: nat, code: seq<Word>, k: nat, s: State, below: seq<Word>, im: Image, w: World)
    requires Rel(m, s, below, im, w) && Loaded(im.words, at, code) && k < |code| && m.pc == at + k
    ensures m.ram[m.pc] == code[k]
  {
  }

  lemma LiteralStep(m: Machine, n: Word, s: State, below: seq<Word>, im: Image, w: World)
    requires Rel(m, s, below, im, w) && n < 0x8000 && m.ram[m.pc] == 0x8000 + n && m.pc + 1 < RAM_WORDS
    ensures Rel(Step(m, w.bus), Pushed(s, n), below, im, w) && Step(m, w.bus).pc == m.pc + 1
  {
  }

  lemma ZeroBranchStep(m: Machine, target: nat, s: State, below: seq<Word>, im: Image, w: World)
    requires Rel(m, s, below, im, w) && target < RAM_WORDS && m.ram[m.pc] == 0x2000 + target && m.pc + 1 < RAM_WORDS
    ensures Rel(Step(m, w.bus), Popped(s), below, im, w)
    ensures Step(m, w.bus).pc == if s.st0 == 0 then target else m.pc + 1
  {
  }

  lemma BranchStep(m: Machine, target: nat, s: State, below: seq<Word>, im: Image, w: World)
    requires Rel(m, s, below, im, w) && target < RAM_WORDS && m.ram[m.pc] == target
    ensures Rel(Step(m, w.bus), s, below, im, w) && Step(m, w.bus).pc == target
  {
  }

  lemma CallView(rstack: seq<Word>, rsp: nat, v: seq<Word>, back: Word, base: nat)
    requires View(rstack, rsp, v) && |v| < STACK_CELLS && rsp == (base + |v|) % STACK_CELLS
    ensures View(rstack[Moved(rsp, 1) := back], Moved(rsp, 1), [] + ([back] + v))
    ensures Moved(rsp, 1) == (base + |[back] + v|) % STACK_CELLS
  {
    ViewPush(rstack, rsp, v, back);
    assert [] + ([back] + v) == [back] + v;
    ModSub(base + |v|, -1);
  }

  /** A call puts the caller's own cells and its return address under the word called. */
  lemma CallStep(m: Machine, target: nat, s: State, below: seq<Word>, im: Image, w: World)
    requires Rel(m, s, below, im, w) && target < RAM_WORDS && m.ram[m.pc] == 0x4000 + target
    requires |below| + |s.r| < STACK_CELLS
    ensures Rel(Step(m, w.bus), s.(r := []), [2 * (m.pc + 1)] + (s.r + below), im, w)
    ensures Step(m, w.bus).pc == target
  {
    CallView(m.rstack, m.rsp, s.r + below, 2 * (m.pc + 1), w.base);
    assert Step(m, w.bus) == StepCall(m, target);
  }

  /** What an operation leaves in the registers that a structured state has. */
  ghost predicate SameResult(op: AluOp, m: Machine, s: State, under: nat, w: World)
    requires m.Valid()
  {
    var din := DataIn(m.ram, m.log, m.st0, w.bus);
    && AluResult(op.sel, m.st0, m.dstack[m.dsp], m.rstack[m.rsp], m.rsp, m.dsp, din) == Result(op, s, under, w)
    && Accesses(op, m.log, m.st0, m.dstack[m.dsp], din)
       == Accesses(op, s.log, s.st0, s.dstack[s.dsp], DataIn(s.ram, s.log, s.st0, w.bus))
  }

  lemma ComputeResult(op: AluOp, m: Machine, s: State, below: seq<Word>, im: Image, w: World)
    requires Rel(m, s, below, im, w) && AluSafe(op, s, |below|, w)
    ensures SameResult(op, m, s, |below|, w)
  {
    if op.sel == 12 {
      assert DataIn(m.ram, m.log, m.st0, w.bus) == DataIn(s.ram, s.log, s.st0, w.bus);
    }
    if s.r != [] {
      assert (s.r + below)[0] == s.r[0];
      assert m.rstack[(m.rsp - 0) % STACK_CELLS] == s.r[0];
    }
  }

  lemma StoredSame(op: AluOp, machine: seq<Word>, data: seq<Word>, result: Word, st1: Word, im: Image, w: World)
    requires SameMemory(machine, data, im, w) && im.words.Keys <= w.code
    requires op.nm && result < 0x4000 ==> result / 2 !in w.code
    ensures SameMemory(Stored(op, machine, result, st1), Stored(op, data, result, st1), im, w)
  {
  }

  lemma RspMoved(op: AluOp, s: State, rsp: nat, under: nat, w: World)
    requires FrameSafe(op, s.r, under) && rsp == (w.base + under + |s.r|) % STACK_CELLS
    ensures Moved(rsp, op.rd) == (w.base + under + |FrameMoved(op, s.r, s.st0)|) % STACK_CELLS
  {
  }

  lemma AluStep(m: Machine, op: AluOp, s: State, below: seq<Word>, im: Image, w: World)
    requires Rel(m, s, below, im, w) && im.words.Keys <= w.code
    requires m.ram[m.pc] == Encode(op, false) && AluSafe(op, s, |below|, w) && m.pc + 1 < RAM_WORDS
    ensures Rel(Step(m, w.bus), Computed(op, s, |below|, w), below, im, w) && Step(m, w.bus).pc == m.pc + 1
  {
    DecodeEncode(op, false);
    assert Step(m, w.bus) == StepAlu(m, op, false, w.bus);
    ComputeResult(op, m, s, below, im, w);
    ViewMoved(op, m.rstack, m.rsp, s.r, below, s.st0);
    RspMoved(op, s, m.rsp, |below|, w);
    StoredSame(op, m.ram, s.ram, Result(op, s, |below|, w), s.dstack[s.dsp], im, w);
  }

  /** A return pops the return address under a word that has none of its own cells left. */
  lemma ReturnView(m: Machine, s: State, below: seq<Word>, im: Image, w: World)
    requires Rel(m, s, below, im, w) && s.r == [] && |below| > 0
    ensures m.rstack[m.rsp] == below[0]
    ensures View(m.rstack, Moved(m.rsp, 3), below[1..])
    ensures Moved(m.rsp, 3) == (w.base + |below[1..]|) % STACK_CELLS
  {
    assert s.r + below == below;
    assert m.rstack[(m.rsp - 0) % STACK_CELLS] == below[0];
    ViewDrop(m.rstack, m.rsp, below, 1);
    ModSub(w.base + |below|, 1);
  }

  /** An operation with the return folded in: the operation, and then back to the caller. */
  lemma FusedStep(m: Machine, op: AluOp, s: State, below: seq<Word>, im: Image, w: World)
    requires Rel(m, s, below, im, w) && im.words.Keys <= w.code && s.r == [] && |below| > 0
    requires m.ram[m.pc] == Fused(op) && Fusible(op) && AluSafe(op, s, |below|, w)
    ensures Rel(Step(m, w.bus), Computed(op, s, |below|, w), below[1..], im, w)
    ensures Computed(op, s, |below|, w).r == [] && Step(m, w.bus).pc == Target(below[0] / 2)
  {
    var back := op.(rd := 3);
    DecodeEncode(back, true);
    assert Step(m, w.bus) == StepAlu(m, back, true, w.bus);
    ComputeResult(op, m, s, below, im, w);
    ReturnView(m, s, below, im, w);
    StoredSame(op, m.ram, s.ram, Result(op, s, |below|, w), s.dstack[s.dsp], im, w);
    assert [] + below[1..] == below[1..];
  }

  lemma NothingComputed(nothing: AluOp, s: State, under: nat, w: World)
    requires nothing == Op(0, false, false, false, 0, 0) && under + |s.r| <= STACK_CELLS
    ensures Fused(nothing) == RETURN && Fusible(nothing) && AluSafe(nothing, s, under, w) && Computed(nothing, s, under, w) == s
  {
  }

  lemma ReturnStep(m: Machine, s: State, below: seq<Word>, im: Image, w: World)
    requires Rel(m, s, below, im, w) && im.words.Keys <= w.code && s.r == [] && |below| > 0
    requires m.ram[m.pc] == RETURN
    ensures Rel(Step(m, w.bus), s, below[1..], im, w) && Step(m, w.bus).pc == Target(below[0] / 2)
  {
    var nothing: AluOp := Op(0, false, false, false, 0, 0);
    NothingComputed(nothing, s, |below|, w);
    FusedStep(m, nothing, s, below, im, w);
  }

  // ---------------------------------------------------------------- whole programs

  /** Where the machine is, and in what state, when the structured run has the given outcome. */
  ghost predicate Arrives(n: Machine, o: Outcome, below: seq<Word>, next: nat, im: Image, w: World) {
    match o
    case Done(t) => n.pc == next && Rel(n, t, below, im, w)
    case Returned(t) =>
      t.r == [] && |below| > 0 && n.pc == Target(below[0] / 2) && Rel(n, t, below[1..], im, w)
    case OutOfFuel(t) => SameData(n, t, im, w)
    case Stuck => true
  }

  /** The machine runs from m to wherever the outcome leaves it. */
  ghost predicate Leads(m: Machine, o: Outcome, below: seq<Word>, next: nat, im: Image, w: World) {
    exists n :: Goes(m, n, w.bus) && Arrives(n, o, below, next, im, w)
  }

  lemma Arrive(m: Machine, o: Outcome, below: seq<Word>, next: nat, im: Image, w: World)
    requires m.Valid() && Arrives(m, o, below, next, im, w)
    ensures Leads(m, o, below, next, im, w)
  {
    GoesZero(m, w.bus);
  }

  /** Where a stretch that ran to its end leaves the machine. */
  lemma Middle(m: Machine, t: State, below: seq<Word>, next: nat, im: Image, w: World) returns (n: Machine)
    requires Leads(m, Done(t), below, next, im, w)
    ensures Goes(m, n, w.bus) && n.pc == next && Rel(n, t, below, im, w)
  {
    n :| Goes(m, n, w.bus) && Arrives(n, Done(t), below, next, im, w);
  }

  lemma Here(m: Machine, t: State, below: seq<Word>, next: nat, im: Image, w: World)
    requires m.pc == next && Rel(m, t, below, im, w)
    ensures Leads(m, Done(t), below, next, im, w)
  {
    Arrive(m, Done(t), below, next, im, w);
  }

  lemma Home(m: Machine, t: State, below: seq<Word>, im: Image, w: World)
    requires t.r == [] && |below| > 0 && m.pc == Target(below[0] / 2) && Rel(m, t, below[1..], im, w)
    ensures Leads(m, Returned(t), below, 0, im, w)
  {
    Arrive(m, Returned(t), below, 0, im, w);
  }

  lemma Open(m: Machine, o: Outcome, below: seq<Word>, next: nat, im: Image, w: World)
    requires m.Valid() && (o.Stuck? || (o.OutOfFuel? && SameData(m, o.s, im, w)))
    ensures Leads(m, o, below, next, im, w)
  {
    Arrive(m, o, below, next, im, w);
  }

  /** How far a run has got does not depend on what is under it. */
  lemma Elsewhere(m: Machine, o: Outcome, below: seq<Word>, next: nat, other: seq<Word>, after: nat, im: Image, w: World)
    requires Leads(m, o, below, next, im, w) && o.OutOfFuel?
    ensures Leads(m, o, other, after, im, w)
  {
    var n :| Goes(m, n, w.bus) && Arrives(n, o, below, next, im, w);
    assert Arrives(n, o, other, after, im, w);
  }

  /** A run that does not come to the end of its code is as far as the code around it gets. */
  lemma Pass(m: Machine, o: Outcome, below: seq<Word>, mid: nat, next: nat, im: Image, w: World)
    requires Leads(m, o, below, mid, im, w) && !o.Done?
    ensures Leads(m, o, below, next, im, w)
  {
  }

  /** What follows a stretch of the run. */
  lemma After(m: Machine, n: Machine, o: Outcome, below: seq<Word>, next: nat, im: Image, w: World)
    requires Goes(m, n, w.bus) && Leads(n, o, below, next, im, w)
    ensures Leads(m, o, below, next, im, w)
  {
    var k :| Goes(n, k, w.bus) && Arrives(k, o, below, next, im, w);
    GoesOn(m, n, k, w.bus);
  }

  lemma StepThen(m: Machine, o: Outcome, below: seq<Word>, next: nat, im: Image, w: World)
    requires m.Valid() && Leads(Step(m, w.bus), o, below, next, im, w)
    ensures Leads(m, o, below, next, im, w)
  {
    GoesStep(m, w.bus);
    After(m, Step(m, w.bus), o, below, next, im, w);
  }

  lemma LoadedParts(words: map<nat, Word>, at: nat, a: seq<Word>, b: seq<Word>)
    requires Loaded(words, at, a + b)
    ensures Loaded(words, at, a) && Loaded(words, at + |a|, b)
  {
    forall k | 0 <= k < |a|
      ensures Holds(words, at + k, a[k])
    {
      assert (a + b)[k] == a[k];
    }
    forall k | 0 <= k < |b|
      ensures Holds(words, at + |a| + k, b[k])
    {
      assert (a + b)[|a| + k] == b[k];
    }
  }

  /** After a stretch of the run, one more step. */
  lemma StepOn(m: Machine, n: Machine, o: Outcome, below: seq<Word>, next: nat, im: Image, w: World)
    requires Goes(m, n, w.bus) && Leads(Step(n, w.bus), o, below, next, im, w)
    ensures Leads(m, o, below, next, im, w)
  {
    StepThen(n, o, below, next, im, w);
    After(m, n, o, below, next, im, w);
  }

  /** A literal arrives as exactly its value, whether or not its bit 15 is set. */
  lemma LitRuns(n: Word, at: nat, m: Machine, s: State, below: seq<Word>, im: Image, w: World)
    requires im.words.Keys <= w.code && Rel(m, s, below, im, w) && m.pc == at
    requires Loaded(im.words, at, LitCode(n)) && at + |LitCode(n)| < RAM_WORDS
    ensures Leads(m, Done(Pushed(s, n)), below, at + |LitCode(n)|, im, w)
  {
    var o, next := Done(Pushed(s, n)), at + |LitCode(n)|;
    Fetch(m, at, LitCode(n), 0, s, below, im, w);
    if n < 0x8000 {
      LiteralStep(m, n, s, below, im, w);
      Arrive(Step(m, w.bus), o, below, next, im, w);
    } else {
      LiteralStep(m, Not(n), s, below, im, w);
      var one, t := Step(m, w.bus), Pushed(s, Not(n));
      Fetch(one, at, LitCode(n), 1, t, below, im, w);
      AluStep(one, Invert(), t, below, im, w);
      Inverted(s, n, |below|, w);
      Arrive(Step(one, w.bus), o, below, next, im, w);
      StepThen(one, o, below, next, im, w);
    }
    StepThen(m, o, below, next, im, w);
  }

  /** ~T, the operation 0x6600. */
  function Invert(): AluOp {
    Op(6, false, false, false, 0, 0)
  }

  lemma Inverted(s: State, n: Word, under: nat, w: World)
    requires under + |s.r| <= STACK_CELLS
    ensures Encode(Invert(), false) == 0x6600 && AluSafe(Invert(), Pushed(s, Not(n)), under, w)
    ensures Computed(Invert(), Pushed(s, Not(n)), under, w) == Pushed(s, n)
  {
  }

  /** The word called has come back: the caller's own cells are on top again. */
  lemma CallReturned(m: Machine, o: Outcome, at: nat, s: State, below: seq<Word>, im: Image, w: World)
    requires at + 1 < RAM_WORDS && |below| + |s.r| < STACK_CELLS
    requires Leads(m, o, [2 * (at + 1)] + (s.r + below), 0, im, w) && o.Returned?
    ensures Leads(m, Done(o.s.(r := s.r)), below, at + 1, im, w)
  {
    var under := [2 * (at + 1)] + (s.r + below);
    var n :| Goes(m, n, w.bus) && Arrives(n, o, under, 0, im, w);
    assert under[1..] == s.r + below && o.s.r + under[1..] == s.r + below;
    BackAfter(at);
    Here(n, o.s.(r := s.r), below, at + 1, im, w);
    After(m, n, Done(o.s.(r := s.r)), below, at + 1, im, w);
  }

  /** The word called, entered with its return address on top. */
  lemma CallEnters(k: nat, at: nat, m: Machine, s: State, below: seq<Word>, im: Image, w: World)
    requires Compiled(im, w) && Rel(m, s, below, im, w) && m.pc == at
    requires Loaded(im.words, at, [0x4000 + Address(im.dict, k)]) && at + 1 < RAM_WORDS
    requires k < |w.defs| && |below| + |s.r| < STACK_CELLS
    ensures Rel(Step(m, w.bus), s.(r := []), [2 * (at + 1)] + (s.r + below), im, w)
    ensures Step(m, w.bus).pc == im.dict[k] && WordLoaded(im, w, k)
  {
    assert WordLoaded(im, w, k);
    Fetch(m, at, [0x4000 + Address(im.dict, k)], 0, s, below, im, w);
    CallStep(m, im.dict[k], s, below, im, w);
  }

  /** What a call makes of the end of the word called. */
  function CalledBack(s: State, inner: Outcome): Outcome {
    if inner.Returned? then Done(inner.s.(r := s.r)) else inner
  }

  lemma CallOutcome(k: nat, s: State, under: nat, fuel: nat, w: World)
    requires k < |w.defs| && under + |s.r| < STACK_CELLS && fuel > 0
    ensures ExecItem(Call(k), s, under, fuel, w)
            == CalledBack(s, ExecWord(w.defs[k], s.(r := []), under + |s.r| + 1, fuel - 1, w))
  {
  }

  lemma CallRuns(k: nat, inner: Outcome, at: nat, m: Machine, s: State, below: seq<Word>, fuel: nat, im: Image, w: World)
    requires Compiled(im, w) && Rel(m, s, below, im, w) && |below| > 0 && m.pc == at
    requires Loaded(im.words, at, [0x4000 + Address(im.dict, k)]) && at + 1 < RAM_WORDS
    requires k < |w.defs| && |below| + |s.r| < STACK_CELLS && fuel > 0
    requires inner == ExecWord(w.defs[k], s.(r := []), |below| + |s.r| + 1, fuel - 1, w)
    ensures Leads(m, CalledBack(s, inner), below, at + 1, im, w)
    decreases fuel, Call(k), 0
  {
    CallEnters(k, at, m, s, below, im, w);
    var entered, under := Step(m, w.bus), [2 * (at + 1)] + (s.r + below);
    WordRuns(w.defs[k], im.dict[k], entered, s.(r := []), under, fuel - 1, im, w);
    CallEnds(entered, inner, at, s, under, below, im, w);
    StepThen(m, CalledBack(s, inner), below, at + 1, im, w);
  }

  lemma CallEnds(m: Machine, inner: Outcome, at: nat, s: State, under: seq<Word>, below: seq<Word>, im: Image, w: World)
    requires at + 1 < RAM_WORDS && |below| + |s.r| < STACK_CELLS && under == [2 * (at + 1)] + (s.r + below)
    requires m.Valid() && Leads(m, inner, under, 0, im, w) && !inner.Done?
    ensures Leads(m, CalledBack(s, inner), below, at + 1, im, w)
  {
    if inner.Returned? {
      CallReturned(m, inner, at, s, below, im, w);
    } else if inner.OutOfFuel? {
      Elsewhere(m, inner, under, 0, below, at + 1, im, w);
    } else {
      Open(m, inner, below, at + 1, im, w);
    }
  }

  lemma {:induction false} IfRuns(it: Item, o: Outcome, at: nat, all: seq<Word>, m: Machine, s: State, below: seq<Word>,
                                  fuel: nat, im: Image, w: World)
    requires it.If? && Compiled(im, w) && Rel(m, s, below, im, w) && |below| > 0 && m.pc == at
    requires all == ItemCode(it, at, im.dict) && Loaded(im.words, at, all) && at + |all| < RAM_WORDS
    requires o == ExecItem(it, s, |below|, fuel, w)
    ensures Leads(m, o, below, at + |all|, im, w)
    decreases fuel, it, 1
  {
    var body := ProgCode(it.yes, at + 1, im.dict);
    IfParts(im.words, at, body, all, at + |all|);
    WhenRuns(it, o, at, body, at + |all|, m, s, below, fuel, im, w);
  }

  lemma IfParts(words: map<nat, Word>, at: nat, body: seq<Word>, all: seq<Word>, next: nat)
    requires all == IfCode(at, body) && Loaded(words, at, all) && next == at + |all|
    ensures Loaded(words, at, [0x2000 + Target(next)]) && Loaded(words, at + 1, body) && next == at + 1 + |body|
  {
    LoadedParts(words, at, [0x2000 + Target(next)], body);
  }

  /** The branch of an if without else. */
  lemma {:induction false} WhenRuns(it: Item, o: Outcome, at: nat, body: seq<Word>, next: nat, m: Machine, s: State,
                                    below: seq<Word>, fuel: nat, im: Image, w: World)
    requires it.If? && Compiled(im, w) && Rel(m, s, below, im, w) && |below| > 0 && m.pc == at
    requires body == ProgCode(it.yes, at + 1, im.dict) && next == at + 1 + |body| && next < RAM_WORDS
    requires Loaded(im.words, at, [0x2000 + Target(next)]) && Loaded(im.words, at + 1, body)
    requires o == ExecItem(it, s, |below|, fuel, w)
    ensures Leads(m, o, below, next, im, w)
    decreases fuel, it, 0
  {
    Fetch(m, at, [0x2000 + Target(next)], 0, s, below, im, w);
    ZeroBranchStep(m, next, s, below, im, w);
    var one := Step(m, w.bus);
    if s.st0 == 0 {
      Arrive(one, o, below, next, im, w);
    } else {
      assert o == ExecProg(it.yes, Popped(s), |below|, fuel, w);
      ProgRuns(it.yes, at + 1, one, Popped(s), below, fuel, im, w);
    }
    StepThen(m, o, below, next, im, w);
  }

  lemma {:induction false} IfElseRuns(it: Item, o: Outcome, at: nat, all: seq<Word>, m: Machine, s: State, below: seq<Word>,
                                  fuel: nat, im: Image, w: World)
    requires it.IfElse? && Compiled(im, w) && Rel(m, s, below, im, w) && |below| > 0 && m.pc == at
    requires all == ItemCode(it, at, im.dict) && Loaded(im.words, at, all) && at + |all| < RAM_WORDS
    requires o == ExecItem(it, s, |below|, fuel, w)
    ensures Leads(m, o, below, at + |all|, im, w)
    decreases fuel, it, 1
  {
    var body := ProgCode(it.yes, at + 1, im.dict);
    var skip := at + 2 + |body|;
    IfElseParts(im.words, at, body, skip, ProgCode(it.no, skip, im.dict), all, at + |all|);
    ChoiceRuns(it, o, at, body, skip, at + |all|, m, s, below, fuel, im, w);
  }

  lemma IfElseParts(words: map<nat, Word>, at: nat, body: seq<Word>, skip: nat, other: seq<Word>, all: seq<Word>, next: nat)
    requires all == IfElseCode(at, body, other) && Loaded(words, at, all) && next == at + |all| && skip == at + 2 + |body|
    ensures Loaded(words, at, [0x2000 + Target(skip)]) && Loaded(words, at + 1, body + [Target(next)])
    ensures Loaded(words, skip, other) && next == skip + |other|
  {
    ThreeParts(words, at, [0x2000 + Target(skip)], body + [Target(next)], other);
  }

  /** Both branches of if and else, their code being laid out at these cells. */
  lemma {:induction false} ChoiceRuns(it: Item, o: Outcome, at: nat, body: seq<Word>, skip: nat, next: nat, m: Machine, s: State,
                                      below: seq<Word>, fuel: nat, im: Image, w: World)
    requires it.IfElse? && Compiled(im, w) && Rel(m, s, below, im, w) && |below| > 0 && m.pc == at
    requires body == ProgCode(it.yes, at + 1, im.dict) && skip == at + 2 + |body|
    requires next == skip + |ProgCode(it.no, skip, im.dict)| && next < RAM_WORDS
    requires Loaded(im.words, at, [0x2000 + Target(skip)]) && Loaded(im.words, at + 1, body + [Target(next)])
    requires Loaded(im.words, skip, ProgCode(it.no, skip, im.dict)) && o == ExecItem(it, s, |below|, fuel, w)
    ensures Leads(m, o, below, next, im, w)
    decreases fuel, it, 0
  {
    Fetch(m, at, [0x2000 + Target(skip)], 0, s, below, im, w);
    ZeroBranchStep(m, skip, s, below, im, w);
    var one := Step(m, w.bus);
    if s.st0 == 0 {
      assert o == ExecProg(it.no, Popped(s), |below|, fuel, w);
      ProgRuns(it.no, skip, one, Popped(s), below, fuel, im, w);
    } else {
      assert o == ExecProg(it.yes, Popped(s), |below|, fuel, w);
      BodyRuns(it.yes, at + 1, next, one, Popped(s), below, fuel, im, w);
    }
    StepThen(m, o, below, next, im, w);
  }

  lemma ThreeParts(words: map<nat, Word>, at: nat, a: seq<Word>, b: seq<Word>, c: seq<Word>)
    requires Loaded(words, at, a + b + c)
    ensures Loaded(words, at, a) && Loaded(words, at + |a|, b) && Loaded(words, at + |a| + |b|, c)
  {
    LoadedParts(words, at, a + b, c);
    LoadedParts(words, at, a, b);
  }

  /** A jump behind a stretch that ran to its end. */
  lemma JumpAfter(m: Machine, o: Outcome, below: seq<Word>, at: nat, next: nat, im: Image, w: World)
    requires Leads(m, o, below, at, im, w) && Loaded(im.words, at, [Target(next)]) && next < RAM_WORDS
    ensures Leads(m, o, below, next, im, w)
  {
    if o.Done? {
      var n := Middle(m, o.s, below, at, im, w);
      Fetch(n, at, [Target(next)], 0, o.s, below, im, w);
      BranchStep(n, next, o.s, below, im, w);
      Here(Step(n, w.bus), o.s, below, next, im, w);
      StepOn(m, n, o, below, next, im, w);
    } else {
      Pass(m, o, below, at, next, im, w);
    }
  }

  /** A conditional branch behind a stretch that ran to its end. */
  lemma TestAfter(m: Machine, t: State, below: seq<Word>, at: nat, target: nat, im: Image, w: World) returns (n: Machine)
    requires Leads(m, Done(t), below, at, im, w) && Loaded(im.words, at, [0x2000 + Target(target)])
    requires target < RAM_WORDS && at + 1 < RAM_WORDS
    ensures Goes(m, n, w.bus) && Rel(n, Popped(t), below, im, w) && n.pc == if t.st0 == 0 then target else at + 1
  {
    var k := Middle(m, t, below, at, im, w);
    Fetch(k, at, [0x2000 + Target(target)], 0, t, below, im, w);
    ZeroBranchStep(k, target, t, below, im, w);
    n := Step(k, w.bus);
    GoesStep(k, w.bus);
    GoesOn(m, k, n, w.bus);
  }

  lemma UntilRuns(it: Item, at: nat, m: Machine, s: State, below: seq<Word>, fuel: nat, im: Image, w: World)
    requires it.Until? && Compiled(im, w) && Rel(m, s, below, im, w) && |below| > 0 && m.pc == at
    requires Loaded(im.words, at, ItemCode(it, at, im.dict))
    requires at + |ItemCode(it, at, im.dict)| < RAM_WORDS
    ensures Leads(m, ExecItem(it, s, |below|, fuel, w), below, at + |ItemCode(it, at, im.dict)|, im, w)
    decreases fuel, it, 1
  {
    var code := ItemCode(it, at, im.dict);
    var o, next := ExecItem(it, s, |below|, fuel, w), at + |code|;
    var body := ProgCode(it.body, at, im.dict);
    LoadedParts(im.words, at, body, [0x2000 + Target(at)]);
    ProgRuns(it.body, at, m, s, below, fuel, im, w);
    var first := ExecProg(it.body, s, |below|, fuel, w);
    if first.Done? {
      var t := Popped(first.s);
      var one := TestAfter(m, first.s, below, next - 1, at, im, w);
      if first.s.st0 != 0 {
        Here(one, t, below, next, im, w);
      } else if fuel > 0 {
        ItemRuns(it, at, one, t, below, fuel - 1, im, w);
      } else {
        Open(one, o, below, next, im, w);
      }
      After(m, one, o, below, next, im, w);
    } else {
      Pass(m, o, below, next - 1, next, im, w);
    }
  }

  /** What a loop does after its body, when nothing is tested there. */
  function RoundAgain(it: Item, o: Outcome, under: nat, fuel: nat, w: World): Outcome {
    if o.Done? then (if fuel == 0 then OutOfFuel(o.s) else ExecItem(it, o.s, under, fuel - 1, w)) else o
  }

  /** A stretch of code and the jump behind it. */
  lemma BodyRuns(body: Prog, from: nat, to: nat, m: Machine, s: State, below: seq<Word>, fuel: nat, im: Image, w: World)
    requires Compiled(im, w) && Rel(m, s, below, im, w) && |below| > 0 && m.pc == from && to < RAM_WORDS
    requires Loaded(im.words, from, ProgCode(body, from, im.dict) + [Target(to)])
    requires from + |ProgCode(body, from, im.dict)| < RAM_WORDS
    ensures Leads(m, ExecProg(body, s, |below|, fuel, w), below, to, im, w)
    decreases fuel, body, 1
  {
    var code, o := ProgCode(body, from, im.dict), ExecProg(body, s, |below|, fuel, w);
    LoadedParts(im.words, from, code, [Target(to)]);
    ProgRuns(body, from, m, s, below, fuel, im, w);
    JumpAfter(m, o, below, from + |code|, to, im, w);
  }

  /** Back at the beginning of a loop, the further rounds. */
  lemma RoundsRun(it: Item, at: nat, o: Outcome, m: Machine, below: seq<Word>, fuel: nat, im: Image, w: World)
    requires Compiled(im, w) && |below| > 0 && m.Valid() && Leads(m, o, below, at, im, w)
    requires Loaded(im.words, at, ItemCode(it, at, im.dict)) && at + |ItemCode(it, at, im.dict)| < RAM_WORDS
    ensures Leads(m, RoundAgain(it, o, |below|, fuel, w), below, at + |ItemCode(it, at, im.dict)|, im, w)
    decreases fuel, it, 0
  {
    var all, next := RoundAgain(it, o, |below|, fuel, w), at + |ItemCode(it, at, im.dict)|;
    if o.Done? && fuel > 0 {
      var k := Middle(m, o.s, below, at, im, w);
      ItemRuns(it, at, k, o.s, below, fuel - 1, im, w);
      After(m, k, all, below, next, im, w);
    } else if o.Done? {
      var k := Middle(m, o.s, below, at, im, w);
      Open(k, all, below, next, im, w);
      After(m, k, all, below, next, im, w);
    } else {
      Pass(m, all, below, at, next, im, w);
    }
  }

  lemma AgainRuns(it: Item, at: nat, m: Machine, s: State, below: seq<Word>, fuel: nat, im: Image, w: World)
    requires it.Again?
    requires Compiled(im, w) && Rel(m, s, below, im, w) && |below| > 0 && m.pc == at
    requires Loaded(im.words, at, ItemCode(it, at, im.dict))
    requires at + |ItemCode(it, at, im.dict)| < RAM_WORDS
    ensures Leads(m, ExecItem(it, s, |below|, fuel, w), below, at + |ItemCode(it, at, im.dict)|, im, w)
    decreases fuel, it, 1
  {
    BodyRuns(it.body, at, at, m, s, below, fuel, im, w);
    RoundsRun(it, at, ExecProg(it.body, s, |below|, fuel, w), m, below, fuel, im, w);
  }

  /** The body of a loop whose test has passed, and the further rounds. */
  lemma PassedRuns(it: Item, at: nat, from: nat, body: seq<Word>, m: Machine, s: State, below: seq<Word>,
                   fuel: nat, im: Image, w: World)
    requires it.While? && Compiled(im, w) && Rel(m, s, below, im, w) && |below| > 0 && m.pc == from
    requires body == ProgCode(it.body, from, im.dict) && Loaded(im.words, from, body + [Target(at)])
    requires Loaded(im.words, at, ItemCode(it, at, im.dict)) && at + |ItemCode(it, at, im.dict)| < RAM_WORDS
    requires from + |body| < RAM_WORDS
    ensures Leads(m, RoundAgain(it, ExecProg(it.body, s, |below|, fuel, w), |below|, fuel, w), below,
                  at + |ItemCode(it, at, im.dict)|, im, w)
    decreases fuel, it, 1
  {
    BodyRuns(it.body, from, at, m, s, below, fuel, im, w);
    RoundsRun(it, at, ExecProg(it.body, s, |below|, fuel, w), m, below, fuel, im, w);
  }

  /** A round of a loop from its test on. */
  lemma {:induction false} TestedRuns(it: Item, o: Outcome, at: nat, all: seq<Word>, from: nat, body: seq<Word>, m: Machine, s: State,
                   below: seq<Word>, fuel: nat, im: Image, w: World)
    requires it.While? && Compiled(im, w) && Rel(m, s, below, im, w) && |below| > 0 && m.pc == at
    requires Loaded(im.words, at, ProgCode(it.test, at, im.dict)) && from == at + |ProgCode(it.test, at, im.dict)| + 1
    requires body == ProgCode(it.body, from, im.dict) && Loaded(im.words, from, body + [Target(at)])
    requires Loaded(im.words, from - 1, [0x2000 + Target(from + |body| + 1)]) && from + |body| + 1 < RAM_WORDS
    requires all == ItemCode(it, at, im.dict) && Loaded(im.words, at, all) && at + |all| == from + |body| + 1
    requires o == ExecItem(it, s, |below|, fuel, w)
    ensures Leads(m, o, below, from + |body| + 1, im, w)
    decreases fuel, it, 2
  {
    var first, next := ExecProg(it.test, s, |below|, fuel, w), from + |body| + 1;
    ProgRuns(it.test, at, m, s, below, fuel, im, w);
    if !first.Done? {
      Pass(m, o, below, from - 1, next, im, w);
      return;
    }
    var t := Popped(first.s);
    var one := TestAfter(m, first.s, below, from - 1, next, im, w);
    if first.s.st0 == 0 {
      assert Leads(one, o, below, next, im, w) by {
        Here(one, t, below, next, im, w);
      }
    } else {
      assert Leads(one, o, below, next, im, w) by {
        PassedRuns(it, at, from, body, one, t, below, fuel, im, w);
      }
    }
    After(m, one, o, below, next, im, w);
  }

  lemma WhileParts(words: map<nat, Word>, at: nat, from: nat, test: seq<Word>, body: seq<Word>, all: seq<Word>)
    requires from == at + |test| + 1 && all == WhileCode(at, test, body) && Loaded(words, at, all)
    ensures Loaded(words, at, test) && Loaded(words, from, body + [Target(at)])
    ensures Loaded(words, from - 1, [0x2000 + Target(from + |body| + 1)]) && at + |all| == from + |body| + 1
  {
    var branch := [0x2000 + Target(at + |test| + |body| + 2)];
    ThreeParts(words, at, test, branch, body + [Target(at)]);
  }

  lemma AluRuns(op: AluOp, at: nat, m: Machine, s: State, below: seq<Word>, im: Image, w: World)
    requires im.words.Keys <= w.code && Rel(m, s, below, im, w) && m.pc == at && at + 1 < RAM_WORDS
    requires Loaded(im.words, at, [Encode(op, false)])
    ensures Leads(m, if AluSafe(op, s, |below|, w) then Done(Computed(op, s, |below|, w)) else Stuck, below, at + 1, im, w)
  {
    if AluSafe(op, s, |below|, w) {
      Fetch(m, at, [Encode(op, false)], 0, s, below, im, w);
      AluStep(m, op, s, below, im, w);
      Here(Step(m, w.bus), Computed(op, s, |below|, w), below, at + 1, im, w);
      StepThen(m, Done(Computed(op, s, |below|, w)), below, at + 1, im, w);
    } else {
      Open(m, Stuck, below, at + 1, im, w);
    }
  }

  lemma ExitRuns(at: nat, m: Machine, s: State, below: seq<Word>, im: Image, w: World)
    requires im.words.Keys <= w.code && Rel(m, s, below, im, w) && |below| > 0 && m.pc == at
    requires Loaded(im.words, at, [RETURN])
    ensures Leads(m, if s.r == [] then Returned(s) else Stuck, below, at + 1, im, w)
  {
    if s.r == [] {
      Fetch(m, at, [RETURN], 0, s, below, im, w);
      ReturnStep(m, s, below, im, w);
      Home(Step(m, w.bus), s, below, im, w);
      StepThen(m, Returned(s), below, 0, im, w);
      Pass(m, Returned(s), below, 0, at + 1, im, w);
    } else {
      Open(m, Stuck, below, at + 1, im, w);
    }
  }

  lemma CallItemRuns(it: Item, at: nat, m: Machine, s: State, below: seq<Word>, fuel: nat, im: Image, w: World)
    requires it.Call? && Compiled(im, w) && Rel(m, s, below, im, w) && |below| > 0 && m.pc == at
    requires Loaded(im.words, at, ItemCode(it, at, im.dict)) && at + 1 < RAM_WORDS
    ensures Leads(m, ExecItem(it, s, |below|, fuel, w), below, at + 1, im, w)
    decreases fuel, it, 1
  {
    var k := it.word;
    if k < |w.defs| && |below| + |s.r| < STACK_CELLS && fuel > 0 {
      CallOutcome(k, s, |below|, fuel, w);
      CallRuns(k, ExecWord(w.defs[k], s.(r := []), |below| + |s.r| + 1, fuel - 1, w), at, m, s, below, fuel, im, w);
    } else {
      Arrive(m, ExecItem(it, s, |below|, fuel, w), below, at + 1, im, w);
    }
  }

  /** The parts of a while loop in memory. */
  lemma WhileLaid(it: Item, at: nat, all: seq<Word>, im: Image) returns (from: nat, body: seq<Word>)
    requires it.While? && all == ItemCode(it, at, im.dict) && Loaded(im.words, at, all)
    ensures Loaded(im.words, at, ProgCode(it.test, at, im.dict)) && from == at + |ProgCode(it.test, at, im.dict)| + 1
    ensures body == ProgCode(it.body, from, im.dict) && Loaded(im.words, from, body + [Target(at)])
    ensures Loaded(im.words, from - 1, [0x2000 + Target(from + |body| + 1)]) && at + |all| == from + |body| + 1
  {
    var first := ProgCode(it.test, at, im.dict);
    from := at + |first| + 1;
    body := ProgCode(it.body, from, im.dict);
    WhileParts(im.words, at, from, first, body, all);
  }

  lemma {:induction false} WhileRuns(it: Item, o: Outcome, at: nat, all: seq<Word>, m: Machine, s: State, below: seq<Word>, fuel: nat, im: Image, w: World)
    requires it.While? && Compiled(im, w) && Rel(m, s, below, im, w) && |below| > 0 && m.pc == at
    requires all == ItemCode(it, at, im.dict) && Loaded(im.words, at, all) && at + |all| < RAM_WORDS
    requires o == ExecItem(it, s, |below|, fuel, w)
    ensures Leads(m, o, below, at + |all|, im, w)
    decreases fuel, it, 3
  {
    var from, body := WhileLaid(it, at, all, im);
    TestedRuns(it, o, at, all, from, body, m, s, below, fuel, im, w);
  }

  lemma {:induction false} ItemRuns(it: Item, at: nat, m: Machine, s: State, below: seq<Word>, fuel: nat, im: Image, w: World)
    requires Compiled(im, w) && Rel(m, s, below, im, w) && |below| > 0 && m.pc == at
    requires Loaded(im.words, at, ItemCode(it, at, im.dict))
    requires at + |ItemCode(it, at, im.dict)| < RAM_WORDS
    ensures Leads(m, ExecItem(it, s, |below|, fuel, w), below, at + |ItemCode(it, at, im.dict)|, im, w)
    decreases fuel, it, 4
  {
    match it
    case Lit(n) => LitRuns(n, at, m, s, below, im, w);
    case Alu(op) => AluRuns(op, at, m, s, below, im, w);
    case Call(k) => CallItemRuns(it, at, m, s, below, fuel, im, w);
    case If(yes) => IfRuns(it, ExecItem(it, s, |below|, fuel, w), at, ItemCode(it, at, im.dict), m, s, below, fuel, im, w);
    case IfElse(yes, no) => IfElseRuns(it, ExecItem(it, s, |below|, fuel, w), at, ItemCode(it, at, im.dict), m, s, below, fuel, im, w);
    case Until(body) => UntilRuns(it, at, m, s, below, fuel, im, w);
    case While(test, body) =>
      WhileRuns(it, ExecItem(it, s, |below|, fuel, w), at, ItemCode(it, at, im.dict), m, s, below, fuel, im, w);
    case Again(body) => AgainRuns(it, at, m, s, below, fuel, im, w);
    case Exit => ExitRuns(at, m, s, below, im, w);
  }

  lemma ProgRuns(p: Prog, at: nat, m: Machine, s: State, below: seq<Word>, fuel: nat, im: Image, w: World)
    requires Compiled(im, w) && Rel(m, s, below, im, w) && |below| > 0 && m.pc == at
    requires Loaded(im.words, at, ProgCode(p, at, im.dict))
    requires at + |ProgCode(p, at, im.dict)| < RAM_WORDS
    ensures Leads(m, ExecProg(p, s, |below|, fuel, w), below, at + |ProgCode(p, at, im.dict)|, im, w)
    decreases fuel, p, 0
  {
    var o, next := ExecProg(p, s, |below|, fuel, w), at + |ProgCode(p, at, im.dict)|;
    if p.End? {
      Arrive(m, o, below, next, im, w);
    } else {
      var code := ItemCode(p.first, at, im.dict);
      var mid, first := at + |code|, ExecItem(p.first, s, |below|, fuel, w);
      LoadedParts(im.words, at, code, ProgCode(p.rest, mid, im.dict));
      ItemRuns(p.first, at, m, s, below, fuel, im, w);
      if first.Done? {
        var n := Middle(m, first.s, below, mid, im, w);
        ProgRuns(p.rest, mid, n, first.s, below, fuel, im, w);
        After(m, n, o, below, next, im, w);
      } else {
        Pass(m, o, below, mid, next, im, w);
      }
    }
  }

  /** The return at the end of a word, where nothing is folded into it. */
  lemma EndRuns(at: nat, m: Machine, s: State, below: seq<Word>, fuel: nat, im: Image, w: World)
    requires im.words.Keys <= w.code && Rel(m, s, below, im, w) && |below| > 0 && m.pc == at
    requires Loaded(im.words, at, [RETURN])
    ensures Leads(m, ExecWord(End, s, |below|, fuel, w), below, 0, im, w)
  {
    var o := ExecWord(End, s, |below|, fuel, w);
    if s.r == [] {
      Fetch(m, at, [RETURN], 0, s, below, im, w);
      ReturnStep(m, s, below, im, w);
      Arrive(Step(m, w.bus), o, below, 0, im, w);
      StepThen(m, o, below, 0, im, w);
    } else {
      Arrive(m, o, below, 0, im, w);
    }
  }

  /** The word jumped to, entered with the cells of the word that jumps under it. */
  lemma JumpEnters(k: nat, at: nat, m: Machine, s: State, below: seq<Word>, im: Image, w: World)
    requires Compiled(im, w) && Rel(m, s, below, im, w) && m.pc == at && k < |w.defs|
    requires Loaded(im.words, at, [Address(im.dict, k)])
    ensures Rel(Step(m, w.bus), s.(r := []), s.r + below, im, w)
    ensures Step(m, w.bus).pc == im.dict[k] && WordLoaded(im, w, k)
  {
    assert WordLoaded(im, w, k);
    Fetch(m, at, [Address(im.dict, k)], 0, s, below, im, w);
    BranchStep(m, im.dict[k], s, below, im, w);
    assert [] + (s.r + below) == s.r + below;
  }

  lemma JumpOutcome(p: Prog, s: State, under: nat, fuel: nat, w: World)
    requires IsJump(p, w.jumps)
    ensures var k := p.first.word;
      ExecWord(p, s, under, fuel, w)
      == if k >= |w.defs| || under + |s.r| > STACK_CELLS then Stuck
         else if fuel == 0 then OutOfFuel(s)
         else JumpedBack(s, ExecWord(w.defs[k], s.(r := []), under + |s.r|, fuel - 1, w))
  {
  }

  lemma JumpRuns(k: nat, p: Prog, inner: Outcome, at: nat, m: Machine, s: State, below: seq<Word>, fuel: nat, im: Image, w: World)
    requires Compiled(im, w) && Rel(m, s, below, im, w) && |below| > 0 && m.pc == at
    requires k < |w.defs| && fuel > 0 && Loaded(im.words, at, [Address(im.dict, k)])
    requires inner == ExecWord(w.defs[k], s.(r := []), |below| + |s.r|, fuel - 1, w)
    ensures Leads(m, JumpedBack(s, inner), below, 0, im, w)
    decreases fuel, p, 0
  {
    JumpEnters(k, at, m, s, below, im, w);
    WordRuns(w.defs[k], im.dict[k], Step(m, w.bus), s.(r := []), s.r + below, fuel - 1, im, w);
    JumpCloses(m, s, inner, below, im, w);
  }

  lemma JumpCloses(m: Machine, s: State, inner: Outcome, below: seq<Word>, im: Image, w: World)
    requires m.Valid() && Leads(Step(m, w.bus), inner, s.r + below, 0, im, w) && !inner.Done?
    ensures Leads(m, JumpedBack(s, inner), below, 0, im, w)
  {
    JumpEnds(Step(m, w.bus), JumpedBack(s, inner), s, inner, s.r + below, below, im, w);
    StepThen(m, JumpedBack(s, inner), below, 0, im, w);
  }

  /** A word that was jumped to ends for the caller of the word that jumped. */
  lemma JumpEnds(m: Machine, o: Outcome, s: State, inner: Outcome, under: seq<Word>, below: seq<Word>, im: Image, w: World)
    requires Leads(m, inner, under, 0, im, w) && under == s.r + below && m.Valid() && o == JumpedBack(s, inner) && !inner.Done?
    ensures Leads(m, o, below, 0, im, w)
  {
    if o.OutOfFuel? {
      Elsewhere(m, o, under, 0, below, 0, im, w);
    } else if o.Returned? {
      assert under == below;
    } else {
      Open(m, o, below, 0, im, w);
    }
  }

  /** The last operation of a word with the return folded into it. */
  lemma FusedRuns(p: Prog, at: nat, m: Machine, s: State, below: seq<Word>, fuel: nat, im: Image, w: World)
    requires im.words.Keys <= w.code && Rel(m, s, below, im, w) && |below| > 0 && m.pc == at
    requires p.Then? && p.rest.End? && p.first.Alu? && Fusible(p.first.op)
    requires Loaded(im.words, at, [Fused(p.first.op)])
    ensures Leads(m, ExecWord(p, s, |below|, fuel, w), below, 0, im, w)
  {
    var op := p.first.op;
    FusedOutcome(p, s, |below|, fuel, w);
    if s.r == [] && AluSafe(op, s, |below|, w) {
      Fetch(m, at, [Fused(op)], 0, s, below, im, w);
      FusedStep(m, op, s, below, im, w);
      Home(Step(m, w.bus), Computed(op, s, |below|, w), below, im, w);
      StepThen(m, ExecWord(p, s, |below|, fuel, w), below, 0, im, w);
    } else {
      Open(m, Stuck, below, 0, im, w);
    }
  }

  lemma FusedOutcome(p: Prog, s: State, under: nat, fuel: nat, w: World)
    requires p.Then? && p.rest.End? && p.first.Alu? && Fusible(p.first.op)
    ensures var op := p.first.op;
      ExecWord(p, s, under, fuel, w)
      == if s.r == [] && AluSafe(op, s, under, w) then Returned(Computed(op, s, under, w)) else Stuck
  {
  }

  /** A last literal with bit 15 set: the inversion and the return are one operation. */
  lemma FusedLitRuns(p: Prog, at: nat, m: Machine, s: State, below: seq<Word>, fuel: nat, im: Image, w: World)
    requires im.words.Keys <= w.code && Rel(m, s, below, im, w) && |below| > 0 && m.pc == at
    requires p.Then? && p.rest.End? && p.first.Lit? && p.first.n >= 0x8000 && at + 2 < RAM_WORDS
    requires Loaded(im.words, at, [0x8000 + Not(p.first.n), 0x760C])
    ensures Leads(m, ExecWord(p, s, |below|, fuel, w), below, 0, im, w)
  {
    var n, code := p.first.n, [0x8000 + Not(p.first.n), 0x760C];
    LitOutcome(p, s, |below|, fuel, w);
    if s.r == [] {
      Fetch(m, at, code, 0, s, below, im, w);
      LiteralStep(m, Not(n), s, below, im, w);
      var one, t := Step(m, w.bus), Pushed(s, Not(n));
      Fetch(one, at, code, 1, t, below, im, w);
      Inverted(s, n, |below|, w);
      assert Fused(Invert()) == 0x760C;
      FusedStep(one, Invert(), t, below, im, w);
      Home(Step(one, w.bus), Pushed(s, n), below, im, w);
      StepThen(one, Returned(Pushed(s, n)), below, 0, im, w);
      StepThen(m, Returned(Pushed(s, n)), below, 0, im, w);
    } else {
      Open(m, Stuck, below, 0, im, w);
    }
  }

  lemma LitOutcome(p: Prog, s: State, under: nat, fuel: nat, w: World)
    requires p.Then? && p.rest.End? && p.first.Lit?
    ensures ExecWord(p, s, under, fuel, w) == if s.r == [] then Returned(Pushed(s, p.first.n)) else Stuck
  {
  }

  /** An item of a word and what follows it. */
  lemma FirstRuns(p: Prog, at: nat, m: Machine, s: State, below: seq<Word>, fuel: nat, im: Image, w: World)
    requires Compiled(im, w) && Rel(m, s, below, im, w) && |below| > 0 && m.pc == at
    requires p.Then? && !IsJump(p, w.jumps)
    requires var code := ItemCode(p.first, at, im.dict) + WordCode(p.rest, at + |ItemCode(p.first, at, im.dict)|, im.dict, w.jumps);
      Loaded(im.words, at, code) && at + |code| < RAM_WORDS
    ensures Leads(m, ExecWord(p, s, |below|, fuel, w), below, 0, im, w)
    decreases fuel, p, 0
  {
    var o, first := ExecWord(p, s, |below|, fuel, w), ExecItem(p.first, s, |below|, fuel, w);
    var code := ItemCode(p.first, at, im.dict);
    var mid := at + |code|;
    LoadedParts(im.words, at, code, WordCode(p.rest, mid, im.dict, w.jumps));
    ItemRuns(p.first, at, m, s, below, fuel, im, w);
    if first.Done? {
      var n := Middle(m, first.s, below, mid, im, w);
      WordRuns(p.rest, mid, n, first.s, below, fuel, im, w);
      After(m, n, o, below, 0, im, w);
    } else {
      Pass(m, o, below, mid, 0, im, w);
    }
  }

  /**
   A word, from its first cell to its caller, with every way it can end: a return, a call turned
   into a jump, or a return folded into the last operation.
   */
  lemma WordRuns(p: Prog, at: nat, m: Machine, s: State, below: seq<Word>, fuel: nat, im: Image, w: World)
    requires Compiled(im, w) && Rel(m, s, below, im, w) && |below| > 0 && m.pc == at
    requires var code := WordCode(p, at, im.dict, w.jumps);
      Loaded(im.words, at, code) && at + |code| < RAM_WORDS
    ensures Leads(m, ExecWord(p, s, |below|, fuel, w), below, 0, im, w)
    decreases fuel, p, 1
  {
    if p.End? {
      EndRuns(at, m, s, below, fuel, im, w);
    } else if IsJump(p, w.jumps) {
      var k := p.first.word;
      JumpOutcome(p, s, |below|, fuel, w);
      if k < |w.defs| && |below| + |s.r| <= STACK_CELLS && fuel > 0 {
        JumpRuns(k, p, ExecWord(w.defs[k], s.(r := []), |below| + |s.r|, fuel - 1, w), at, m, s, below, fuel, im, w);
      } else {
        Open(m, ExecWord(p, s, |below|, fuel, w), below, 0, im, w);
      }
    } else if p.rest.End? && w.jumps && p.first.Alu? && Fusible(p.first.op) {
      FusedRuns(p, at, m, s, below, fuel, im, w);
    } else if p.rest.End? && w.jumps && p.first.Lit? && p.first.n >= 0x8000 {
      FusedLitRuns(p, at, m, s, below, fuel, im, w);
    } else {
      FirstRuns(p, at, m, s, below, fuel, im, w);
    }
  }

  /**
   A call of word k, for any fuel: as far as its program gets, the machine gets, with the program's data
   stack, memory and bus accesses; and if the program ends, the machine is back at the caller with the
   return stack that was there before. A program that runs for ever gets on with every fuel.
   */
  lemma CompiledWordRuns(k: nat, m: Machine, s: State, below: seq<Word>, fuel: nat, im: Image, w: World) returns (n: Machine)
    requires Compiled(im, w) && k < |w.defs| && Rel(m, s, below, im, w) && |below| > 0 && m.pc == im.dict[k]
    requires !ExecWord(w.defs[k], s, |below|, fuel, w).Stuck?
    ensures var o := ExecWord(w.defs[k], s, |below|, fuel, w);
      && Goes(m, n, w.bus) && SameData(n, o.s, im, w)
      && (o.Returned? ==> n.pc == Target(below[0] / 2) && View(n.rstack, n.rsp, below[1..]))
  {
    assert WordLoaded(im, w, k);
    WordRuns(w.defs[k], im.dict[k], m, s, below, fuel, im, w);
    var o := ExecWord(w.defs[k], s, |below|, fuel, w);
    n :| Goes(m, n, w.bus) && Arrives(n, o, below, 0, im, w);
    if o.Returned? {
      assert o.s.r + below[1..] == below[1..];
    }
  }
}
