/**
 The peephole of `;` keeps the meaning of a program: whatever a word does when its final calls are
 calls and its returns are separate, it does when they are folded.
 */
module Peephole {
  import opened Words
  import opened J1
  import opened Forth
  import opened CodeGen
  import opened Correctness

  /** The program never asks for the stack depth, which counts the return cells that jumps save. */
  predicate NoDepthItem(it: Item)
    decreases it
  {
    match it
    case Alu(op) => op.sel != 14
    case If(yes) => NoDepth(yes)
    case IfElse(yes, no) => NoDepth(yes) && NoDepth(no)
    case Until(body) => NoDepth(body)
    case While(test, body) => NoDepth(test) && NoDepth(body)
    case Again(body) => NoDepth(body)
    case _ => true
  }

  predicate NoDepth(p: Prog)
    decreases p
  {
    p.Then? ==> NoDepthItem(p.first) && NoDepth(p.rest)
  }

  /** The same definitions, once with calls and returns kept apart and once folded. */
  ghost predicate Folding(w: World, v: World) {
    && !w.jumps && v.jumps && v.defs == w.defs && v.code == w.code && v.bus == w.bus
    && forall k :: 0 <= k < |w.defs| ==> NoDepth(w.defs[k])
  }

  /** As long as the run has a meaning, the other run gets to the same point. */
  predicate Kept(o: Outcome, other: Outcome) {
    !o.Stuck? ==> other == o
  }

  lemma AluKept(op: AluOp, s: State, under: nat, less: nat, w: World, v: World)
    requires Folding(w, v) && less <= under && op.sel != 14
    ensures AluSafe(op, s, under, w) ==>
      AluSafe(op, s, less, v) && Computed(op, s, less, v) == Computed(op, s, under, w)
  {
  }

  lemma {:induction false} ItemKept(it: Item, s: State, under: nat, less: nat, fuel: nat, w: World, v: World)
    requires Folding(w, v) && less <= under && NoDepthItem(it)
    ensures Kept(ExecItem(it, s, under, fuel, w), ExecItem(it, s, less, fuel, v))
    decreases fuel, it
  {
    match it
    case Lit(n) =>
    case Exit =>
    case Alu(op) => AluKept(op, s, under, less, w, v);
    case Call(k) =>
      if k < |w.defs| && under + |s.r| < STACK_CELLS && fuel > 0 {
        WordKept(w.defs[k], s.(r := []), under + |s.r| + 1, less + |s.r| + 1, fuel - 1, w, v);
      }
    case If(yes) => ProgKept(yes, Popped(s), under, less, fuel, w, v);
    case IfElse(yes, no) => ProgKept(if s.st0 == 0 then no else yes, Popped(s), under, less, fuel, w, v);
    case Until(body) =>
      ProgKept(body, s, under, less, fuel, w, v);
      var first := ExecProg(body, s, under, fuel, w);
      if first.Done? && first.s.st0 == 0 && fuel > 0 {
        ItemKept(it, Popped(first.s), under, less, fuel - 1, w, v);
      }
    case While(test, body) => WhileKept(it, s, under, less, fuel, w, v);
    case Again(body) =>
      ProgKept(body, s, under, less, fuel, w, v);
      var first := ExecProg(body, s, under, fuel, w);
      if first.Done? && fuel > 0 {
        ItemKept(it, first.s, under, less, fuel - 1, w, v);
      }
  }

  lemma {:induction false} WhileKept(it: Item, s: State, under: nat, less: nat, fuel: nat, w: World, v: World)
    requires Folding(w, v) && less <= under && NoDepthItem(it) && it.While?
    ensures Kept(ExecItem(it, s, under, fuel, w), ExecItem(it, s, less, fuel, v))
    decreases fuel, it, 0
  {
    ProgKept(it.test, s, under, less, fuel, w, v);
    var first := ExecProg(it.test, s, under, fuel, w);
    if first.Done? && first.s.st0 != 0 {
      var t := Popped(first.s);
      ProgKept(it.body, t, under, less, fuel, w, v);
      var second := ExecProg(it.body, t, under, fuel, w);
      if second.Done? && fuel > 0 {
        ItemKept(it, second.s, under, less, fuel - 1, w, v);
      }
    }
  }

  lemma {:induction false} ProgKept(p: Prog, s: State, under: nat, less: nat, fuel: nat, w: World, v: World)
    requires Folding(w, v) && less <= under && NoDepth(p)
    ensures Kept(ExecProg(p, s, under, fuel, w), ExecProg(p, s, less, fuel, v))
    decreases fuel, p
  {
    if p.Then? {
      ItemKept(p.first, s, under, less, fuel, w, v);
      var first := ExecItem(p.first, s, under, fuel, w);
      if first.Done? {
        ProgKept(p.rest, first.s, under, less, fuel, w, v);
      }
    }
  }

  /** A final call returns for its caller, and a jump in its place does the same with one cell less. */
  lemma {:induction false} JumpKept(p: Prog, s: State, under: nat, less: nat, fuel: nat, w: World, v: World)
    requires Folding(w, v) && less <= under && IsJump(p, true)
    ensures Kept(ExecWord(p, s, under, fuel, w), ExecWord(p, s, less, fuel, v))
    decreases fuel, p, 0
  {
    var k := p.first.word;
    if k < |w.defs| && under + |s.r| < STACK_CELLS && fuel > 0 {
      WordKept(w.defs[k], s.(r := []), under + |s.r| + 1, less + |s.r|, fuel - 1, w, v);
      var inner := ExecWord(w.defs[k], s.(r := []), under + |s.r| + 1, fuel - 1, w);
      if inner.Returned? {
        var t := inner.s.(r := s.r);
        assert ExecItem(p.first, s, under, fuel, w) == Done(t);
        assert ExecWord(p.rest, t, under, fuel, w) == if s.r == [] then Returned(t) else Stuck;
        if s.r == [] {
          assert s.(r := []) == s && t == inner.s;
        }
      }
    }
  }

  lemma {:induction false} WordKept(p: Prog, s: State, under: nat, less: nat, fuel: nat, w: World, v: World)
    requires Folding(w, v) && less <= under && NoDepth(p)
    ensures Kept(ExecWord(p, s, under, fuel, w), ExecWord(p, s, less, fuel, v))
    decreases fuel, p
  {
    if IsJump(p, true) {
      JumpKept(p, s, under, less, fuel, w, v);
    } else if p.Then? {
      ItemKept(p.first, s, under, less, fuel, w, v);
      var first := ExecItem(p.first, s, under, fuel, w);
      if first.Done? {
        WordKept(p.rest, first.s, under, less, fuel, w, v);
      }
    }
  }

  /**
   Two machines, one with the plain image and one with the folded image of the same definitions,
   called with the same data and with their own return stacks: as far as the program gets, both get,
   with the same data stack, the same bus accesses and the same memory wherever there is no code; and
   if it ends, both are back at their callers, each with the rest of its return stack.
   */
  lemma FoldedWordAgrees(k: nat, a: Machine, b: Machine, s: State, under: seq<Word>, less: seq<Word>,
                         fuel: nat, im: Image, jm: Image, w: World, v: World) returns (c: Machine, d: Machine)
    requires Folding(w, v) && Compiled(im, w) && Compiled(jm, v) && k < |w.defs|
    requires Rel(a, s, under, im, w) && a.pc == im.dict[k]
    requires Rel(b, s, less, jm, v) && b.pc == jm.dict[k] && 0 < |less| <= |under|
    requires !ExecWord(w.defs[k], s, |under|, fuel, w).Stuck?
    ensures Goes(a, c, w.bus) && Goes(b, d, v.bus) && SameOutside(c, d, w.code)
    ensures ExecWord(w.defs[k], s, |under|, fuel, w).Returned? ==>
      && c.pc == Target(under[0] / 2) && View(c.rstack, c.rsp, under[1..])
      && d.pc == Target(less[0] / 2) && View(d.rstack, d.rsp, less[1..])
  {
    WordKept(w.defs[k], s, |under|, |less|, fuel, w, v);
    c := CompiledWordRuns(k, a, s, under, fuel, im, w);
    d := CompiledWordRuns(k, b, s, less, fuel, jm, v);
  }

  /** The same data stack, bus accesses and memory outside some cells. */
  ghost predicate SameOutside(c: Machine, d: Machine, code: set<nat>) {
    && c.Valid() && d.Valid()
    && c.dsp == d.dsp && c.st0 == d.st0 && c.dstack == d.dstack && c.log == d.log
    && forall i :: 0 <= i < RAM_WORDS && i !in code ==> c.ram[i] == d.ram[i]
  }
}
