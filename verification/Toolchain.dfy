/**
 Compiler and processor together: what the cross-compiler leaves in memory, run by the processor, is
 what the definitions say, and the words it folds behave like the words it does not fold.
 */
module Toolchain {
  import opened Words
  import opened J1
  import opened Forth
  import opened CodeGen
  import opened Correctness
  import opened Peephole
  import opened CrossJ1

  function ImageOf(mem: seq<Word>, dict: seq<nat>): Image {
    Image(map a: nat | 0 <= a < |mem| :: mem[a], dict)
  }

  /** The first n cells are known to hold code. */
  ghost predicate InCode(n: nat, w: World) {
    forall a: nat :: a < n ==> a in w.code
  }

  /** Memory with every word stored in it is a compiled image. */
  lemma StoredIsCompiled(mem: seq<Word>, dict: seq<nat>, w: World)
    requires AllStored(mem, dict, w.defs, w.jumps) && |mem| < RAM_WORDS && InCode(|mem|, w)
    ensures Compiled(ImageOf(mem, dict), w)
  {
    var im := ImageOf(mem, dict);
    assert im.words.Keys <= w.code;
    forall k | 0 <= k < |w.defs|
      ensures WordLoaded(im, w, k)
    {
      assert WordStored(mem, dict, w.defs, w.jumps, k);
      SliceLoaded(mem, dict, dict[k], WordCode(w.defs[k], dict[k], dict, w.jumps));
    }
  }

  lemma SliceLoaded(mem: seq<Word>, dict: seq<nat>, at: nat, code: seq<Word>)
    requires at + |code| <= |mem| && mem[at..at + |code|] == code
    ensures Loaded(ImageOf(mem, dict).words, at, code)
  {
  }

  /**
   Whatever definitions were given to the compiler, in whatever state it is between definitions: the
   processor with its memory, called at a word, gets as far as the word's program gets with any fuel,
   and computes the same; and if the program ends, it comes back to the caller.
   */
  lemma CompilerOutputRuns(c: Compiler, k: nat, m: Machine, s: State, below: seq<Word>, fuel: nat, w: World)
    returns (n: Machine)
    requires c.Valid() && k < |c.defs| && w.defs == c.defs && w.jumps == c.folding && InCode(c.tdp, w)
    requires Rel(m, s, below, ImageOf(c.Laid(), c.dict), w) && |below| > 0 && |c.dict| == |c.defs| && m.pc == c.dict[k]
    requires !ExecWord(c.defs[k], s, |below|, fuel, w).Stuck?
    ensures var o := ExecWord(c.defs[k], s, |below|, fuel, w);
      && Goes(m, n, w.bus) && SameData(n, o.s, ImageOf(c.Laid(), c.dict), w)
      && (o.Returned? ==> n.pc == Target(below[0] / 2) && View(n.rstack, n.rsp, below[1..]))
  {
    StoredIsCompiled(c.Laid(), c.dict, w);
    n := CompiledWordRuns(k, m, s, below, fuel, ImageOf(c.Laid(), c.dict), w);
  }

  /**
   The same definitions through a compiler that folds and one that does not: called with the same
   data, both processors get as far as the program does, with the same data stack, bus accesses and
   data memory; and if it ends, both come back, each with the rest of its own return stack.
   */
  lemma FoldingIsInvisible(plain: Compiler, folded: Compiler, k: nat, a: Machine, b: Machine, s: State,
                           under: seq<Word>, less: seq<Word>, fuel: nat, w: World, v: World)
    returns (c: Machine, d: Machine)
    requires plain.Valid() && folded.Valid() && !plain.folding && folded.folding && plain.defs == folded.defs
    requires Folding(w, v) && w.defs == plain.defs && InCode(plain.tdp, w) && InCode(folded.tdp, w)
    requires k < |w.defs| == |plain.dict| == |folded.dict|
    requires Rel(a, s, under, ImageOf(plain.Laid(), plain.dict), w) && a.pc == plain.dict[k]
    requires Rel(b, s, less, ImageOf(folded.Laid(), folded.dict), v) && b.pc == folded.dict[k]
    requires 0 < |less| <= |under| && !ExecWord(w.defs[k], s, |under|, fuel, w).Stuck?
    ensures Goes(a, c, w.bus) && Goes(b, d, v.bus) && SameOutside(c, d, w.code)
    ensures ExecWord(w.defs[k], s, |under|, fuel, w).Returned? ==>
      && c.pc == Target(under[0] / 2) && View(c.rstack, c.rsp, under[1..])
      && d.pc == Target(less[0] / 2) && View(d.rstack, d.rsp, less[1..])
  {
    StoredIsCompiled(plain.Laid(), plain.dict, w);
    StoredIsCompiled(folded.Laid(), folded.dict, v);
    c, d := FoldedWordAgrees(k, a, b, s, under, less, fuel, ImageOf(plain.Laid(), plain.dict),
                             ImageOf(folded.Laid(), folded.dict), w, v);
  }

  /** The depth operation, and a word that only calls it. */
  function DepthDefs(): seq<Prog> {
    [Prog.Then(Alu(Op(14, true, false, false, 0, 1)), End), Prog.Then(Call(0), End)]
  }

  /**
   Programs that ask for the stack depth are left out with reason: a word that only calls `dsp`
   gives another answer when its call is turned into a jump, from every state it can start in.
   */
  lemma DepthSeesFolding(s: State, under: nat, w: World, v: World)
    requires w.defs == v.defs == DepthDefs() && !w.jumps && v.jumps && w.base == v.base
    requires s.r == [] && under + 1 < STACK_CELLS
    ensures var a, b := ExecWord(w.defs[1], s, under, 1, w), ExecWord(v.defs[1], s, under, 1, v);
      a.Returned? && b.Returned? && a.s.st0 != b.s.st0
  {
    var op: AluOp := Op(14, true, false, false, 0, 1);
    var word := w.defs[0];
    assert word == Prog.Then(Alu(op), End);
    var t, u := Computed(op, s, under + 1, w), Computed(op, s, under, v);
    assert ExecItem(word.first, s, under + 1, 0, w) == Done(t) && ExecItem(word.first, s, under, 0, v) == Done(u);
    assert ExecWord(word, s, under + 1, 0, w) == Returned(t);
    assert ExecWord(word, s, under, 0, v) == Returned(u);
    var caller := w.defs[1];
    assert s.(r := []) == s && t.(r := s.r) == t;
    assert ExecItem(caller.first, s, under, 1, w) == Done(t);
    assert ExecWord(caller.rest, t, under, 1, w) == Returned(t);
    assert (w.base + under + 1) % STACK_CELLS != (w.base + under) % STACK_CELLS;
  }
}
