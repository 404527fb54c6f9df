/**
 The structured language that the cross-compiler accepts between `:` and `;`, and what its programs
 do: the data stack, the memory and the bus are those of the processor, while the return stack is
 seen one word at a time, so that no program depends on where it was called from.
 */
module Forth {
  import opened Words
  import opened J1

  type AluOp = op: Op | op.Valid() witness Op(0, false, false, false, 0, 0)

  datatype Item =
    | Lit(n: Word)
    | Alu(op: AluOp)
    | Call(word: nat)
    | If(yes: Prog)
    | IfElse(yes: Prog, no: Prog)
    | Until(body: Prog)
    | While(test: Prog, body: Prog)
    | Again(body: Prog)
    | Exit

  datatype Prog = End | Then(first: Item, rest: Prog)

  /** r holds what the running word itself has put on the return stack, top first. */
  datatype RawState = State(
    dsp: nat,
    st0: Word,
    dstack: seq<Word>,
    r: seq<Word>,
    ram: seq<Word>,
    log: seq<Access>)
  {
    predicate Valid() {
      dsp < STACK_CELLS && |dstack| == STACK_CELLS && |ram| == RAM_WORDS
    }
  }

  type State = s: RawState | s.Valid()
    witness State(0, 0, seq(STACK_CELLS, _ => 0), [], seq(RAM_WORDS, _ => 0), [])

  /** With its fuel used up a run has got as far as a state; stuck, it has no meaning. */
  datatype Outcome = Done(s: State) | Returned(s: State) | OutOfFuel(s: State) | Stuck

  /**
   The definitions a program may call, the addresses that hold code and so are no data, where the
   return stack of the run began, the bus, and whether a final call keeps the caller's return cell
   (a call) or gives it away (a jump).
   */
  datatype World = World(defs: seq<Prog>, code: set<nat>, base: nat, bus: Bus, jumps: bool)

  // ---------------------------------------------------------------- the return stack of one word

  /** How many cells an operation takes off the return stack before it stores one, if it does. */
  function Taken(op: Op): int {
    (if op.tr then 1 else 0) - Delta(op.rd)
  }

  /** The operation uses cells of this word only, and 32 cells are enough. */
  predicate FrameSafe(op: Op, r: seq<Word>, under: nat) {
    && 0 <= Taken(op) <= |r|
    && (op.sel == 11 ==> |r| > 0)
    && under + |r| + Delta(op.rd) <= STACK_CELLS
  }

  function FrameMoved(op: Op, r: seq<Word>, x: Word): seq<Word>
    requires 0 <= Taken(op) <= |r|
  {
    (if op.tr then [x] else []) + r[Taken(op)..]
  }

  // ---------------------------------------------------------------- single instructions

  function Pushed(s: State, n: Word): State {
    var dsp := Moved(s.dsp, 1);
    s.(dsp := dsp, st0 := n, dstack := s.dstack[dsp := s.st0])
  }

  function Popped(s: State): State {
    s.(dsp := Moved(s.dsp, 3), st0 := s.dstack[s.dsp])
  }

  function Result(op: AluOp, s: State, under: nat, w: World): Word {
    AluResult(op.sel, s.st0, s.dstack[s.dsp], if s.r == [] then 0 else s.r[0],
              (w.base + under + |s.r|) % STACK_CELLS, s.dsp, DataIn(s.ram, s.log, s.st0, w.bus))
  }

  /** The operation stays within this word's return cells and does not touch code. */
  predicate AluSafe(op: AluOp, s: State, under: nat, w: World) {
    && FrameSafe(op, s.r, under)
    && (op.sel == 12 && s.st0 < 0x4000 ==> s.st0 / 2 !in w.code)
    && (op.nm && Result(op, s, under, w) < 0x4000 ==> Result(op, s, under, w) / 2 !in w.code)
  }

  function Computed(op: AluOp, s: State, under: nat, w: World): State
    requires AluSafe(op, s, under, w)
  {
    var st1, din, result := s.dstack[s.dsp], DataIn(s.ram, s.log, s.st0, w.bus), Result(op, s, under, w);
    var dsp := Moved(s.dsp, op.dd);
    State(dsp, result, if op.tn then s.dstack[dsp := s.st0] else s.dstack, FrameMoved(op, s.r, s.st0),
          Stored(op, s.ram, result, st1), Accesses(op, s.log, s.st0, st1, din))
  }

  // ---------------------------------------------------------------- programs

  /** A loop goes round, or a word is entered, at most fuel times one inside the other. */
  function ExecItem(it: Item, s: State, under: nat, fuel: nat, w: World): (o: Outcome)
    ensures o.Returned? ==> o.s.r == []
    decreases fuel, it
  {
    match it
    case Lit(n) => Done(Pushed(s, n))
    case Alu(op) => if AluSafe(op, s, under, w) then Done(Computed(op, s, under, w)) else Stuck
    case Call(k) =>
      if k >= |w.defs| || under + |s.r| >= STACK_CELLS then Stuck
      else if fuel == 0 then OutOfFuel(s)
      else (match ExecWord(w.defs[k], s.(r := []), under + |s.r| + 1, fuel - 1, w)
            case Returned(t) => Done(t.(r := s.r))
            case o => o)
    case If(yes) => if s.st0 == 0 then Done(Popped(s)) else ExecProg(yes, Popped(s), under, fuel, w)
    case IfElse(yes, no) => ExecProg(if s.st0 == 0 then no else yes, Popped(s), under, fuel, w)
    case Until(body) =>
      (match ExecProg(body, s, under, fuel, w)
       case Done(t) =>
         if t.st0 != 0 then Done(Popped(t))
         else if fuel == 0 then OutOfFuel(Popped(t)) else ExecItem(it, Popped(t), under, fuel - 1, w)
       case o => o)
    case While(test, body) =>
      (match ExecProg(test, s, under, fuel, w)
       case Done(t) =>
         if t.st0 == 0 then Done(Popped(t))
         else (match ExecProg(body, Popped(t), under, fuel, w)
               case Done(u) => if fuel == 0 then OutOfFuel(u) else ExecItem(it, u, under, fuel - 1, w)
               case o => o)
       case o => o)
    case Again(body) =>
      (match ExecProg(body, s, under, fuel, w)
       case Done(t) => if fuel == 0 then OutOfFuel(t) else ExecItem(it, t, under, fuel - 1, w)
       case o => o)
    case Exit => if s.r == [] then Returned(s) else Stuck
  }

  function ExecProg(p: Prog, s: State, under: nat, fuel: nat, w: World): (o: Outcome)
    ensures o.Returned? ==> o.s.r == []
    decreases fuel, p
  {
    match p
    case End => Done(s)
    case Then(first, rest) =>
      match ExecItem(first, s, under, fuel, w)
      case Done(t) => ExecProg(rest, t, under, fuel, w)
      case o => o
  }

  /** The last item of a word, when it is a call and calls in that place jump. */
  predicate IsJump(p: Prog, jumps: bool) {
    jumps && p.Then? && p.rest.End? && p.first.Call?
  }

  /** A word that is jumped to returns for its caller, and so must find no cells of the caller's own. */
  function JumpedBack(s: State, o: Outcome): Outcome {
    if o.Returned? && s.r != [] then Stuck else o
  }

  /** A word from its first item, or from a later one, to its return: nothing of its own is left. */
  function ExecWord(p: Prog, s: State, under: nat, fuel: nat, w: World): (o: Outcome)
    ensures !o.Done? && (o.Returned? ==> o.s.r == [])
    decreases fuel, p
  {
    if p.End? then
      if s.r == [] then Returned(s) else Stuck
    else if IsJump(p, w.jumps) then
      if p.first.word >= |w.defs| || under + |s.r| > STACK_CELLS then Stuck
      else if fuel == 0 then OutOfFuel(s)
      else JumpedBack(s, ExecWord(w.defs[p.first.word], s.(r := []), under + |s.r|, fuel - 1, w))
    else
      match ExecItem(p.first, s, under, fuel, w)
      case Done(t) => ExecWord(p.rest, t, under, fuel, w)
      case o => o
  }

  // ---------------------------------------------------------------- fuel is only a bound

  /** More fuel changes nothing about a run that has not used it up. */
  predicate Settled(o: Outcome, more: Outcome) {
    !o.OutOfFuel? ==> more == o
  }

  lemma {:induction false} ItemSettled(it: Item, s: State, under: nat, fuel: nat, w: World)
    ensures Settled(ExecItem(it, s, under, fuel, w), ExecItem(it, s, under, fuel + 1, w))
    decreases fuel, it
  {
    match it
    case Call(k) =>
      if k < |w.defs| && under + |s.r| < STACK_CELLS && fuel > 0 {
        WordSettled(w.defs[k], s.(r := []), under + |s.r| + 1, fuel - 1, w);
      }
    case If(yes) => ProgSettled(yes, Popped(s), under, fuel, w);
    case IfElse(yes, no) => ProgSettled(if s.st0 == 0 then no else yes, Popped(s), under, fuel, w);
    case Until(body) =>
      ProgSettled(body, s, under, fuel, w);
      var first := ExecProg(body, s, under, fuel, w);
      if first.Done? && fuel > 0 {
        ItemSettled(it, Popped(first.s), under, fuel - 1, w);
      }
    case While(test, body) =>
      ProgSettled(test, s, under, fuel, w);
      var first := ExecProg(test, s, under, fuel, w);
      if first.Done? {
        ProgSettled(body, Popped(first.s), under, fuel, w);
        var second := ExecProg(body, Popped(first.s), under, fuel, w);
        if second.Done? && fuel > 0 {
          ItemSettled(it, second.s, under, fuel - 1, w);
        }
      }
    case Again(body) =>
      ProgSettled(body, s, under, fuel, w);
      var first := ExecProg(body, s, under, fuel, w);
      if first.Done? && fuel > 0 {
        ItemSettled(it, first.s, under, fuel - 1, w);
      }
    case _ =>
  }

  lemma {:induction false} ProgSettled(p: Prog, s: State, under: nat, fuel: nat, w: World)
    ensures Settled(ExecProg(p, s, under, fuel, w), ExecProg(p, s, under, fuel + 1, w))
    decreases fuel, p
  {
    if p.Then? {
      ItemSettled(p.first, s, under, fuel, w);
      var first := ExecItem(p.first, s, under, fuel, w);
      if first.Done? {
        ProgSettled(p.rest, first.s, under, fuel, w);
      }
    }
  }

  lemma {:induction false} WordSettled(p: Prog, s: State, under: nat, fuel: nat, w: World)
    ensures Settled(ExecWord(p, s, under, fuel, w), ExecWord(p, s, under, fuel + 1, w))
    decreases fuel, p
  {
    if IsJump(p, w.jumps) {
      if p.first.word < |w.defs| && fuel > 0 {
        WordSettled(w.defs[p.first.word], s.(r := []), under + |s.r|, fuel - 1, w);
      }
    } else if p.Then? {
      ItemSettled(p.first, s, under, fuel, w);
      var first := ExecItem(p.first, s, under, fuel, w);
      if first.Done? {
        WordSettled(p.rest, first.s, under, fuel, w);
      }
    }
  }

  /** With whatever fuel a word ends, it ends in the same way. */
  lemma {:induction false} WordDetermined(p: Prog, s: State, under: nat, fuel: nat, more: nat, w: World)
    requires fuel <= more && !ExecWord(p, s, under, fuel, w).OutOfFuel?
    ensures ExecWord(p, s, under, more, w) == ExecWord(p, s, under, fuel, w)
    decreases more
  {
    if fuel < more {
      WordDetermined(p, s, under, fuel, more - 1, w);
      WordSettled(p, s, under, more - 1, w);
    }
  }
}
