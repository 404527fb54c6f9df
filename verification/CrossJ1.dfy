/**
 The cross-compiler of crossj1.fs: it lays down instructions in the target memory, patches the
 branches of open structures in place, keeps a table of labels, and at `;` looks back at the last
 word it laid down. Addresses count 16-bit cells.
 */
module CrossJ1 {
  import opened Words
  import opened J1
  import opened Forth
  import opened CodeGen

  const FLASH_CELLS := 0x4000

  // ---------------------------------------------------------------- patching laid-down code

  lemma PatchIn(a: seq<Word>, x: Word, b: seq<Word>, y: Word)
    ensures (a + [x] + b)[|a| := y] == a + ([y] + b)
  {
  }

  lemma IfElseLaid(a: seq<Word>, b: seq<Word>, c: seq<Word>, skip: nat, next: nat)
    requires skip == |a| + 2 + |b| && next == skip + |c| && next < RAM_WORDS
    ensures (a + ([0x2000 + skip] + b)) + ([next] + c) == a + IfElseCode(|a|, b, c)
  {
  }

  lemma WhileLaid(a: seq<Word>, b: seq<Word>, c: seq<Word>, next: nat)
    requires next == |a| + |b| + |c| + 2 && next < RAM_WORDS
    ensures (a + b + [0x2000] + c + [|a|])[|a + b| := 0x2000 + next] == a + WhileCode(|a|, b, c)
  {
  }

  lemma Regroup(a: seq<Word>, b: seq<Word>, c: seq<Word>)
    ensures (a + b) + c == a + (b + c)
  {
  }

  /** A branch target or'ed into an instruction that was laid down with none. */
  lemma OrTarget(high: nat, target: nat)
    requires target < RAM_WORDS && high <= 3
    ensures Or(0x2000 * high, target) == 0x2000 * high + target
  {
    Powers();
    OrLow(0x2000 * high, target, 13);
  }

  lemma OrImmediate(n: Word)
    requires n < 0x8000
    ensures Or(0x8000, n) == 0x8000 + n
  {
    assert Pow2(12) == 0x1000 && Pow2(15) == 0x8000 by {
      Powers();
    }
    OrLow(0x8000, n, 15);
  }

  lemma XorComplement(n: Word)
    ensures Xor(n, 0xFFFF) == Not(n)
  {
    WordPow2();
    XorOnes(n, 16);
  }

  // ---------------------------------------------------------------- words that only call earlier ones

  /** Every call is to a word that already has an address, itself included. */
  predicate CallsBelow(p: Prog, n: nat)
    decreases p
  {
    p.Then? ==> ItemCallsBelow(p.first, n) && CallsBelow(p.rest, n)
  }

  predicate ItemCallsBelow(it: Item, n: nat)
    decreases it
  {
    match it
    case Call(k) => k < n
    case If(yes) => CallsBelow(yes, n)
    case IfElse(yes, no) => CallsBelow(yes, n) && CallsBelow(no, n)
    case Until(body) => CallsBelow(body, n)
    case While(test, body) => CallsBelow(test, n) && CallsBelow(body, n)
    case Again(body) => CallsBelow(body, n)
    case _ => true
  }

  lemma {:induction false} ItemSameDict(it: Item, at: nat, d: seq<nat>, e: seq<nat>, code: seq<Word>)
    requires |d| <= |e| && d == e[..|d|] && ItemCallsBelow(it, |d|) && code == ItemCode(it, at, d)
    ensures ItemCode(it, at, e) == code
    decreases it
  {
    match it
    case Call(k) => assert d[k] == e[k];
    case If(yes) => SameDict(yes, at + 1, d, e, ProgCode(yes, at + 1, d));
    case IfElse(yes, no) =>
      var body := ProgCode(yes, at + 1, d);
      SameDict(yes, at + 1, d, e, body);
      SameDict(no, at + 2 + |body|, d, e, ProgCode(no, at + 2 + |body|, d));
    case Until(body) => SameDict(body, at, d, e, ProgCode(body, at, d));
    case While(test, body) =>
      var first := ProgCode(test, at, d);
      SameDict(test, at, d, e, first);
      SameDict(body, at + |first| + 1, d, e, ProgCode(body, at + |first| + 1, d));
    case Again(body) => SameDict(body, at, d, e, ProgCode(body, at, d));
    case _ =>
  }

  /** Later definitions do not change the code of earlier ones. */
  lemma {:induction false} SameDict(p: Prog, at: nat, d: seq<nat>, e: seq<nat>, code: seq<Word>)
    requires |d| <= |e| && d == e[..|d|] && CallsBelow(p, |d|) && code == ProgCode(p, at, d)
    ensures ProgCode(p, at, e) == code
    decreases p
  {
    if p.Then? {
      var first := ItemCode(p.first, at, d);
      ItemSameDict(p.first, at, d, e, first);
      SameDict(p.rest, at + |first|, d, e, ProgCode(p.rest, at + |first|, d));
    }
  }

  lemma SameWord(p: Prog, at: nat, d: seq<nat>, e: seq<nat>, folding: bool)
    requires |d| <= |e| && d == e[..|d|] && CallsBelow(p, |d|)
    ensures WordCode(p, at, d, folding) == WordCode(p, at, e, folding)
  {
    SameDict(p, at, d, e, ProgCode(p, at, d));
    if folding {
      PeepholeIsWordCode(p, at, d);
      PeepholeIsWordCode(p, at, e);
    } else {
      PlainIsWordCode(p, at, d);
      PlainIsWordCode(p, at, e);
    }
  }

  lemma {:induction false} CallsMoreItem(it: Item, n: nat, k: nat)
    requires ItemCallsBelow(it, n) && n <= k
    ensures ItemCallsBelow(it, k)
    decreases it
  {
    match it
    case If(yes) => CallsMore(yes, n, k);
    case IfElse(yes, no) =>
      CallsMore(yes, n, k);
      CallsMore(no, n, k);
    case Until(body) => CallsMore(body, n, k);
    case While(test, body) =>
      CallsMore(test, n, k);
      CallsMore(body, n, k);
    case Again(body) => CallsMore(body, n, k);
    case _ =>
  }

  lemma {:induction false} CallsMore(p: Prog, n: nat, k: nat)
    requires CallsBelow(p, n) && n <= k
    ensures CallsBelow(p, k)
    decreases p
  {
    if p.Then? {
      CallsMoreItem(p.first, n, k);
      CallsMore(p.rest, n, k);
    }
  }

  // ---------------------------------------------------------------- the words in memory

  /** Word k stands in memory as its program says. */
  ghost predicate WordStored(mem: seq<Word>, dict: seq<nat>, defs: seq<Prog>, folding: bool, k: nat)
    requires k < |dict| && k < |defs|
  {
    var code := WordCode(defs[k], dict[k], dict, folding);
    CallsBelow(defs[k], |dict|) && dict[k] + |code| <= |mem| && mem[dict[k]..dict[k] + |code|] == code
  }

  ghost predicate AllStored(mem: seq<Word>, dict: seq<nat>, defs: seq<Prog>, folding: bool) {
    && |dict| == |defs|
    && forall k :: 0 <= k < |defs| ==> WordStored(mem, dict, defs, folding, k)
  }

  lemma StoredBelow(mem: seq<Word>, dict: seq<nat>, defs: seq<Prog>, folding: bool)
    requires AllStored(mem, dict, defs, folding) && |mem| < RAM_WORDS
    ensures forall k :: 0 <= k < |dict| ==> dict[k] < RAM_WORDS
  {
    forall k | 0 <= k < |dict|
      ensures dict[k] < RAM_WORDS
    {
      assert WordStored(mem, dict, defs, folding, k);
    }
  }

  lemma StillStored(mem: seq<Word>, dict: seq<nat>, defs: seq<Prog>, folding: bool, k: nat,
                    code: seq<Word>, more: seq<nat>, all: seq<Prog>)
    requires k < |dict| && k < |defs| && WordStored(mem, dict, defs, folding, k)
    requires |more| == |dict| + 1 && dict == more[..|dict|] && |all| == |defs| + 1 && defs == all[..|defs|]
    ensures WordStored(mem + code, more, all, folding, k)
  {
    assert more[k] == dict[k] && all[k] == defs[k];
    SameWord(defs[k], dict[k], dict, more, folding);
    CallsMore(defs[k], |dict|, |more|);
    var kept := WordCode(defs[k], dict[k], dict, folding);
    assert (mem + code)[dict[k]..dict[k] + |kept|] == mem[dict[k]..dict[k] + |kept|];
  }

  /** A new word leaves the earlier ones as they are. */
  lemma StoreMore(mem: seq<Word>, dict: seq<nat>, defs: seq<Prog>, folding: bool, p: Prog)
    requires AllStored(mem, dict, defs, folding) && CallsBelow(p, |dict| + 1)
    ensures var more := dict + [|mem|];
      AllStored(mem + WordCode(p, |mem|, more, folding), more, defs + [p], folding)
  {
    var more, all := dict + [|mem|], defs + [p];
    var code := WordCode(p, |mem|, more, folding);
    assert (mem + code)[|mem|..|mem| + |code|] == code;
    assert WordStored(mem + code, more, all, folding, |defs|);
    forall k | 0 <= k < |defs|
      ensures WordStored(mem + code, more, all, folding, k)
    {
      assert WordStored(mem, dict, defs, folding, k);
      StillStored(mem, dict, defs, folding, k, code, more, all);
    }
  }

  /** What `;` leaves behind a word's program is the word's code. */
  lemma DefinedCode(p: Prog, at: nat, dict: seq<nat>, before: seq<Word>, code: seq<Word>, atLabel: bool, folding: bool)
    requires code == ProgCode(p, at, dict) && atLabel == LabelAfter(p)
    ensures (if folding then Closed(before + code, atLabel) else before + code + [RETURN])
            == before + WordCode(p, at, dict, folding)
  {
    PeepholeIsWordCode(p, at, dict);
    PlainIsWordCode(p, at, dict);
    if p.Then? {
      NonEmpty(p, at, dict);
      CloseAppend(before, code, atLabel);
    }
    Regroup(before, code, [RETURN]);
  }

  // ---------------------------------------------------------------- the compiler

  class Compiler {
    const tflash: array<Word>
    const labels: array<bool>
    var tdp: nat
    var dict: seq<nat>
    var compiling: bool
    ghost var defs: seq<Prog>

    /** The choice that `;` is written with: fold returns, or always lay one down. */
    const folding: bool

    /** There is room, and no label stands beyond the last cell laid down. */
    ghost predicate Ready()
      reads this, tflash, labels
    {
      && tflash.Length == FLASH_CELLS && labels.Length == FLASH_CELLS && tdp < RAM_WORDS
      && forall a :: tdp < a < labels.Length ==> !labels[a]
    }

    /** The cells laid down so far. */
    ghost function Laid(): (s: seq<Word>)
      requires tdp <= tflash.Length
      reads this, tflash
    {
      tflash[..tdp]
    }

    /** Between definitions: every word defined so far stands in memory. */
    ghost predicate Valid()
      reads this, tflash, labels
    {
      Ready() && !compiling && AllStored(Laid(), dict, defs, folding)
    }

    constructor (fold: bool)
      ensures Valid() && tdp == 0 && dict == [] && defs == [] && folding == fold && fresh(tflash) && fresh(labels)
    {
      tflash := new Word[FLASH_CELLS](_ => 0xFFFF);
      labels := new bool[FLASH_CELLS](_ => false);
      tdp, dict, compiling, defs, folding := 0, [], false, [], fold;
    }

    /** t, */
    method Lay(w: Word)
      requires Ready() && tdp + 1 < RAM_WORDS
      modifies this`tdp, tflash
      ensures Ready() && Laid() == old(Laid()) + [w] && tdp == old(tdp) + 1 && !labels[tdp]
    {
      tflash[tdp] := w;
      tdp := tdp + 1;
    }

    method SetLabel()
      requires Ready()
      modifies labels
      ensures Ready() && labels[tdp]
    {
      labels[tdp] := true;
    }

    /** imm */
    method Immediate(n: Word)
      requires Ready() && tdp + 1 < RAM_WORDS && n < 0x8000
      modifies this`tdp, tflash
      ensures Ready() && Laid() == old(Laid()) + [0x8000 + n] && tdp == old(tdp) + 1 && !labels[tdp]
    {
      OrImmediate(n);
      Lay(Or(0x8000, n));
    }

    /** (literal): bit 15 does not fit, so the complement is laid down and inverted. */
    method Literal(n: Word)
      requires Ready() && tdp + |LitCode(n)| < RAM_WORDS
      modifies this`tdp, tflash
      ensures Ready() && Laid() == old(Laid()) + LitCode(n) && tdp == old(tdp) + |LitCode(n)| && !labels[tdp]
      decreases n
    {
      if n >= 0x8000 {
        XorComplement(n);
        Literal(Xor(n, 0xFFFF));
        Lay(0x6600);
        Regroup(old(Laid()), [0x8000 + Not(n)], [0x6600]);
      } else {
        Immediate(n);
      }
    }

    /** ubranch, 0branch and scall: the target or'ed into the instruction. */
    method Branch(high: nat, target: nat)
      requires Ready() && tdp + 1 < RAM_WORDS && target < RAM_WORDS && high <= 2
      modifies this`tdp, tflash
      ensures Ready() && Laid() == old(Laid()) + [0x2000 * high + target] && tdp == old(tdp) + 1 && !labels[tdp]
    {
      OrTarget(high, target);
      Lay(Or(0x2000 * high, target));
    }

    /** The present address or'ed into the branch that was left open. */
    method Resolve(orig: nat)
      requires Ready() && orig < tdp && (tflash[orig] == 0 || tflash[orig] == 0x2000)
      modifies tflash
      ensures Ready() && Laid() == old(Laid())[orig := old(tflash[orig]) + tdp]
    {
      OrTarget(if tflash[orig] == 0 then 0 else 1, tdp);
      tflash[orig] := Or(tflash[orig], tdp);
    }

    method If() returns (orig: nat)
      requires Ready() && tdp + 1 < RAM_WORDS
      modifies this`tdp, tflash
      ensures Ready() && orig == old(tdp) && tdp == orig + 1 && Laid() == old(Laid()) + [0x2000] && !labels[tdp]
    {
      orig := tdp;
      Branch(1, 0);
    }

    method Then(orig: nat)
      requires Ready() && orig < tdp && (tflash[orig] == 0 || tflash[orig] == 0x2000)
      modifies tflash, labels
      ensures Ready() && Laid() == old(Laid())[orig := old(tflash[orig]) + tdp] && labels[tdp]
    {
      Resolve(orig);
      SetLabel();
    }

    method Else(orig: nat) returns (next: nat)
      requires Ready() && tdp + 1 < RAM_WORDS && orig < tdp && tflash[orig] == 0x2000
      modifies this`tdp, tflash, labels
      ensures Ready() && next == old(tdp) && tdp == next + 1
      ensures Laid() == old(Laid())[orig := 0x2000 + tdp] + [0]
    {
      next := tdp;
      Branch(0, 0);
      Resolve(orig);
      SetLabel();
    }

    method Begin() returns (dest: nat)
      requires Ready()
      modifies labels
      ensures Ready() && dest == tdp
    {
      SetLabel();
      dest := tdp;
    }

    method Repeat(dest: nat, orig: nat)
      requires Ready() && tdp + 1 < RAM_WORDS && dest < RAM_WORDS && orig < tdp && tflash[orig] == 0x2000
      modifies this`tdp, tflash, labels
      ensures Ready() && tdp == old(tdp) + 1 && labels[tdp]
      ensures Laid() == (old(Laid()) + [dest])[orig := 0x2000 + tdp]
    {
      Branch(0, dest);
      Resolve(orig);
      SetLabel();
    }

    ghost predicate Room(size: nat)
      reads this, tflash, labels
    {
      && Ready() && tdp + size < RAM_WORDS
      && forall k :: 0 <= k < |dict| ==> dict[k] < RAM_WORDS
    }

    /** The words of one structure, in the order in which the text names them. */
    method CompileItem(it: Item)
      requires ItemCallsBelow(it, |dict|) && Room(|ItemCode(it, tdp, dict)|)
      modifies this`tdp, tflash, labels
      ensures Ready() && Laid() == old(Laid()) + ItemCode(it, old(tdp), dict)
      ensures labels[tdp] == EndsAtLabel(it)
      decreases it, 1
    {
      match it
      case Lit(n) => Literal(n);
      case Alu(op) => Lay(Encode(op, false));
      case Call(k) => Branch(2, dict[k]);
      case If(yes) => CompileIf(yes, ProgCode(yes, tdp + 1, dict));
      case IfElse(yes, no) =>
        ghost var code := ProgCode(yes, tdp + 1, dict);
        CompileIfElse(yes, no, code, ProgCode(no, tdp + 2 + |code|, dict));
      case Until(body) => CompileUntil(body, ProgCode(body, tdp, dict));
      case While(test, body) =>
        ghost var first := ProgCode(test, tdp, dict);
        CompileWhile(test, body, first, ProgCode(body, tdp + |first| + 1, dict));
      case Again(body) => CompileAgain(body, ProgCode(body, tdp, dict));
      case Exit => Lay(RETURN);
    }

    method CompileIf(yes: Prog, ghost code: seq<Word>)
      requires CallsBelow(yes, |dict|) && code == ProgCode(yes, tdp + 1, dict) && Room(1 + |code|)
      modifies this`tdp, tflash, labels
      ensures Ready() && Laid() == old(Laid()) + IfCode(old(tdp), code) && labels[tdp]
      decreases Item.If(yes), 0
    {
      ghost var before := Laid();
      var orig := If();
      CompileProg(yes, code);
      assert tflash[orig] == Laid()[orig] == 0x2000;
      Then(orig);
      PatchIn(before, 0x2000, code, 0x2000 + tdp);
    }

    method CompileIfElse(yes: Prog, no: Prog, ghost code: seq<Word>, ghost other: seq<Word>)
      requires CallsBelow(yes, |dict|) && CallsBelow(no, |dict|) && Room(2 + |code| + |other|)
      requires code == ProgCode(yes, tdp + 1, dict) && other == ProgCode(no, tdp + 2 + |code|, dict)
      modifies this`tdp, tflash, labels
      ensures Ready() && Laid() == old(Laid()) + IfElseCode(old(tdp), code, other) && labels[tdp]
      decreases IfElse(yes, no), 0
    {
      ghost var before := Laid();
      var next := CompileYes(yes, code);
      ghost var skip := tdp;
      CompileNo(no, next, before + ([0x2000 + skip] + code), other);
      IfElseLaid(before, code, other, skip, tdp);
    }

    /** From the if to its else. */
    method CompileYes(yes: Prog, ghost code: seq<Word>) returns (next: nat)
      requires CallsBelow(yes, |dict|) && Room(2 + |code|) && code == ProgCode(yes, tdp + 1, dict)
      modifies this`tdp, tflash, labels
      ensures Ready() && tdp == next + 1 == old(tdp) + 2 + |code|
      ensures Laid() == old(Laid()) + ([0x2000 + tdp] + code) + [0]
      decreases yes, 2
    {
      ghost var before := Laid();
      var orig := If();
      CompileProg(yes, code);
      assert Laid() == before + [0x2000] + code;
      assert tflash[orig] == Laid()[orig] == 0x2000;
      next := Else(orig);
      PatchIn(before, 0x2000, code, 0x2000 + tdp);
    }

    /** From behind the else to its then. */
    method CompileNo(no: Prog, next: nat, ghost mid: seq<Word>, ghost other: seq<Word>)
      requires CallsBelow(no, |dict|) && other == ProgCode(no, tdp, dict) && Room(|other|)
      requires Laid() == mid + [0] && next == |mid|
      modifies this`tdp, tflash, labels
      ensures Ready() && tdp == old(tdp) + |other| && Laid() == mid + ([tdp] + other) && labels[tdp]
      decreases no, 2
    {
      CompileProg(no, other);
      assert tflash[next] == Laid()[next] == 0;
      Then(next);
      PatchIn(mid, 0, other, tdp);
    }

    method CompileUntil(body: Prog, ghost code: seq<Word>)
      requires CallsBelow(body, |dict|) && code == ProgCode(body, tdp, dict) && Room(1 + |code|)
      modifies this`tdp, tflash, labels
      ensures Ready() && Laid() == old(Laid()) + UntilCode(old(tdp), code) && !labels[tdp]
      decreases Until(body), 0
    {
      ghost var before := Laid();
      var dest := Begin();
      CompileProg(body, code);
      Branch(1, dest);
      Regroup(before, code, [0x2000 + dest]);
    }

    method CompileAgain(body: Prog, ghost code: seq<Word>)
      requires CallsBelow(body, |dict|) && code == ProgCode(body, tdp, dict) && Room(1 + |code|)
      modifies this`tdp, tflash, labels
      ensures Ready() && Laid() == old(Laid()) + AgainCode(old(tdp), code) && !labels[tdp]
      decreases Again(body), 0
    {
      ghost var before := Laid();
      var dest := Begin();
      CompileProg(body, code);
      Branch(0, dest);
      Regroup(before, code, [dest]);
    }

    method CompileWhile(test: Prog, body: Prog, ghost first: seq<Word>, ghost second: seq<Word>)
      requires CallsBelow(test, |dict|) && CallsBelow(body, |dict|) && Room(|first| + |second| + 2)
      requires first == ProgCode(test, tdp, dict) && second == ProgCode(body, tdp + |first| + 1, dict)
      modifies this`tdp, tflash, labels
      ensures Ready() && Laid() == old(Laid()) + WhileCode(old(tdp), first, second) && labels[tdp]
      decreases While(test, body), 0
    {
      ghost var before := Laid();
      var dest := Begin();
      CompileProg(test, first);
      CompileRepeat(body, dest, before, first, second);
    }

    /** From the while of a loop to its repeat. */
    method CompileRepeat(body: Prog, dest: nat, ghost before: seq<Word>, ghost first: seq<Word>, ghost second: seq<Word>)
      requires CallsBelow(body, |dict|) && Room(|second| + 2) && dest < RAM_WORDS
      requires second == ProgCode(body, tdp + 1, dict) && Laid() == before + first && dest == |before|
      modifies this`tdp, tflash, labels
      ensures Ready() && labels[tdp] && Laid() == before + WhileCode(dest, first, second)
      decreases body, 2
    {
      var orig := If();
      CompileProg(body, second);
      assert Laid() == before + first + [0x2000] + second;
      assert tflash[orig] == Laid()[orig] == 0x2000;
      Repeat(dest, orig);
      WhileLaid(before, first, second, tdp);
    }

    method CompileProg(p: Prog, ghost code: seq<Word>)
      requires CallsBelow(p, |dict|) && code == ProgCode(p, tdp, dict) && Room(|code|)
      modifies this`tdp, tflash, labels
      ensures Ready() && Laid() == old(Laid()) + code
      ensures labels[tdp] == if p.End? then old(labels[tdp]) else LabelAfter(p)
      decreases p, 1
    {
      if p.Then? {
        ghost var before, first := Laid(), ItemCode(p.first, tdp, dict);
        ghost var rest := ProgCode(p.rest, tdp + |first|, dict);
        CompileItem(p.first);
        CompileProg(p.rest, rest);
        Regroup(before, first, rest);
      }
    }

    /** t: gives the next word its address. */
    method Colon()
      requires Ready() && !compiling
      modifies this`dict, this`compiling, labels
      ensures Ready() && dict == old(dict) + [tdp] && compiling && labels[tdp]
    {
      SetLabel();
      dict := dict + [tdp];
      compiling := true;
    }

    /** t; looks at the last word laid down, unless a label stands behind it. */
    method Semi()
      requires Ready() && compiling && 0 < tdp && tdp + 1 < RAM_WORDS
      modifies this`tdp, this`compiling, tflash
      ensures Ready() && !compiling
      ensures Laid() == if folding then Closed(old(Laid()), old(labels[tdp])) else old(Laid()) + [RETURN]
    {
      var last := tflash[tdp - 1];
      if !folding {
        Lay(RETURN);
      } else if !labels[tdp] && last / 0x2000 == 2 {
        tflash[tdp - 1] := last % 0x2000;
      } else if !labels[tdp] && last / 0x2000 == 3 && !Bit(last, 6) && Field(last, 2, 2) == 0 {
        tflash[tdp - 1] := OrWord(OrWord(last, 0x1000), 0x000C);
      } else {
        Lay(RETURN);
      }
      compiling := false;
    }

    /** From the colon to the semicolon; a word may call itself. */
    method CompileWord(p: Prog, ghost code: seq<Word>)
      requires Ready() && !compiling && CallsBelow(p, |dict| + 1) && (p.Then? || tdp > 0)
      requires forall k :: 0 <= k < |dict| ==> dict[k] < RAM_WORDS
      requires code == ProgCode(p, tdp, dict + [tdp]) && tdp + |code| + 1 < RAM_WORDS
      modifies this`tdp, this`dict, this`compiling, tflash, labels
      ensures Ready() && !compiling && dict == old(dict) + [old(tdp)]
      ensures Laid() == old(Laid()) + WordCode(p, old(tdp), dict, folding)
    {
      ghost var before, at := Laid(), tdp;
      Colon();
      CompileProg(p, code);
      DefinedCode(p, at, dict, before, code, labels[tdp], folding);
      Semi();
    }

    /** A whole definition. */
    method Define(p: Prog)
      requires Valid() && CallsBelow(p, |dict| + 1) && (p.Then? || tdp > 0)
      requires tdp + |ProgCode(p, tdp, dict + [tdp])| + 1 < RAM_WORDS
      modifies this`tdp, this`dict, this`compiling, this`defs, tflash, labels
      ensures Valid() && dict == old(dict) + [old(tdp)] && defs == old(defs) + [p]
      ensures Laid() == old(Laid()) + WordCode(p, old(tdp), dict, folding)
    {
      StoreMore(Laid(), dict, defs, folding, p);
      StoredBelow(Laid(), dict, defs, folding);
      CompileWord(p, ProgCode(p, tdp, dict + [tdp]));
      defs := defs + [p];
    }
  }
}
