/**
 The code that the cross-compiler leaves in memory for a structured program, as a function of the
 program and of the cell where it starts.
 */
module CodeGen {
  import opened Words
  import opened J1
  import opened Forth

  const RETURN: Word := 0x700C

  function Target(a: nat): Word {
    a % RAM_WORDS
  }

  /** A return address leads behind the call. */
  lemma BackAfter(pc: nat)
    requires pc + 1 < RAM_WORDS
    ensures Target(2 * (pc + 1) / 2) == pc + 1
  {
  }

  /** Bit 15 of a literal does not fit: the complement is pushed and inverted. */
  function LitCode(n: Word): seq<Word> {
    if n < 0x8000 then [0x8000 + n] else [0x8000 + Not(n), 0x6600]
  }

  function Address(dict: seq<nat>, k: nat): Word {
    if k < |dict| then Target(dict[k]) else 0
  }

  // The structures, around the code of what stands inside them.

  function IfCode(at: nat, body: seq<Word>): seq<Word> {
    [0x2000 + Target(at + 1 + |body|)] + body
  }

  function IfElseCode(at: nat, body: seq<Word>, other: seq<Word>): seq<Word> {
    [0x2000 + Target(at + 2 + |body|)] + (body + [Target(at + 2 + |body| + |other|)]) + other
  }

  function UntilCode(at: nat, body: seq<Word>): seq<Word> {
    body + [0x2000 + Target(at)]
  }

  function WhileCode(at: nat, test: seq<Word>, body: seq<Word>): seq<Word> {
    test + [0x2000 + Target(at + |test| + |body| + 2)] + (body + [Target(at)])
  }

  function AgainCode(at: nat, body: seq<Word>): seq<Word> {
    body + [Target(at)]
  }

  function ItemCode(it: Item, at: nat, dict: seq<nat>): seq<Word>
    decreases it
  {
    match it
    case Lit(n) => LitCode(n)
    case Alu(op) => [Encode(op, false)]
    case Call(k) => [0x4000 + Address(dict, k)]
    case If(yes) => IfCode(at, ProgCode(yes, at + 1, dict))
    case IfElse(yes, no) =>
      var body := ProgCode(yes, at + 1, dict);
      IfElseCode(at, body, ProgCode(no, at + 2 + |body|, dict))
    case Until(body) => UntilCode(at, ProgCode(body, at, dict))
    case While(test, body) =>
      var first := ProgCode(test, at, dict);
      WhileCode(at, first, ProgCode(body, at + |first| + 1, dict))
    case Again(body) => AgainCode(at, ProgCode(body, at, dict))
    case Exit => [RETURN]
  }

  function ProgCode(p: Prog, at: nat, dict: seq<nat>): seq<Word>
    decreases p
  {
    match p
    case End => []
    case Then(first, rest) =>
      var code := ItemCode(first, at, dict);
      code + ProgCode(rest, at + |code|, dict)
  }

  /** The return folded into the last ALU operation. */
  function Fused(op: AluOp): Word {
    Encode(op.(rd := 3), true)
  }

  predicate Fusible(op: Op) {
    op.rd == 0 && !op.tr
  }

  /** What `;` makes of the last item of a word, with its own return if nothing is folded. */
  function LastCode(it: Item, at: nat, dict: seq<nat>, jumps: bool): seq<Word> {
    if jumps && it.Call? then [Address(dict, it.word)]
    else if jumps && it.Alu? && Fusible(it.op) then [Fused(it.op)]
    else if jumps && it.Lit? && it.n >= 0x8000 then [0x8000 + Not(it.n), 0x760C]
    else ItemCode(it, at, dict) + [RETURN]
  }

  function WordCode(p: Prog, at: nat, dict: seq<nat>, jumps: bool): seq<Word>
    decreases p
  {
    if p.End? then [RETURN]
    else if p.rest.End? then LastCode(p.first, at, dict, jumps)
    else
      var code := ItemCode(p.first, at, dict);
      code + WordCode(p.rest, at + |code|, dict, jumps)
  }

  // ---------------------------------------------------------------- the peephole of `;`

  predicate PrevCall(code: seq<Word>) {
    |code| > 0 && code[|code| - 1] / 0x2000 == 2
  }

  /** The last word is an ALU operation that leaves the return stack alone. */
  predicate PrevSafe(code: seq<Word>) {
    && |code| > 0 && code[|code| - 1] / 0x2000 == 3
    && !Bit(code[|code| - 1], 6) && Field(code[|code| - 1], 2, 2) == 0
  }

  /** `;` with nothing but the emitted words and the label table to go by. */
  function Closed(code: seq<Word>, atLabel: bool): seq<Word> {
    var n := |code| - 1;
    if !atLabel && PrevCall(code) then code[n := code[n] % 0x2000]
    else if !atLabel && PrevSafe(code) then code[n := OrWord(OrWord(code[n], 0x1000), 0x000C)]
    else code + [RETURN]
  }

  /** A label stands behind the item: it ends in then, else ... then or repeat. */
  predicate EndsAtLabel(it: Item) {
    it.If? || it.IfElse? || it.While?
  }

  predicate LabelAfter(p: Prog)
    decreases p
  {
    if p.End? then true
    else if p.rest.End? then EndsAtLabel(p.first)
    else LabelAfter(p.rest)
  }

  lemma Halve(a: nat, b: nat)
    ensures Or(a, b) == 2 * Or(a / 2, b / 2) + (if a % 2 == 1 || b % 2 == 1 then 1 else 0)
  {
  }

  lemma {:induction false} OrBit(a: nat, n: nat)
    requires (a / Pow2(n)) % 2 == 0
    ensures Or(a, Pow2(n)) == a + Pow2(n)
  {
    Halve(a, Pow2(n));
    if n == 0 {
      assert Pow2(n) == 1;
      assert Or(a / 2, 0) == a / 2;
    } else {
      var p := Pow2(n - 1);
      assert Pow2(n) == 2 * p;
      HalfQuotient(a, p);
      OrBit(a / 2, n - 1);
    }
  }

  /** Setting the return bit and r-1 in an operation that leaves the return stack alone. */
  lemma OrReturn(op: AluOp)
    requires Fusible(op)
    ensures Or(Or(Encode(op, false), 0x1000), 0x000C) == Fused(op)
  {
    var n := Encode(op, false);
    var a, c := if op.tn then 1 else 0, if op.nm then 1 else 0;
    LowEnds(n, 0, op.sel, a, 0, c, 0, op.dd);
    OrBits(n);
  }

  lemma OrUnderLow(a: nat, m: nat)
    ensures Or(a, 4 * m) == 4 * Or(a / 4, m) + a % 4
  {
  }

  lemma OrTwelve(m: nat)
    requires (m / 4) % 4 == 0
    ensures Or(m, 12) == m + 12
  {
    var q := m / 4;
    OrUnderLow(m, 3);
    assert Pow2(2) == 4;
    OrLow(q, 3, 2);
  }

  lemma OrBits(n: Word)
    requires (n / 4) % 4 == 0 && (n / 4096) % 2 == 0
    ensures Or(Or(n, 0x1000), 0x000C) == n + 0x100C
  {
    Or4096(n);
    LowField(n);
    OrTwelve(n + 0x1000);
  }

  lemma LowField(n: nat)
    ensures ((n + 0x1000) / 4) % 4 == (n / 4) % 4
  {
    assert (n + 0x1000) / 4 == n / 4 + 0x400;
  }

  lemma Or4096(n: nat)
    requires (n / 4096) % 2 == 0
    ensures Or(n, 0x1000) == n + 0x1000
  {
    var p := Pow2(12);
    Powers();
    assert p == 0x1000;
    OrBit(n, 12);
  }

  /** The items whose last word `;` changes. */
  predicate Folds(it: Item) {
    it.Call? || (it.Alu? && Fusible(it.op)) || (it.Lit? && it.n >= 0x8000)
  }

  /** Which words look like a call or a fusible operation to `;`. */
  lemma LastWord(it: Item, at: nat, dict: seq<nat>, code: seq<Word>)
    requires code == ItemCode(it, at, dict)
    ensures |code| > 0
    ensures !EndsAtLabel(it) ==> (PrevCall(code) <==> it.Call?) && (PrevSafe(code) <==> Folds(it) && !it.Call?)
  {
    Powers();
    match it
    case Alu(op) =>
      DecodeEncode(op, false);
      var d := Decode(Encode(op, false));
      assert d.tr == op.tr && d.rd == op.rd;
    case Exit =>
      FieldIs(RETURN, 2, 2, 4, 4);
    case Lit(n) =>
      FieldIs(0x6600, 2, 2, 4, 4);
      FieldIs(0x6600, 6, 1, 64, 2);
    case _ =>
  }

  lemma CloseFolded(it: Item, at: nat, dict: seq<nat>, code: seq<Word>)
    requires Folds(it) && code == ItemCode(it, at, dict)
    ensures Closed(code, false) == LastCode(it, at, dict, true)
  {
    LastWord(it, at, dict, code);
    match it
    case Alu(op) => OrReturn(op);
    case Lit(n) => OrBits(0x6600);
    case Call(k) =>
  }

  /** `;` after a single item. */
  lemma CloseOne(it: Item, at: nat, dict: seq<nat>, code: seq<Word>)
    requires code == ItemCode(it, at, dict)
    ensures Closed(code, EndsAtLabel(it)) == LastCode(it, at, dict, true)
  {
    if Folds(it) {
      CloseFolded(it, at, dict, code);
    } else {
      LastWord(it, at, dict, code);
      NotFolded(code, EndsAtLabel(it));
      assert LastCode(it, at, dict, true) == code + [RETURN];
    }
  }

  lemma NotFolded(code: seq<Word>, atLabel: bool)
    requires atLabel || (!PrevCall(code) && !PrevSafe(code))
    ensures Closed(code, atLabel) == code + [RETURN]
  {
  }

  lemma CloseAppend(a: seq<Word>, b: seq<Word>, atLabel: bool)
    requires |b| > 0
    ensures Closed(a + b, atLabel) == a + Closed(b, atLabel)
  {
  }

  lemma {:induction false} ClosedProg(p: Prog, at: nat, dict: seq<nat>, all: seq<Word>)
    requires all == ProgCode(p, at, dict)
    ensures Closed(all, LabelAfter(p)) == WordCode(p, at, dict, true)
    decreases p
  {
    if p.Then? {
      var code := ItemCode(p.first, at, dict);
      var rest := ProgCode(p.rest, at + |code|, dict);
      assert all == code + rest;
      if p.rest.End? {
        assert code + rest == code;
        CloseOne(p.first, at, dict, code);
      } else {
        ClosedProg(p.rest, at + |code|, dict, rest);
        NonEmpty(p.rest, at + |code|, dict);
        CloseAppend(code, rest, LabelAfter(p.rest));
      }
    }
  }

  /**
   The peephole, which sees only words and labels, does exactly what LastCode says: it turns a last
   call into a jump and folds the return into a last operation that leaves the return stack alone,
   and it never mistakes the end of a branch or a loop for either.
   */
  lemma PeepholeIsWordCode(p: Prog, at: nat, dict: seq<nat>)
    ensures Closed(ProgCode(p, at, dict), LabelAfter(p)) == WordCode(p, at, dict, true)
  {
    ClosedProg(p, at, dict, ProgCode(p, at, dict));
  }

  lemma NonEmpty(p: Prog, at: nat, dict: seq<nat>)
    requires p.Then?
    ensures |ProgCode(p, at, dict)| > 0
  {
  }

  /** Without the peephole a word is its program and a return. */
  lemma {:induction false} PlainIsWordCode(p: Prog, at: nat, dict: seq<nat>)
    ensures ProgCode(p, at, dict) + [RETURN] == WordCode(p, at, dict, false)
    decreases p
  {
    if p.Then? {
      var code := ItemCode(p.first, at, dict);
      if p.rest.Then? {
        PlainIsWordCode(p.rest, at + |code|, dict);
        assert ProgCode(p, at, dict) + [RETURN] == code + (ProgCode(p.rest, at + |code|, dict) + [RETURN]);
      }
    }
  }
}
