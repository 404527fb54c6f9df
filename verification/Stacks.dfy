/**
 Stacks as lists of cells, top first, and the rings of 32 cells that hold them.
 */
module Stacks {
  import opened Words
  import opened J1

  /** Stack cells, top first. */
  datatype Cells = Nil | Cell(top: Word, rest: Cells)

  function Len(v: Cells): nat {
    if v.Nil? then 0 else 1 + Len(v.rest)
  }

  /** The cells of a on top of those of b. */
  function Onto(a: Cells, b: Cells): (r: Cells)
    ensures Len(r) == Len(a) + Len(b)
  {
    if a.Nil? then b else Cell(a.top, Onto(a.rest, b))
  }

  /** One more cell underneath. */
  function Under(a: Cells, x: Word): (r: Cells)
    ensures Len(r) == Len(a) + 1
  {
    assert Len(Cell(x, Nil)) == 1;
    Onto(a, Cell(x, Nil))
  }

  function Top(v: Cells): Word {
    if v.Nil? then 0 else v.top
  }

  function Rest(v: Cells): Cells {
    if v.Nil? then Nil else v.rest
  }

  /** The lowest of some cells. */
  function Bottom(v: Cells): Word
    requires v.Cell?
  {
    if v.rest.Nil? then v.top else Bottom(v.rest)
  }

  // ---------------------------------------------------------------- laws

  lemma {:induction false} UnderOnto(f: Cells, x: Word, v: Cells)
    ensures Onto(Under(f, x), v) == Onto(f, Cell(x, v))
  {
    if f.Cell? {
      UnderOnto(f.rest, x, v);
    }
  }

  lemma {:induction false} OntoUnder(a: Cells, v: Cells, x: Word)
    ensures Under(Onto(a, v), x) == Onto(a, Under(v, x))
  {
    if a.Cell? {
      OntoUnder(a.rest, v, x);
    }
  }

  lemma UnderTwo(a: Word, b: Word, v: Cells, x: Word)
    ensures Under(Cell(a, Cell(b, v)), x) == Cell(a, Cell(b, Under(v, x)))
  {
    assert Under(Cell(b, v), x) == Cell(b, Under(v, x));
  }

  lemma UnderThree(a: Word, b: Word, c: Word, v: Cells, x: Word)
    ensures Under(Cell(a, Cell(b, Cell(c, v))), x) == Cell(a, Cell(b, Cell(c, Under(v, x))))
  {
    assert Under(Cell(c, v), x) == Cell(c, Under(v, x));
    UnderTwo(a, b, Cell(c, v), x);
  }

  lemma {:induction false} Splits(v: Cells) returns (f: Cells, x: Word)
    requires v.Cell?
    ensures v == Under(f, x)
  {
    if v.rest.Nil? {
      f, x := Nil, v.top;
    } else {
      var g;
      g, x := Splits(v.rest);
      f := Cell(v.top, g);
    }
  }

  // ---------------------------------------------------------------- rings

  /** The ring holds these cells from its pointer down. */
  ghost predicate On(ring: seq<Word>, sp: int, v: Cells)
    requires |ring| == STACK_CELLS
    decreases v
  {
    v.Cell? ==> ring[sp % STACK_CELLS] == v.top && On(ring, sp - 1, v.rest)
  }

  lemma {:induction false} OnMod(ring: seq<Word>, a: int, b: int, v: Cells)
    requires |ring| == STACK_CELLS && On(ring, a, v) && a % STACK_CELLS == b % STACK_CELLS
    ensures On(ring, b, v)
    decreases v
  {
    if v.Cell? {
      assert (a - 1) % STACK_CELLS == (b - 1) % STACK_CELLS;
      OnMod(ring, a - 1, b - 1, v.rest);
    }
  }

  lemma {:induction false} OnOther(ring: seq<Word>, top: int, j: nat, v: Cells, x: Word)
    requires |ring| == STACK_CELLS && On(ring, top - j, v) && 1 <= j && j + Len(v) <= STACK_CELLS
    ensures On(ring[top % STACK_CELLS := x], top - j, v)
    decreases v
  {
    if v.Cell? {
      assert (top - j) % STACK_CELLS != top % STACK_CELLS;
      OnOther(ring, top, j + 1, v.rest, x);
    }
  }

  lemma OnTop(ring: seq<Word>, sp: nat, v: Cells)
    requires |ring| == STACK_CELLS && sp < STACK_CELLS && On(ring, sp, v)
    ensures v.Cell? ==> ring[sp] == v.top
  {
  }

  lemma OnPush(ring: seq<Word>, sp: nat, v: Cells, x: Word)
    requires |ring| == STACK_CELLS && sp < STACK_CELLS && On(ring, sp, v) && Len(v) < STACK_CELLS
    ensures On(ring[Moved(sp, 1) := x], Moved(sp, 1), Cell(x, v))
  {
    OnOther(ring, sp + 1, 1, v, x);
    OnMod(ring[Moved(sp, 1) := x], sp, Moved(sp, 1) - 1, v);
  }

  lemma OnPop(ring: seq<Word>, sp: nat, v: Cells)
    requires |ring| == STACK_CELLS && sp < STACK_CELLS && On(ring, sp, v)
    ensures On(ring, Moved(sp, 3), Rest(v))
  {
    if v.Cell? {
      OnMod(ring, sp - 1, Moved(sp, 3), v.rest);
    }
  }

  lemma OnReplace(ring: seq<Word>, sp: nat, v: Cells, x: Word)
    requires |ring| == STACK_CELLS && sp < STACK_CELLS && v.Cell? && On(ring, sp, v) && Len(v) <= STACK_CELLS
    ensures On(ring[sp := x], sp, Cell(x, v.rest))
  {
    OnOther(ring, sp, 1, v.rest, x);
  }

  /** With all the other cells of the ring in use, the cell above the top is the next one underneath. */
  lemma {:induction false} OnUnder(ring: seq<Word>, sp: int, v: Cells, x: Word)
    requires |ring| == STACK_CELLS && On(ring, sp, v) && ring[(sp - Len(v)) % STACK_CELLS] == x
    ensures On(ring, sp, Under(v, x))
    decreases v
  {
    if v.Cell? {
      assert sp - Len(v) == (sp - 1) - Len(v.rest);
      OnUnder(ring, sp - 1, v.rest, x);
    }
  }

  lemma {:induction false} OnLess(ring: seq<Word>, sp: int, v: Cells, x: Word)
    requires |ring| == STACK_CELLS && On(ring, sp, Under(v, x))
    ensures On(ring, sp, v)
    decreases v
  {
    if v.Cell? {
      OnLess(ring, sp - 1, v.rest, x);
    }
  }

  lemma Shifted(a: int, k: int)
    ensures (a % STACK_CELLS + k) % STACK_CELLS == (a + k) % STACK_CELLS
  {
  }

  lemma MovedBack(sp: nat)
    requires sp < STACK_CELLS
    ensures Moved(Moved(sp, 3), 1) == sp
  {
  }
}
