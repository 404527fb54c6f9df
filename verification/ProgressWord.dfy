/**
 progress puts the cells of a task back on top of its caller's stacks and goes on in the task.
 */
module ProgressWord {
  import opened Words
  import opened J1
  import opened CodeGen
  import opened Primitives
  import opened Stacks
  import opened Snapshots
  import opened SwitchCode

  /** The caller's data cells after progress: with one too many, the lowest is written over with the store's address. */
  function DataBelow(s: Snap, p: Word, td: Cells): Cells {
    if Loses(s, Len(s.d), Len(td)) then Under(s.d, p) else s.d
  }

  /** Its return cells: the lowest is written over with the address of the first saved cell or with a return address. */
  function ReturnsBelow(s: Snap, l: Layout, p: Word, td: Cells, peak: nat): Cells {
    if !LosesReturn(s, peak) then s.r else Under(s.r, if td.Cell? then Wrap(p + 2) else 2 * (l.progress + 24))
  }

  /** Where progress leads: the task's own cells on the caller's, at the task's return address. */
  function Resumed(s: Snap, l: Layout, p: Word, td: Cells, tr: Cells): Snap
    requires |s.ram| == RAM_WORDS && tr.Cell?
  {
    Snap(Target(tr.top / 2), Onto(td, DataBelow(s, p, td)),
         Onto(tr.rest, ReturnsBelow(s, l, p, td, ReturnPeak(Len(s.r), Len(tr), Len(td)))),
         s.ram[l.mark := DepthWord(s)], Hidden(s, Len(s.d), Len(td)), Covered(s, ReturnPeak(Len(s.r), Len(tr), Len(td))))
  }

  // ---------------------------------------------------------------- the addresses

  lemma Marks(o: Snap, s: Snap, l: Layout, bus: Bus) returns (t: Snap)
    requires Leads(o, s, bus) && |s.ram| == RAM_WORDS && s.pc == l.progress && Coded(s.ram, l)
    requires Len(s.d) + 2 <= STACK_CELLS + 1 && !InProgress(l, l.mark)
    ensures Leads(o, t, bus) && t == s.(pc := l.progress + 4, ram := s.ram[l.mark := DepthWord(s)])
  {
    assert In(s.ram, l, MarkPiece);
    var a := Depths(o, s, bus);
    var b := Pushes(o, a, 2 * l.mark, bus);
    var c := StoreDrop(o, b, bus);
    t := Drop(o, c, false, bus);
  }

  /** `taskptr @ dup @ cells dup>r h# ff and`: the size of the data cells, with both sizes put aside. */
  lemma Sizes(o: Snap, s: Snap, l: Layout, p: Word, w: Word, u: Word, bus: Bus) returns (t: Snap)
    requires Leads(o, s, bus) && |s.ram| == RAM_WORDS && s.pc == l.progress + 4 && Coded(s.ram, l)
    requires Len(s.d) + 3 <= STACK_CELLS + 1 && Len(s.r) < STACK_CELLS
    requires p < RAM_BYTES && s.ram[l.taskptr] == p && s.ram[p / 2] == w && u == Wrap(2 * w)
    ensures Leads(o, t, bus)
    ensures t == s.(pc := l.progress + 12, d := Cell(AndWord(0xFF, u), Cell(p, s.d)), r := Cell(u, s.r))
  {
    assert In(s.ram, l, SizesPiece);
    var a := Pushes(o, s, 2 * l.taskptr, bus);
    a := Fetches(o, a, bus);
    a := Dup(o, a, bus);
    a := Fetches(o, a, bus);
    a := Doubles(o, a, l, bus);
    a := DupToR(o, a, bus);
    a := Pushes(o, a, 0xFF, bus);
    t := Ands(o, a, bus);
  }

  /** `over +`: the last data cell. */
  lemma SplitAt(o: Snap, s: Snap, l: Layout, v: Cells, p: Word, split: Word, bus: Bus) returns (t: Snap)
    requires Leads(o, s, bus) && |s.ram| == RAM_WORDS && s.pc == l.progress + 12 && Coded(s.ram, l)
    requires s.d.Cell? && s.d.rest == Cell(p, v) && Len(v) + 3 <= STACK_CELLS + 1 && split == Wrap(p + s.d.top)
    ensures Leads(o, t, bus) && t == s.(pc := l.progress + 14, d := Cell(split, Cell(p, v)))
  {
    assert In(s.ram, l, EndsPiece);
    var a := Over(o, s, false, bus);
    t := Plus(o, a, false, bus);
  }

  /** `r> d# 8 rshift over +`: above it the last return cell. */
  lemma EndAt(o: Snap, s: Snap, l: Layout, v: Cells, split: Word, end: Word, bus: Bus) returns (t: Snap)
    requires Leads(o, s, bus) && |s.ram| == RAM_WORDS && s.pc == l.progress + 14 && Coded(s.ram, l)
    requires s.d == Cell(split, v) && Len(v) + 3 <= STACK_CELLS + 1 && s.r.Cell? && end == Wrap(split + ShiftRight(s.r.top, 8))
    ensures Leads(o, t, bus) && t == s.(pc := l.progress + 19, r := s.r.rest, d := Cell(end, Cell(split, v)))
  {
    assert In(s.ram, l, EndsPiece);
    var a := FromR(o, s, bus);
    a := Pushes(o, a, 8, bus);
    a := ShiftsRight(o, a, bus);
    a := Over(o, a, false, bus);
    t := Plus(o, a, false, bus);
  }

  /** `over + r> d# 8 rshift over +` */
  lemma Ends(o: Snap, s: Snap, l: Layout, v: Cells, p: Word, split: Word, end: Word, bus: Bus) returns (t: Snap)
    requires Leads(o, s, bus) && |s.ram| == RAM_WORDS && s.pc == l.progress + 12 && Coded(s.ram, l)
    requires s.d.Cell? && s.d.rest == Cell(p, v) && Len(v) + 4 <= STACK_CELLS + 1 && s.r.Cell?
    requires split == Wrap(p + s.d.top) && end == Wrap(split + ShiftRight(s.r.top, 8))
    ensures Leads(o, t, bus)
    ensures t == s.(pc := l.progress + 19, r := s.r.rest, d := Cell(end, Cell(split, Cell(p, v))))
  {
    assert Len(Cell(p, v)) == 1 + Len(v);
    var a := SplitAt(o, s, l, v, p, split, bus);
    t := EndAt(o, a, l, Cell(p, v), split, end, bus);
  }

  /** The word with both counts doubled, and the two addresses that come of it. */
  lemma Sized(w: Word, p: Word, nd: nat, nr: nat) returns (u: Word, split: Word, end: Word)
    requires w == 0x100 * nr + nd && nd < STACK_CELLS && nr < STACK_CELLS && p + 2 * (nd + nr) + 2 <= RAM_BYTES
    ensures u == Wrap(2 * w) && split == Wrap(p + AndWord(0xFF, u)) && end == Wrap(split + ShiftRight(u, 8))
    ensures split == p + 2 * nd && end == split + 2 * nr
  {
    Halves(w, nr, nd);
    WrapSmall(p + 2 * nd);
    WrapSmall(p + 2 * nd + 2 * nr);
    u := Wrap(2 * w);
    split, end := p + 2 * nd, p + 2 * nd + 2 * nr;
  }

  /** The first stretch of progress leaves three addresses above the caller's cells. */
  lemma Prepared(o: Snap, s: Snap, l: Layout, p: Word, w: Word, u: Word, split: Word, end: Word, ram: seq<Word>, bus: Bus)
    returns (t: Snap)
    requires Leads(o, s, bus) && |s.ram| == RAM_WORDS && s.pc == l.progress && Coded(s.ram, l) && !InProgress(l, l.mark)
    requires ram == s.ram[l.mark := DepthWord(s)] && Coded(ram, l) && p < RAM_BYTES && ram[l.taskptr] == p && ram[p / 2] == w
    requires u == Wrap(2 * w) && split == Wrap(p + AndWord(0xFF, u)) && end == Wrap(split + ShiftRight(u, 8))
    requires Len(s.d) + 4 <= STACK_CELLS + 1 && Len(s.r) < STACK_CELLS
    ensures Leads(o, t, bus) && t == s.(pc := l.progress + 19, ram := ram, d := Cell(end, Cell(split, Cell(p, s.d))))
  {
    var a := Marks(o, s, l, bus);
    var b := Sizes(o, a, l, p, w, u, bus);
    t := Ends(o, b, l, s.d, p, split, end, bus);
  }
  // ------ pw

  // ---------------------------------------------------------------- the loops

  /** One round of the loop over the return cells. */
  lemma LoadReturn(o: Snap, s: Snap, l: Layout, top: Word, split: Word, v: Cells, x: Word, sunk: bool, bus: Bus)
    returns (t: Snap)
    requires Leads(o, s, bus) && |s.ram| == RAM_WORDS && s.pc == l.progress + 19 && Coded(s.ram, l)
    requires s.d == Cell(top, Cell(split, v)) && split + 2 <= top < RAM_BYTES
    requires s.ram[top / 2] == x && Len(s.d) <= STACK_CELLS && Len(s.r) + 2 <= STACK_CELLS
    requires sunk ==> s.g > 0 && Len(s.r) + 2 == STACK_CELLS
    ensures Leads(o, t, bus) && t == SunkIf(s.(d := Cell(top - 2, Cell(split, v)), r := Cell(x, s.r)), sunk, 2 * (l.progress + 24))
  {
    assert In(s.ram, l, LoadReturnsPiece);
    var a := WhileApart(o, s, l.progress + 25, bus);
    a := DupFetch(o, a, bus);
    a := ToR(o, a, bus);
    a := TwoMinus(o, a, l, sunk, bus);
    t := Jumps(o, a, l.progress + 19, bus);
  }

  /** The loop: the cells go on the return stack from the last one up. */
  lemma {:induction false} LoadReturns(o: Snap, s: Snap, l: Layout, top: Word, split: Word, v: Cells, back: Cells,
                                       deep: bool, sunk: bool, bus: Bus) returns (t: Snap)
    requires Leads(o, s, bus) && |s.ram| == RAM_WORDS && s.pc == l.progress + 19 && Coded(s.ram, l)
    requires s.d == Cell(top, Cell(split, v)) && Lies(s.ram, split / 2 + 1, back)
    requires split % 2 == 0 && top == split + 2 * Len(back) && top < RAM_BYTES
    requires Len(s.d) <= STACK_CELLS && (back.Cell? ==> Len(s.r) + Len(back) + 1 <= STACK_CELLS)
    requires deep ==> s.h > 0 && Len(s.d) == STACK_CELLS
    requires sunk ==> back.Cell? && s.g > 0 && Len(s.r) + Len(back) + 1 == STACK_CELLS
    ensures Leads(o, t, bus)
    ensures var u := s.(pc := l.progress + 25, d := Cell(split, Cell(split, v)), r := Onto(back, s.r));
      t == SunkIf(LoweredIf(u, deep, split), sunk, 2 * (l.progress + 24))
    decreases Len(back)
  {
    if back.Nil? {
      assert In(s.ram, l, LoadReturnsPiece);
      t := WhileMet(o, s, l.progress + 25, deep, bus);
    } else {
      var f, x := Splits(back);
      LiesUnder(s.ram, split / 2 + 1, f, x);
      UnderOnto(f, x, s.r);
      var a := LoadReturn(o, s, l, top, split, v, x, sunk && f.Nil?, bus);
      t := LoadReturns(o, a, l, top - 2, split, v, f, deep, sunk && f.Cell?, bus);
    }
  }

  /** One round of the loop over the data cells. */
  lemma LoadCell(o: Snap, s: Snap, l: Layout, top: Word, p: Word, v: Cells, x: Word, sunk: bool, bus: Bus)
    returns (t: Snap)
    requires Leads(o, s, bus) && |s.ram| == RAM_WORDS && s.pc == l.progress + 26 && Coded(s.ram, l)
    requires s.d == Cell(top, Cell(p, v)) && p + 2 <= top < RAM_BYTES
    requires s.ram[top / 2] == x && Len(s.d) <= STACK_CELLS && Len(s.r) + 2 <= STACK_CELLS
    requires sunk ==> s.g > 0 && Len(s.r) + 2 == STACK_CELLS
    ensures Leads(o, t, bus) && t == SunkIf(s.(d := Cell(top - 2, Cell(p, Cell(x, v)))), sunk, top)
  {
    assert In(s.ram, l, LoadDataPiece);
    var a := WhileApart(o, s, l.progress + 32, bus);
    a := DupFetch(o, a, bus);
    a := MinusRot(o, a, l, sunk, bus);
    assert Len(a.d.rest.rest) == 1 + Len(v) && Len(s.d.rest) == 1 + Len(v);
    a := TwoMinus(o, a, l, false, bus);
    t := Jumps(o, a, l.progress + 26, bus);
  }

  /** The loop: they go on the data stack in the same way, under the two addresses. */
  lemma {:induction false} LoadData(o: Snap, s: Snap, l: Layout, top: Word, p: Word, v: Cells, back: Cells,
                                    deep: bool, sunk: bool, bus: Bus) returns (t: Snap)
    requires Leads(o, s, bus) && |s.ram| == RAM_WORDS && s.pc == l.progress + 26 && Coded(s.ram, l)
    requires s.d == Cell(top, Cell(p, v)) && Lies(s.ram, p / 2 + 1, back)
    requires p % 2 == 0 && top == p + 2 * Len(back) && top < RAM_BYTES
    requires Len(s.d) + Len(back) <= STACK_CELLS && (back.Cell? ==> Len(s.r) + 2 <= STACK_CELLS)
    requires deep ==> s.h > 0 && Len(s.d) + Len(back) == STACK_CELLS
    requires sunk ==> back.Cell? && s.g > 0 && Len(s.r) + 2 == STACK_CELLS
    ensures Leads(o, t, bus)
    ensures var u := s.(pc := l.progress + 32, d := Cell(p, Cell(p, Onto(back, v))));
      t == SunkIf(LoweredIf(u, deep, p), sunk, p + 2)
    decreases Len(back)
  {
    if back.Nil? {
      assert In(s.ram, l, LoadDataPiece);
      t := WhileMet(o, s, l.progress + 32, deep, bus);
    } else {
      var f, x := Splits(back);
      LiesUnder(s.ram, p / 2 + 1, f, x);
      UnderOnto(f, x, v);
      var a := LoadCell(o, s, l, top, p, v, x, sunk && f.Nil?, bus);
      t := LoadData(o, a, l, top - 2, p, Cell(x, v), f, deep, sunk && f.Cell?, bus);
    }
  }

  // ---------------------------------------------------------------- the whole word

  /** The loop over the return cells, with the caller's data cells as they are after it. */
  lemma ReturnsLoaded(o: Snap, s: Snap, l: Layout, p: Word, split: Word, end: Word, dc: Cells, tr: Cells, deep: bool, sunk: bool, bus: Bus)
    returns (t: Snap)
    requires Leads(o, s, bus) && |s.ram| == RAM_WORDS && s.pc == l.progress + 19 && Coded(s.ram, l)
    requires s.d == Cell(end, Cell(split, Cell(p, dc))) && Lies(s.ram, split / 2 + 1, tr)
    requires split % 2 == 0 && end == split + 2 * Len(tr) && end < RAM_BYTES
    requires Len(dc) + 4 <= STACK_CELLS + 1 && Len(s.r) + Len(tr) + 1 <= STACK_CELLS
    requires deep ==> s.h > 0 && Len(dc) + 4 == STACK_CELLS + 1 && split == p
    requires sunk ==> tr.Cell? && s.g > 0 && Len(s.r) + Len(tr) + 1 == STACK_CELLS
    ensures Leads(o, t, bus)
    ensures t == SunkIf(Snap(l.progress + 25, Cell(split, Cell(split, Cell(p, if deep then Under(dc, p) else dc))), Onto(tr, s.r),
                             s.ram, if deep then s.h - 1 else s.h, s.g), sunk, 2 * (l.progress + 24))
  {
    assert Len(Cell(p, dc)) == 1 + Len(dc);
    t := LoadReturns(o, s, l, end, split, Cell(p, dc), tr, deep, sunk, bus);
    UnderThree(split, split, p, dc, p);
  }

  /** From both addresses on the stack to the end of the word. */
  lemma DataLoaded(o: Snap, s: Snap, l: Layout, p: Word, v: Cells, td: Cells, end: Word, deep: bool, sunk: bool, bus: Bus) returns (t: Snap)
    requires Leads(o, s, bus) && |s.ram| == RAM_WORDS && s.pc == l.progress + 25 && Coded(s.ram, l)
    requires s.d == Cell(end, Cell(end, Cell(p, v))) && end == p + 2 * Len(td) && end < RAM_BYTES
    requires p % 2 == 0 && Lies(s.ram, p / 2 + 1, td) && s.r.Cell?
    requires Len(v) + 3 + Len(td) <= STACK_CELLS + 1 && (td.Cell? ==> Len(s.r) + 2 <= STACK_CELLS)
    requires deep ==> s.h > 0 && Len(v) + 3 + Len(td) == STACK_CELLS + 1
    requires sunk ==> td.Cell? && s.g > 0 && Len(s.r) + 2 == STACK_CELLS
    ensures Leads(o, t, bus)
    ensures t == SunkIf(Snap(Target(s.r.top / 2), Onto(td, if deep then Under(v, p) else v), s.r.rest, s.ram,
                             if deep then s.h - 1 else s.h, s.g), sunk, p + 2)
  {
    assert In(s.ram, l, BetweenPiece) && In(s.ram, l, ProgressEndPiece);
    assert Len(s.d.rest) == 2 + Len(v);
    var a := Drop(o, s, false, bus);
    a := LoadData(o, a, l, end, p, v, td, deep, sunk, bus);
    if deep {
      UnderTwo(p, p, Onto(td, v), p);
      OntoUnder(td, v, p);
    }
    assert Under(s.r, p + 2) == Cell(s.r.top, Under(s.r.rest, p + 2));
    t := TwoDrop(o, a, l, bus);
  }

  /** The cells in use on the way, for stacks that may be one cell too deep. */
  lemma Peaks(s: Snap, td: Cells, tr: Cells) returns (first: bool, second: bool, early: bool, late: bool)
    requires DataPeak(Len(s.d), Len(td)) <= STACK_CELLS + 1 && ReturnPeak(Len(s.r), Len(tr), Len(td)) <= STACK_CELLS && tr.Cell?
    ensures first == (Loses(s, Len(s.d), Len(td)) && td.Nil?) && second == (Loses(s, Len(s.d), Len(td)) && td.Cell?)
    ensures early == (LosesReturn(s, ReturnPeak(Len(s.r), Len(tr), Len(td))) && td.Nil?)
    ensures late == (LosesReturn(s, ReturnPeak(Len(s.r), Len(tr), Len(td))) && td.Cell?)
    ensures Len(s.d) + 4 <= STACK_CELLS + 1 && Len(s.d) + 3 + Len(td) <= STACK_CELLS + 1
    ensures Len(s.r) + Len(tr) + 1 <= STACK_CELLS && Len(s.r) < STACK_CELLS
    ensures td.Cell? ==> Len(s.r) + Len(tr) + 2 <= STACK_CELLS
    ensures first ==> s.h > 0 && Len(s.d) + 4 == STACK_CELLS + 1
    ensures second ==> s.h > 0 && Len(s.d) + 3 + Len(td) == STACK_CELLS + 1
    ensures early ==> s.g > 0 && Len(s.r) + Len(tr) + 1 == STACK_CELLS
    ensures late ==> s.g > 0 && Len(s.r) + Len(tr) + 2 == STACK_CELLS
  {
    first, second := Loses(s, Len(s.d), Len(td)) && td.Nil?, Loses(s, Len(s.d), Len(td)) && td.Cell?;
    early := LosesReturn(s, ReturnPeak(Len(s.r), Len(tr), Len(td))) && td.Nil?;
    late := LosesReturn(s, ReturnPeak(Len(s.r), Len(tr), Len(td))) && td.Cell?;
  }

  /** From the two addresses on the stack to the task; the flags say which stack is one cell too deep, and when. */
  lemma LoadedDeep(s: Snap, a: Snap, l: Layout, p: Word, td: Cells, tr: Cells, split: Word, end: Word, ram: seq<Word>,
                    first: bool, second: bool, early: bool, late: bool, bus: Bus) returns (t: Snap)
    requires Leads(s, a, bus) && |ram| == RAM_WORDS && Coded(ram, l)
    requires a == s.(pc := l.progress + 19, ram := ram, d := Cell(end, Cell(split, Cell(p, s.d))))
    requires p % 2 == 0 && split % 2 == 0 && split == p + 2 * Len(td) && end == split + 2 * Len(tr) && end < RAM_BYTES
    requires Lies(ram, p / 2 + 1, td) && Lies(ram, split / 2 + 1, tr) && tr.Cell?
    requires Len(s.d) + 4 <= STACK_CELLS + 1 && Len(s.d) + 3 + Len(td) <= STACK_CELLS + 1
    requires Len(s.r) + Len(tr) + 1 <= STACK_CELLS && (td.Cell? ==> Len(s.r) + Len(tr) + 2 <= STACK_CELLS)
    requires first ==> td.Nil? && s.h > 0 && Len(s.d) + 4 == STACK_CELLS + 1
    requires second ==> td.Cell? && !first && s.h > 0 && Len(s.d) + 3 + Len(td) == STACK_CELLS + 1
    requires early ==> td.Nil? && s.g > 0 && Len(s.r) + Len(tr) + 1 == STACK_CELLS
    requires late ==> td.Cell? && !early && s.g > 0 && Len(s.r) + Len(tr) + 2 == STACK_CELLS
    ensures Leads(s, t, bus)
    ensures t == SunkIf(Snap(Target(tr.top / 2), Onto(td, if first || second then Under(s.d, p) else s.d), Onto(tr.rest, s.r),
                             ram, if first || second then s.h - 1 else s.h, s.g),
                        early || late, if late then p + 2 else 2 * (l.progress + 24))
  {
    var b := ReturnsLoaded(s, a, l, p, split, end, s.d, tr, first, early, bus);
    t := DataLoaded(s, b, l, p, b.d.rest.rest.rest, td, split, second, late, bus);
    assert early ==> b.r == Cell(tr.top, Under(Onto(tr.rest, s.r), 2 * (l.progress + 24)));
  }

  lemma ReturnsLie(s: Snap, l: Layout, p: Word, td: Cells, tr: Cells, peak: nat, u: Snap, early: bool, late: bool)
    requires tr.Cell? && p < RAM_BYTES && u.r == Onto(tr.rest, s.r) && u.g == s.g
    requires early == (LosesReturn(s, peak) && td.Nil?) && late == (LosesReturn(s, peak) && td.Cell?)
    ensures SunkIf(u, early || late, if late then p + 2 else 2 * (l.progress + 24))
            == u.(r := Onto(tr.rest, ReturnsBelow(s, l, p, td, peak)), g := Covered(s, peak))
  {
    SunkEither(u, LosesReturn(s, peak), td.Cell?, p + 2, 2 * (l.progress + 24));
    OntoUnder(tr.rest, s.r, if late then p + 2 else 2 * (l.progress + 24));
  }

  lemma Loaded(s: Snap, a: Snap, l: Layout, p: Word, td: Cells, tr: Cells, split: Word, end: Word, ram: seq<Word>, bus: Bus)
    requires Leads(s, a, bus) && |s.ram| == RAM_WORDS && ram == s.ram[l.mark := DepthWord(s)] && Coded(ram, l)
    requires a == s.(pc := l.progress + 19, ram := ram, d := Cell(end, Cell(split, Cell(p, s.d))))
    requires p % 2 == 0 && split % 2 == 0 && split == p + 2 * Len(td) && end == split + 2 * Len(tr) && end < RAM_BYTES
    requires Lies(ram, p / 2 + 1, td) && Lies(ram, split / 2 + 1, tr) && tr.Cell?
    requires DataPeak(Len(s.d), Len(td)) <= STACK_CELLS + 1 && ReturnPeak(Len(s.r), Len(tr), Len(td)) <= STACK_CELLS
    ensures Leads(s, Resumed(s, l, p, td, tr), bus)
  {
    var first, second, early, late := Peaks(s, td, tr);
    var t := LoadedDeep(s, a, l, p, td, tr, split, end, ram, first, second, early, late, bus);
    var u := Snap(Target(tr.top / 2), Onto(td, DataBelow(s, p, td)), Onto(tr.rest, s.r), ram, Hidden(s, Len(s.d), Len(td)), s.g);
    assert (first || second) == Loses(s, Len(s.d), Len(td));
    ReturnsLie(s, l, p, td, tr, ReturnPeak(Len(s.r), Len(tr), Len(td)), u, early, late);
  }

  lemma Runs(s: Snap, l: Layout, p: Word, td: Cells, tr: Cells, split: Word, end: Word, ram: seq<Word>, bus: Bus)
    requires |s.ram| == RAM_WORDS && s.pc == l.progress && Coded(s.ram, l) && !InProgress(l, l.mark)
    requires ram == s.ram[l.mark := DepthWord(s)] && Coded(ram, l)
    requires p % 2 == 0 && split % 2 == 0 && split == p + 2 * Len(td) && end == split + 2 * Len(tr) && end + 2 <= RAM_BYTES
    requires ram[l.taskptr] == p && ram[p / 2] == 0x100 * Len(tr) + Len(td)
    requires Len(td) < STACK_CELLS && Len(tr) < STACK_CELLS
    requires Lies(ram, p / 2 + 1, td) && Lies(ram, split / 2 + 1, tr) && tr.Cell?
    requires DataPeak(Len(s.d), Len(td)) <= STACK_CELLS + 1 && ReturnPeak(Len(s.r), Len(tr), Len(td)) <= STACK_CELLS
    ensures Leads(s, Resumed(s, l, p, td, tr), bus)
  {
    LeadsHere(s, bus);
    var w: Word := 0x100 * Len(tr) + Len(td);
    var u, at, last := Sized(w, p, Len(td), Len(tr));
    var a := Prepared(s, s, l, p, w, u, at, last, ram, bus);
    Loaded(s, a, l, p, td, tr, split, end, ram, bus);
  }

  /** What progress finds in memory once it has noted the depths. */
  lemma Marked(ram: seq<Word>, l: Layout, p: Word, td: Cells, tr: Cells, x: Word) returns (split: Word, end: Word)
    requires |ram| == RAM_WORDS && Coded(ram, l) && Laid(l) && Saved(ram, l, p, td, tr)
    ensures split == p + 2 * Len(td) && end == split + 2 * Len(tr) && end + 2 <= RAM_BYTES && split % 2 == 0
    ensures var after := ram[l.mark := x];
      && Coded(after, l) && after[p / 2] == 0x100 * Len(tr) + Len(td)
      && Lies(after, p / 2 + 1, td) && Lies(after, split / 2 + 1, tr)
  {
    CodedStore(ram, l, l.mark, x);
    LiesStore(ram, p / 2, Image(td, tr), l.mark, x);
    SavedParts(ram[l.mark := x], l, p, td, tr);
    split, end := p + 2 * Len(td), p + 2 * Len(td) + 2 * Len(tr);
  }

  /** progress from its first instruction to the task. */
  lemma Progress(s: Snap, l: Layout, p: Word, td: Cells, tr: Cells, bus: Bus)
    requires |s.ram| == RAM_WORDS && s.pc == l.progress && Coded(s.ram, l) && Laid(l)
    requires s.ram[l.taskptr] == p && Saved(s.ram, l, p, td, tr) && tr.Cell?
    requires DataPeak(Len(s.d), Len(td)) <= STACK_CELLS + 1 && ReturnPeak(Len(s.r), Len(tr), Len(td)) <= STACK_CELLS
    ensures Leads(s, Resumed(s, l, p, td, tr), bus)
  {
    var split, end := Marked(s.ram, l, p, td, tr, DepthWord(s));
    Runs(s, l, p, td, tr, split, end, s.ram[l.mark := DepthWord(s)], bus);
  }
}
