/**
 pause writes the cells of a task to its store and goes back to the caller of progress.
 */
module PauseWord {
  import opened Words
  import opened J1
  import opened CodeGen
  import opened Primitives
  import opened Stacks
  import opened Snapshots
  import opened SwitchCode

  /** The caller's data cells after pause: with one too many, the lowest has been overwritten. */
  function DataLeft(s: Snap, td: Cells, tr: Cells, dc: Cells): Cells
    requires tr.Cell?
  {
    if !Loses(s, Len(dc), Len(td)) then dc else Under(dc, if Len(td) > 1 then Wrap(Len(td)) else Bottom(tr))
  }

  /** The same for its return cells: the lowest is the return address of the deepest call. */
  function ReturnsLeft(s: Snap, l: Layout, td: Cells, peak: nat, rest: Cells): Cells {
    if !LosesReturn(s, peak) then rest else Under(rest, if td.Cell? then 2 * (l.pause + 24) else 2 * (l.minus + 1))
  }

  /** Where pause leads: back to the caller of progress, with the task in its store. */
  function Paused(s: Snap, l: Layout, p: Word, td: Cells, tr: Cells, dc: Cells, rc: Cells): Snap
    requires tr.Cell? && rc.Cell?
  {
    Snap(Target(rc.top / 2), DataLeft(s, td, tr, dc), ReturnsLeft(s, l, td, PausePeak(Len(rc), Len(tr), Len(td)), rc.rest),
         Written(s.ram, p / 2, Image(td, tr)), Hidden(s, Len(dc), Len(td)),
         Covered(s, PausePeak(Len(rc), Len(tr), Len(td))))
  }

  // ---------------------------------------------------------------- the count

  /** `dsp _dsp @ -`: how many cells there are above the mark. */
  lemma CountsCells(o: Snap, s: Snap, l: Layout, w: Word, deep: bool, bus: Bus) returns (t: Snap)
    requires Leads(o, s, bus) && |s.ram| == RAM_WORDS && s.pc == l.pause && Coded(s.ram, l)
    requires w == Wrap(DepthWord(s) - s.ram[l.mark]) && Len(s.d) + 3 <= STACK_CELLS + 1 && Len(s.r) + 2 <= STACK_CELLS
    requires deep ==> s.g > 0 && Len(s.r) + 2 == STACK_CELLS
    ensures Leads(o, t, bus) && t == SunkIf(s.(pc := l.pause + 4, d := Cell(w, s.d)), deep, 2 * (l.minus + 1))
  {
    assert In(s.ram, l, CountPiece);
    var a := Depths(o, s, bus);
    a := Pushes(o, a, 2 * l.mark, bus);
    a := Fetches(o, a, bus);
    t := Minus(o, a, l, deep, bus);
  }

  /** `taskptr @ !` */
  lemma StoresCount(o: Snap, s: Snap, l: Layout, p: Word, w: Word, v: Cells, bus: Bus) returns (t: Snap)
    requires Leads(o, s, bus) && |s.ram| == RAM_WORDS && s.pc == l.pause + 4 && Coded(s.ram, l)
    requires s.ram[l.taskptr] == p && p < RAM_BYTES && !InCode(l, p / 2) && s.d == Cell(w, v) && Len(s.d) <= STACK_CELLS
    ensures Leads(o, t, bus) && t == s.(pc := l.pause + 8, d := v, ram := s.ram[p / 2 := w])
  {
    assert In(s.ram, l, CountPiece);
    var a := Pushes(o, s, 2 * l.taskptr, bus);
    a := Fetches(o, a, bus);
    a := StoreDrop(o, a, bus);
    t := Drop(o, a, false, bus);
  }

  /** The two together. */
  lemma CountsStored(s: Snap, l: Layout, p: Word, w: Word, early: bool, bus: Bus) returns (t: Snap)
    requires |s.ram| == RAM_WORDS && s.pc == l.pause && Coded(s.ram, l) && s.ram[l.taskptr] == p && p < RAM_BYTES && !InCode(l, p / 2)
    requires w == Wrap(DepthWord(s) - s.ram[l.mark]) && Len(s.d) + 3 <= STACK_CELLS + 1 && Len(s.r) + 2 <= STACK_CELLS
    requires early ==> s.g > 0 && Len(s.r) + 2 == STACK_CELLS
    ensures Leads(s, t, bus) && t == SunkIf(s.(pc := l.pause + 8, ram := s.ram[p / 2 := w]), early, 2 * (l.minus + 1))
  {
    LeadsHere(s, bus);
    var a := CountsCells(s, s, l, w, early, bus);
    t := StoresCount(s, a, l, p, w, s.d, bus);
  }

  /** `taskptr @ dup cell+ swap @ dup>r h# ff and`: the first free address, and how many data cells to save. */
  lemma StartsRaw(o: Snap, s: Snap, l: Layout, p: Word, w: Word, bus: Bus) returns (t: Snap)
    requires Leads(o, s, bus) && |s.ram| == RAM_WORDS && s.pc == l.pause + 8 && Coded(s.ram, l)
    requires s.ram[l.taskptr] == p && p < RAM_BYTES && s.ram[p / 2] == w
    requires Len(s.d) + 3 <= STACK_CELLS + 1 && Len(s.r) < STACK_CELLS
    ensures Leads(o, t, bus)
    ensures t == s.(pc := l.pause + 17, d := Cell(AndWord(0xFF, w), Cell(Wrap(p + 2), s.d)), r := Cell(w, s.r))
  {
    assert In(s.ram, l, StartPiece);
    var a := Pushes(o, s, 2 * l.taskptr, bus);
    a := Fetches(o, a, bus);
    a := Dup(o, a, bus);
    a := CellPlus(o, a, l, false, bus);
    a := Swap(o, a, false, bus);
    a := Fetches(o, a, bus);
    a := DupToR(o, a, bus);
    a := Pushes(o, a, 0xFF, bus);
    t := Ands(o, a, bus);
  }

  lemma Starts(o: Snap, s: Snap, l: Layout, p: Word, w: Word, first: Word, k: Word, nr: nat, bus: Bus) returns (t: Snap)
    requires Leads(o, s, bus) && |s.ram| == RAM_WORDS && s.pc == l.pause + 8 && Coded(s.ram, l)
    requires s.ram[l.taskptr] == p && p < RAM_BYTES && s.ram[p / 2] == w
    requires w == 0x100 * nr + k && nr < STACK_CELLS && k < STACK_CELLS && first == p + 2 <= RAM_BYTES
    requires Len(s.d) + 3 <= STACK_CELLS + 1 && Len(s.r) < STACK_CELLS
    ensures Leads(o, t, bus)
    ensures t == s.(pc := l.pause + 17, d := Cell(k, Cell(first, s.d)), r := Cell(w, s.r))
  {
    Seventh(w, nr, k);
    WrapSmall(p + 2);
    t := StartsRaw(o, s, l, p, w, bus);
  }

  /** Up to the first loop: the cells are counted. */
  lemma Opened(s: Snap, l: Layout, p: Word, w: Word, first: Word, k: Word, nr: nat, early: bool, bus: Bus) returns (t: Snap)
    requires |s.ram| == RAM_WORDS && s.pc == l.pause && Coded(s.ram, l) && s.ram[l.taskptr] == p
    requires w == Wrap(DepthWord(s) - s.ram[l.mark]) && first == p + 2 <= RAM_BYTES && !InCode(l, p / 2) && p / 2 != l.taskptr
    requires w == 0x100 * nr + k && nr < STACK_CELLS && k < STACK_CELLS
    requires Len(s.d) + 3 <= STACK_CELLS + 1 && Len(s.r) + 2 <= STACK_CELLS
    requires early ==> s.g > 0 && Len(s.r) + 2 == STACK_CELLS
    ensures Leads(s, t, bus) && Coded(t.ram, l)
    ensures var u := s.(pc := l.pause + 17, d := Cell(k, Cell(first, s.d)), r := Cell(w, s.r), ram := s.ram[p / 2 := w]);
      t == SunkIf(u, early, 2 * (l.minus + 1))
  {
    CodedStore(s.ram, l, p / 2, w);
    var a := CountsStored(s, l, p, w, early, bus);
    t := Starts(s, a, l, p, w, first, k, nr, bus);
    assert Under(Cell(w, s.r), 2 * (l.minus + 1)) == Cell(w, Under(s.r, 2 * (l.minus + 1)));
  }

  // ---------------------------------------------------------------- the data cells

  /** The test of the loop over the data cells. */
  lemma SaveTest(o: Snap, s: Snap, l: Layout, k: Word, v: Cells, deep: bool, bus: Bus) returns (t: Snap)
    requires Leads(o, s, bus) && |s.ram| == RAM_WORDS && s.pc == l.pause + 17 && Coded(s.ram, l)
    requires s.d == Cell(k, v) && Len(s.d) + 1 <= STACK_CELLS + 1 && (deep ==> s.h > 0 && Len(s.d) == STACK_CELLS)
    ensures Leads(o, t, bus)
    ensures var u := s.(pc := if k == 0 then l.pause + 27 else l.pause + 19);
      t == if deep then Lowered(u, k) else u
  {
    assert In(s.ram, l, SaveDataPiece);
    var a := Dup(o, s, bus);
    t := TestsAt(o, a, l.pause + 27, deep, bus);
  }

  /** `>r tuck !`: a data cell goes to memory. */
  lemma SavePut(o: Snap, s: Snap, l: Layout, k: Word, at: Word, x: Word, v: Cells, bus: Bus) returns (t: Snap)
    requires Leads(o, s, bus) && |s.ram| == RAM_WORDS && s.pc == l.pause + 19 && Coded(s.ram, l)
    requires s.d == Cell(k, Cell(at, Cell(x, v))) && at < RAM_BYTES && !InCode(l, at / 2)
    requires Len(v) + 3 <= STACK_CELLS + 1 && Len(s.r) + 2 <= STACK_CELLS
    ensures Leads(o, t, bus) && Coded(t.ram, l)
    ensures t == s.(pc := l.pause + 23, d := Cell(at, v), r := Cell(k, s.r), ram := s.ram[at / 2 := x])
  {
    assert In(s.ram, l, SaveDataPiece);
    CodedStore(s.ram, l, at / 2, x);
    assert Len(s.d.rest.rest) == 1 + Len(v);
    var a := ToR(o, s, bus);
    a := Tuck(o, a, l, bus);
    assert Len(a.d.rest) == 2 + Len(v);
    a := StoreDrop(o, a, bus);
    t := Drop(o, a, false, bus);
  }

  /** `cell+ r> 1-`: on to the next. */
  lemma SaveNext(o: Snap, s: Snap, l: Layout, k: Word, at: Word, v: Cells, deep: bool, bus: Bus) returns (t: Snap)
    requires Leads(o, s, bus) && |s.ram| == RAM_WORDS && s.pc == l.pause + 23 && Coded(s.ram, l)
    requires s.d == Cell(at, v) && s.r.Cell? && s.r.top == k && Len(s.d) < STACK_CELLS && Len(s.r) < STACK_CELLS
    requires deep ==> s.g > 0 && Len(s.r) + 1 == STACK_CELLS
    ensures Leads(o, t, bus)
    ensures var u := s.(pc := l.pause + 17, d := Cell(Wrap(k - 1), Cell(Wrap(at + 2), v)), r := s.r.rest);
      t == if deep then Sunk(u, 2 * (l.pause + 24)) else u
  {
    assert In(s.ram, l, SaveDataPiece);
    var a := CellPlus(o, s, l, deep, bus);
    a := FromR(o, a, bus);
    a := Less(o, a, false, bus);
    t := Jumps(o, a, l.pause + 17, bus);
  }

  /** One data cell. */
  lemma SaveCell(o: Snap, s: Snap, l: Layout, k: Word, at: Word, x: Word, v: Cells, deep: bool, bus: Bus) returns (t: Snap)
    requires Leads(o, s, bus) && |s.ram| == RAM_WORDS && s.pc == l.pause + 19 && Coded(s.ram, l)
    requires s.d == Cell(k, Cell(at, Cell(x, v))) && at < RAM_BYTES && !InCode(l, at / 2)
    requires Len(v) + 3 <= STACK_CELLS + 1 && Len(s.r) + 2 <= STACK_CELLS
    requires deep ==> s.g > 0 && Len(s.r) + 2 == STACK_CELLS
    ensures Leads(o, t, bus) && Coded(t.ram, l)
    ensures var u := s.(pc := l.pause + 17, d := Cell(Wrap(k - 1), Cell(Wrap(at + 2), v)), ram := s.ram[at / 2 := x]);
      t == if deep then Sunk(u, 2 * (l.pause + 24)) else u
  {
    var a := SavePut(o, s, l, k, at, x, v, bus);
    t := SaveNext(o, a, l, k, at, v, deep, bus);
  }

  /** One data cell, and the test for the next. */
  lemma SaveRound(o: Snap, s: Snap, l: Layout, k: Word, at: Word, x: Word, v: Cells, more: nat, deep: bool, bus: Bus) returns (t: Snap)
    requires Leads(o, s, bus) && |s.ram| == RAM_WORDS && s.pc == l.pause + 19 && Coded(s.ram, l)
    requires s.d == Cell(k, Cell(at, Cell(x, v))) && k == more + 1 && at % 2 == 0 && at + 2 <= RAM_BYTES && !InCode(l, at / 2)
    requires Len(v) + 3 <= STACK_CELLS + 1 && Len(s.r) + 2 <= STACK_CELLS
    requires deep ==> s.g > 0 && Len(s.r) + 2 == STACK_CELLS
    ensures Leads(o, t, bus) && Coded(t.ram, l)
    ensures t == SunkIf(s.(pc := if more == 0 then l.pause + 27 else l.pause + 19, d := Cell(more, Cell(at + 2, v)),
                           ram := s.ram[at / 2 := x]), deep, 2 * (l.pause + 24))
  {
    AddressStep(at, 1);
    CountStep(k);
    assert Len(Cell(at + 2, v)) == 1 + Len(v);
    var a := SaveCell(o, s, l, k, at, x, v, deep, bus);
    t := SaveTest(o, a, l, k - 1, Cell(at + 2, v), false, bus);
  }

  /** The loop from behind its test: all the cells above the caller's go to memory. */
  lemma {:induction false} SaveRest(o: Snap, s: Snap, l: Layout, k: Word, at: Word, left: Cells, dc: Cells, deep: bool, bus: Bus)
    returns (t: Snap)
    requires Leads(o, s, bus) && |s.ram| == RAM_WORDS && s.pc == l.pause + 19 && Coded(s.ram, l)
    requires s.d == Cell(k, Cell(at, Onto(left, dc))) && k == Len(left) > 0
    requires at % 2 == 0 && at + 2 * Len(left) <= RAM_BYTES && Clear(l, at / 2, Len(left))
    requires Len(left) + Len(dc) + 2 <= STACK_CELLS + 1 && Len(s.r) + 2 <= STACK_CELLS
    requires deep ==> s.g > 0 && Len(s.r) + 2 == STACK_CELLS
    ensures Leads(o, t, bus) && Coded(t.ram, l)
    ensures t == SunkIf(s.(pc := l.pause + 27, d := Cell(0, Cell(at + 2 * Len(left), dc)), ram := Written(s.ram, at / 2, left)),
                             deep, 2 * (l.pause + 24))
    decreases left
  {
    AddressStep(at, Len(left));
    assert Len(left.rest) == Len(left) - 1 && at / 2 < |s.ram|;
    var last := left.rest.Nil?;
    var b := SaveRound(o, s, l, k, at, left.top, Onto(left.rest, dc), Len(left.rest), deep && last, bus);
    if last {
      t := b;
    } else {
      t := SaveRest(o, b, l, k - 1, at + 2, left.rest, dc, deep, bus);
    }
  }

  /** The whole loop over the data cells, for stacks that may be one cell too deep. */
  lemma SaveAll(o: Snap, s: Snap, l: Layout, at: Word, td: Cells, dc: Cells, low: bool, deep: bool, bus: Bus)
    returns (t: Snap)
    requires Leads(o, s, bus) && |s.ram| == RAM_WORDS && s.pc == l.pause + 17 && Coded(s.ram, l)
    requires s.d.Cell? && s.d.top == Len(td) && s.d.rest == Cell(at, Onto(td, dc))
    requires at % 2 == 0 && at + 2 * Len(td) <= RAM_BYTES && Clear(l, at / 2, Len(td))
    requires Len(td) + Len(dc) + 3 <= STACK_CELLS + 1 && (td.Cell? ==> Len(s.r) + 2 <= STACK_CELLS)
    requires low ==> td.Cell? && s.h > 0 && Len(td) + Len(dc) + 3 == STACK_CELLS + 1
    requires deep ==> td.Cell? && s.g > 0 && Len(s.r) + 2 == STACK_CELLS
    ensures Leads(o, t, bus) && Coded(t.ram, l)
    ensures var u := s.(pc := l.pause + 27, ram := Written(s.ram, at / 2, td), h := if low then s.h - 1 else s.h,
                        d := Cell(0, Cell(at + 2 * Len(td), if low then Under(dc, s.d.top) else dc)));
      t == SunkIf(u, deep, 2 * (l.pause + 24))
  {
    var k := s.d.top;
    assert Len(s.d.rest.rest) == Len(td) + Len(dc);
    var a := SaveTest(o, s, l, k, s.d.rest, low, bus);
    if td.Nil? {
      t := a;
    } else {
      var v := if low then Under(dc, k) else dc;
      UnderTwo(k, at, Onto(td, dc), k);
      OntoUnder(td, dc, k);
      assert a.d == Cell(k, Cell(at, Onto(td, v)));
      t := SaveRest(o, a, l, k, at, td, v, deep, bus);
    }
  }

  /** Up to the second loop: the data cells are in memory. */
  lemma DataSaved(o: Snap, s: Snap, l: Layout, at: Word, w: Word, td: Cells, dc: Cells, r: Cells,
                  low: bool, early: bool, late: bool, bus: Bus) returns (c: Snap)
    requires s.d == Cell(Top(s.d), Cell(at, Onto(td, dc))) && Top(s.d) == Len(td)
    requires Leads(o, SunkIf(s, early, 2 * (l.minus + 1)), bus) && s.r == Cell(w, r)
    requires |s.ram| == RAM_WORDS && s.pc == l.pause + 17 && Coded(s.ram, l)
    requires at % 2 == 0 && at + 2 * Len(td) <= RAM_BYTES && Clear(l, at / 2, Len(td))
    requires Len(td) + Len(dc) + 3 <= STACK_CELLS + 1 && Len(s.r) + 1 <= STACK_CELLS && (td.Cell? ==> Len(s.r) + 2 <= STACK_CELLS)
    requires low ==> td.Cell? && s.h > 0 && Len(td) + Len(dc) + 3 == STACK_CELLS + 1
    requires early ==> td.Nil? && s.g > 0
    requires late ==> td.Cell? && s.g > 0 && Len(s.r) + 2 == STACK_CELLS
    ensures Leads(o, SunkIf(c, early || late, if late then 2 * (l.pause + 24) else 2 * (l.minus + 1)), bus) && Coded(c.ram, l)
    ensures c == Snap(l.pause + 27, Cell(0, Cell(at + 2 * Len(td), if low then Under(dc, s.d.top) else dc)),
                      Cell(w, r), Written(s.ram, at / 2, td), if low then s.h - 1 else s.h, s.g)
  {
    var t := SaveAll(o, SunkIf(s, early, 2 * (l.minus + 1)), l, at, td, dc, low, late, bus);
    c := Snap(l.pause + 27, Cell(0, Cell(at + 2 * Len(td), if low then Under(dc, s.d.top) else dc)),
              Cell(w, r), Written(s.ram, at / 2, td), if low then s.h - 1 else s.h, s.g);
  }

  // ---------------------------------------------------------------- the return cells

  /** `drop r> d# 7 rshift bounds`: where the return cells go, and the end. */
  lemma RangesRaw(o: Snap, s: Snap, l: Layout, at: Word, w: Word, dc: Cells, bus: Bus) returns (t: Snap)
    requires Leads(o, s, bus) && |s.ram| == RAM_WORDS && s.pc == l.pause + 27 && Coded(s.ram, l)
    requires s.d == Cell(0, Cell(at, dc)) && s.r.Cell? && s.r.top == w && Len(dc) + 3 <= STACK_CELLS + 1 && Len(s.r) <= STACK_CELLS
    ensures Leads(o, t, bus)
    ensures t == s.(pc := l.pause + 32, d := Cell(at, Cell(Wrap(ShiftRight(w, 7) + at), dc)), r := s.r.rest)
  {
    assert In(s.ram, l, RangePiece);
    var a := Drop(o, s, false, bus);
    a := FromR(o, a, bus);
    a := Pushes(o, a, 7, bus);
    a := ShiftsRight(o, a, bus);
    t := Bounds(o, a, l, bus);
  }

  lemma Ranges(o: Snap, s: Snap, l: Layout, at: Word, w: Word, end: Word, k: nat, nr: nat, dc: Cells, bus: Bus) returns (t: Snap)
    requires Leads(o, s, bus) && |s.ram| == RAM_WORDS && s.pc == l.pause + 27 && Coded(s.ram, l)
    requires s.d == Cell(0, Cell(at, dc)) && s.r.Cell? && s.r.top == w && Len(dc) + 3 <= STACK_CELLS + 1 && Len(s.r) <= STACK_CELLS
    requires w == 0x100 * nr + k && nr < STACK_CELLS && k < STACK_CELLS && end == at + 2 * nr <= RAM_BYTES
    ensures Leads(o, t, bus)
    ensures t == s.(pc := l.pause + 32, d := Cell(at, Cell(end, dc)), r := s.r.rest)
  {
    Seventh(w, nr, k);
    WrapSmall(end);
    t := RangesRaw(o, s, l, at, w, dc, bus);
  }

  /** `2dupxor while r> over !`: a return cell goes to memory. */
  lemma ReturnPut(o: Snap, s: Snap, l: Layout, at: Word, end: Word, dc: Cells, x: Word, low: bool, bus: Bus) returns (t: Snap)
    requires Leads(o, s, bus) && |s.ram| == RAM_WORDS && s.pc == l.pause + 32 && Coded(s.ram, l)
    requires s.d == Cell(at, Cell(end, dc)) && at != end && at < RAM_BYTES && !InCode(l, at / 2) && s.r.Cell? && s.r.top == x
    requires Len(dc) + 4 <= STACK_CELLS + 1
    requires low ==> s.h > 0 && Len(dc) + 4 == STACK_CELLS + 1
    ensures Leads(o, t, bus)
    ensures t == LoweredIf(s.(pc := l.pause + 38, d := Cell(at, Cell(end, dc)), r := s.r.rest, ram := s.ram[at / 2 := x]), low, x)
  {
    assert In(s.ram, l, SaveReturnsPiece);
    CodedStore(s.ram, l, at / 2, x);
    assert In(s.ram[at / 2 := x], l, SaveReturnsPiece);
    assert Len(s.d.rest) == 1 + Len(dc);
    var a := WhileApart(o, s, l.pause + 40, bus);
    a := FromR(o, a, bus);
    a := Over(o, a, false, bus);
    a := StoreDropAt(o, a, low, bus);
    t := Drop(o, a, false, bus);
  }

  lemma ReturnNext(o: Snap, s: Snap, l: Layout, bus: Bus) returns (t: Snap)
    requires Leads(o, s, bus) && |s.ram| == RAM_WORDS && s.pc == l.pause + 38 && Coded(s.ram, l)
    requires s.d.Cell? && Len(s.d) <= STACK_CELLS && Len(s.r) < STACK_CELLS
    ensures Leads(o, t, bus) && t == s.(pc := l.pause + 32, d := Cell(Wrap(s.d.top + 2), s.d.rest))
  {
    assert In(s.ram, l, SaveReturnsPiece);
    var a := CellPlus(o, s, l, false, bus);
    t := Jumps(o, a, l.pause + 32, bus);
  }

  /** One round of the loop over the return cells. */
  lemma SaveReturn(o: Snap, s: Snap, l: Layout, at: Word, end: Word, dc: Cells, x: Word, low: bool, bus: Bus) returns (t: Snap)
    requires Leads(o, s, bus) && |s.ram| == RAM_WORDS && s.pc == l.pause + 32 && Coded(s.ram, l)
    requires s.d == Cell(at, Cell(end, dc)) && s.r.Cell? && s.r.top == x
    requires at != end && at % 2 == 0 && at + 2 <= RAM_BYTES && !InCode(l, at / 2)
    requires Len(dc) + 4 <= STACK_CELLS + 1 && Len(s.r) <= STACK_CELLS
    requires low ==> s.h > 0 && Len(dc) + 4 == STACK_CELLS + 1
    ensures Leads(o, t, bus) && Coded(t.ram, l)
    ensures t == s.(d := Cell(at + 2, Cell(end, if low then Under(dc, x) else dc)), r := s.r.rest,
                    ram := s.ram[at / 2 := x], h := if low then s.h - 1 else s.h)
  {
    AddressStep(at, 1);
    CodedStore(s.ram, l, at / 2, x);
    var a := ReturnPut(o, s, l, at, end, dc, x, low, bus);
    UnderTwo(at, end, dc, x);
    assert a.d == Cell(at, Cell(end, if low then Under(dc, x) else dc));
    assert Len(a.d.rest) == 1 + Len(if low then Under(dc, x) else dc);
    t := ReturnNext(o, a, l, bus);
  }

  /** The test that ends the loop. */
  lemma SaveDone(o: Snap, s: Snap, l: Layout, end: Word, bus: Bus) returns (t: Snap)
    requires Leads(o, s, bus) && |s.ram| == RAM_WORDS && s.pc == l.pause + 32 && Coded(s.ram, l)
    requires s.d.Cell? && s.d.top == end && s.d.rest.Cell? && s.d.rest.top == end && Len(s.d) <= STACK_CELLS
    ensures Leads(o, t, bus) && t == s.(pc := l.pause + 40)
  {
    assert In(s.ram, l, SaveReturnsPiece);
    t := WhileMet(o, s, l.pause + 40, false, bus);
  }

  lemma Half(at: nat, c: nat)
    requires at == 2 * c
    ensures at / 2 == c && at % 2 == 0
  {
  }

  /** The loop over the return cells, for a data stack that may be one cell too deep. */
  lemma {:induction false} SaveReturns(o: Snap, s: Snap, l: Layout, at: Word, c: nat, end: Word, dc: Cells, tr: Cells, rc: Cells,
                                       low: bool, bus: Bus) returns (t: Snap)
    requires Leads(o, s, bus) && |s.ram| == RAM_WORDS && s.pc == l.pause + 32 && Coded(s.ram, l)
    requires s.d == Cell(at, Cell(end, dc)) && s.r == Onto(tr, rc) && tr.Cell?
    requires at == 2 * c && end == at + 2 * Len(tr) && end <= RAM_BYTES && Clear(l, c, Len(tr))
    requires Len(dc) + 4 <= STACK_CELLS + 1 && Len(tr) + Len(rc) <= STACK_CELLS
    requires low ==> s.h > 0 && Len(dc) + 4 == STACK_CELLS + 1
    ensures Leads(o, t, bus) && Coded(t.ram, l)
    ensures var v := if low then Under(dc, Bottom(tr)) else dc;
      t == Snap(l.pause + 40, Cell(end, Cell(end, v)), rc, Written(s.ram, c, tr), if low then s.h - 1 else s.h, s.g)
    decreases tr
  {
    var x, rest := tr.top, tr.rest;
    var last := rest.Nil?;
    Half(at, c);
    assert Len(rest) == Len(tr) - 1 && c < |s.ram|;
    var a := SaveReturn(o, s, l, at, end, dc, x, low && last, bus);
    if last {
      t := SaveDone(o, a, l, end, bus);
    } else {
      t := SaveReturns(o, a, l, at + 2, c + 1, end, dc, rest, rc, low, bus);
    }
  }

  /** From the end of the first loop to the caller of progress. */
  lemma ReturnsSaved(o: Snap, s: Snap, l: Layout, at: Word, w: Word, k: nat, dc: Cells, tr: Cells, rc: Cells, low: bool, bus: Bus)
    returns (t: Snap)
    requires Leads(o, s, bus) && |s.ram| == RAM_WORDS && s.pc == l.pause + 27 && Coded(s.ram, l)
    requires s.d == Cell(0, Cell(at, dc)) && s.r == Cell(w, Onto(tr, rc)) && tr.Cell? && rc.Cell?
    requires at % 2 == 0 && at + 2 * Len(tr) <= RAM_BYTES && Clear(l, at / 2, Len(tr))
    requires Len(dc) + 4 <= STACK_CELLS + 1 && Len(tr) + Len(rc) + 1 <= STACK_CELLS
    requires w == 0x100 * Len(tr) + k && Len(tr) < STACK_CELLS && k < STACK_CELLS
    requires low ==> s.h > 0 && Len(dc) + 4 == STACK_CELLS + 1
    ensures Leads(o, t, bus)
    ensures t == LoweredIf(Snap(Target(rc.top / 2), dc, rc.rest, Written(s.ram, at / 2, tr), s.h, s.g), low, Bottom(tr))
  {
    var end: Word := at + 2 * Len(tr);
    var a := Ranges(o, s, l, at, w, end, k, Len(tr), dc, bus);
    a := SaveReturns(o, a, l, at, at / 2, end, dc, tr, rc, low, bus);
    assert In(a.ram, l, PauseEndPiece);
    assert Len(a.d.rest) == 1 + Len(a.d.rest.rest);
    t := TwoDrop(o, a, l, bus);
  }

  /** The second half of pause, on stacks that the first half may have damaged. */
  lemma ReturnsSunk(o: Snap, s: Snap, l: Layout, at: Word, w: Word, k: nat, dc: Cells, tr: Cells, rc: Cells,
                    low: bool, sunk: bool, x: Word, bus: Bus) returns (t: Snap)
    requires Leads(o, SunkIf(s, sunk, x), bus) && |s.ram| == RAM_WORDS && s.pc == l.pause + 27 && Coded(s.ram, l)
    requires s.d == Cell(0, Cell(at, dc)) && s.r == Cell(w, Onto(tr, rc)) && tr.Cell? && rc.Cell?
    requires at % 2 == 0 && at + 2 * Len(tr) <= RAM_BYTES && Clear(l, at / 2, Len(tr))
    requires Len(dc) + 4 <= STACK_CELLS + 1 && Len(tr) + Len(rc) + 2 <= STACK_CELLS
    requires w == 0x100 * Len(tr) + k && Len(tr) < STACK_CELLS && k < STACK_CELLS
    requires low ==> s.h > 0 && Len(dc) + 4 == STACK_CELLS + 1
    requires sunk ==> s.g > 0
    ensures Leads(o, t, bus)
    ensures t == SunkIf(LoweredIf(Snap(Target(rc.top / 2), dc, rc.rest, Written(s.ram, at / 2, tr), s.h, s.g), low, Bottom(tr)),
                        sunk, x)
  {
    var v := if sunk then Under(rc, x) else rc;
    OntoUnder(tr, rc, x);
    assert Under(s.r, x) == Cell(w, Under(Onto(tr, rc), x));
    assert Under(rc, x) == Cell(rc.top, Under(rc.rest, x));
    t := ReturnsSaved(o, SunkIf(s, sunk, x), l, at, w, k, dc, tr, v, low, bus);
  }

  // ---------------------------------------------------------------- the whole word

  /** The cells in use on the way, for stacks that may be one cell too deep. */
  lemma PauseRoom(s: Snap, td: Cells, tr: Cells, dc: Cells, rc: Cells)
    returns (low: bool, last: bool, early: bool, late: bool)
    requires DataPeak(Len(dc), Len(td)) <= STACK_CELLS + 1 && PausePeak(Len(rc), Len(tr), Len(td)) <= STACK_CELLS
    requires s.r == Onto(tr, rc)
    ensures low == (Loses(s, Len(dc), Len(td)) && Len(td) > 1) && last == (Loses(s, Len(dc), Len(td)) && Len(td) <= 1)
    ensures early == (LosesReturn(s, PausePeak(Len(rc), Len(tr), Len(td))) && td.Nil?)
    ensures late == (LosesReturn(s, PausePeak(Len(rc), Len(tr), Len(td))) && td.Cell?)
    ensures Len(td) + Len(dc) + 3 <= STACK_CELLS + 1 && Len(dc) + 4 <= STACK_CELLS + 1
    ensures Len(s.r) + 2 <= STACK_CELLS && (td.Cell? ==> Len(s.r) + 3 <= STACK_CELLS)
    ensures low ==> td.Cell? && s.h > 0 && Len(td) + Len(dc) + 3 == STACK_CELLS + 1
    ensures low ==> !last && Len(dc) + 5 <= STACK_CELLS + 1
    ensures last ==> s.h > 0 && Len(dc) + 4 == STACK_CELLS + 1
    ensures early ==> td.Nil? && s.g > 0 && Len(s.r) + 2 == STACK_CELLS
    ensures late ==> td.Cell? && s.g > 0 && Len(s.r) + 3 == STACK_CELLS
  {
    low, last := Loses(s, Len(dc), Len(td)) && Len(td) > 1, Loses(s, Len(dc), Len(td)) && Len(td) <= 1;
    early := LosesReturn(s, PausePeak(Len(rc), Len(tr), Len(td))) && td.Nil?;
    late := LosesReturn(s, PausePeak(Len(rc), Len(tr), Len(td))) && td.Cell?;
  }

  /** The return address of the deepest call. */
  function LastCall(l: Layout, late: bool): Word {
    if late then 2 * (l.pause + 24) else 2 * (l.minus + 1)
  }

  /** pause up to its second loop. */
  lemma FirstHalf(s: Snap, l: Layout, p: Word, first: Word, w: Word, nr: nat, td: Cells, dc: Cells,
                  low: bool, early: bool, late: bool, bus: Bus)
    returns (c: Snap)
    requires |s.ram| == RAM_WORDS && s.pc == l.pause && Coded(s.ram, l) && s.ram[l.taskptr] == p && s.d == Onto(td, dc)
    requires w == Wrap(DepthWord(s) - s.ram[l.mark]) && first == p + 2
    requires w == 0x100 * nr + Len(td) && nr < STACK_CELLS && Len(td) < STACK_CELLS
    requires first / 2 == p / 2 + 1 && first % 2 == 0 && first + 2 * Len(td) <= RAM_BYTES
    requires !InCode(l, p / 2) && p / 2 != l.taskptr && Clear(l, first / 2, Len(td))
    requires Len(td) + Len(dc) + 3 <= STACK_CELLS + 1 && Len(s.r) + 2 <= STACK_CELLS && (td.Cell? ==> Len(s.r) + 3 <= STACK_CELLS)
    requires low ==> td.Cell? && s.h > 0 && Len(td) + Len(dc) + 3 == STACK_CELLS + 1
    requires early ==> td.Nil? && s.g > 0 && Len(s.r) + 2 == STACK_CELLS
    requires late ==> td.Cell? && s.g > 0 && Len(s.r) + 3 == STACK_CELLS
    ensures Leads(s, SunkIf(c, early || late, LastCall(l, late)), bus) && Coded(c.ram, l)
    ensures c == Snap(l.pause + 27, Cell(0, Cell(first + 2 * Len(td), if low then Under(dc, Len(td)) else dc)), Cell(w, s.r),
                      Written(s.ram[p / 2 := w], first / 2, td), if low then s.h - 1 else s.h, s.g)
  {
    CodedStore(s.ram, l, p / 2, w);
    var a := Opened(s, l, p, w, first, Len(td), nr, early, bus);
    var u := s.(pc := l.pause + 17, d := Cell(Len(td), Cell(first, s.d)), r := Cell(w, s.r), ram := s.ram[p / 2 := w]);
    c := DataSaved(s, u, l, first, w, td, dc, s.r, low, early, late, bus);
  }

  /** Where the return cells go, and what is free of code. */
  lemma Parts(l: Layout, p: Word, nd: nat, nr: nat) returns (first: Word, at: Word)
    requires StoreFits(l, p, nd + nr)
    ensures first == p + 2 && first / 2 == p / 2 + 1 && first % 2 == 0
    ensures at == first + 2 * nd && at / 2 == p / 2 + 1 + nd && at % 2 == 0 && at + 2 * nr <= RAM_BYTES
    ensures !InCode(l, p / 2) && p / 2 != l.taskptr && Clear(l, first / 2, nd) && Clear(l, at / 2, nr)
  {
    Clears(l, p, nd, nr);
    first, at := p + 2, p + 2 + 2 * nd;
  }

  /** pause as a whole; the flags say which stack is one cell too deep, and when. */
  lemma Halved(s: Snap, l: Layout, p: Word, first: Word, at: Word, w: Word, td: Cells, tr: Cells, dc: Cells, rc: Cells,
               low: bool, last: bool, early: bool, late: bool, bus: Bus) returns (t: Snap)
    requires |s.ram| == RAM_WORDS && s.pc == l.pause && Coded(s.ram, l) && s.ram[l.taskptr] == p
    requires s.d == Onto(td, dc) && s.r == Onto(tr, rc) && tr.Cell? && rc.Cell?
    requires w == Wrap(DepthWord(s) - s.ram[l.mark])
    requires w == 0x100 * Len(tr) + Len(td) && Len(td) < STACK_CELLS && Len(tr) < STACK_CELLS
    requires first == p + 2 && first / 2 == p / 2 + 1 && first % 2 == 0 && !InCode(l, p / 2) && p / 2 != l.taskptr
    requires at == first + 2 * Len(td) && at / 2 == p / 2 + 1 + Len(td) && at % 2 == 0 && at + 2 * Len(tr) <= RAM_BYTES
    requires Clear(l, first / 2, Len(td)) && Clear(l, at / 2, Len(tr))
    requires Len(td) + Len(dc) + 3 <= STACK_CELLS + 1 && Len(dc) + 4 <= STACK_CELLS + 1 && Len(tr) + Len(rc) + 2 <= STACK_CELLS
    requires Len(s.r) + 2 <= STACK_CELLS && (td.Cell? ==> Len(s.r) + 3 <= STACK_CELLS)
    requires low ==> td.Cell? && !last && s.h > 0 && Len(td) + Len(dc) + 3 == STACK_CELLS + 1
    requires low ==> Len(dc) + 5 <= STACK_CELLS + 1
    requires last ==> s.h > 0 && Len(dc) + 4 == STACK_CELLS + 1
    requires early ==> td.Nil? && s.g > 0 && Len(s.r) + 2 == STACK_CELLS
    requires late ==> td.Cell? && s.g > 0 && Len(s.r) + 3 == STACK_CELLS
    ensures Leads(s, t, bus)
    ensures var u := Snap(Target(rc.top / 2), dc, rc.rest, Written(Written(s.ram[p / 2 := w], first / 2, td), at / 2, tr), s.h, s.g);
      t == SunkIf(LoweredIf(LoweredIf(u, low, Len(td)), last, Bottom(tr)), early || late, LastCall(l, late))
  {
    var c := FirstHalf(s, l, p, first, w, Len(tr), td, dc, low, early, late, bus);
    t := ReturnsSunk(s, c, l, at, w, Len(td), c.d.rest.rest, tr, rc, last, early || late, LastCall(l, late), bus);
  }

  /** What pause finds in memory: room for the store, and the depths that progress noted. */
  ghost predicate Noted(s: Snap, l: Layout, p: Word, nd: nat, nr: nat, h: nat, g: nat) {
    && |s.ram| == RAM_WORDS && Coded(s.ram, l) && Laid(l) && StoreFits(l, p, nd + nr) && s.ram[l.taskptr] == p
    && s.ram[l.mark] == 0x100 * g + h && s.h + Len(s.d) == h + nd < STACK_CELLS && s.g + Len(s.r) == g + nr < STACK_CELLS
  }

  lemma Counted(s: Snap, mark: Word, h: nat, g: nat, nd: nat, nr: nat)
    requires s.h + Len(s.d) == h + nd < STACK_CELLS && s.g + Len(s.r) == g + nr < STACK_CELLS && mark == 0x100 * g + h
    ensures Wrap(DepthWord(s) - mark) == 0x100 * nr + nd
  {
    assert DepthWord(s) - mark == 0x100 * nr + nd;
  }

  /** The word with both counts. */
  lemma CountWord(s: Snap, l: Layout, p: Word, td: Cells, tr: Cells, h: nat, g: nat) returns (w: Word)
    requires Noted(s, l, p, Len(td), Len(tr), h, g)
    ensures w == 0x100 * Len(tr) + Len(td) && Len(td) < STACK_CELLS && Len(tr) < STACK_CELLS
    ensures w == Wrap(DepthWord(s) - s.ram[l.mark])
  {
    w := Counts(Len(tr), Len(td));
    Counted(s, s.ram[l.mark], h, g, Len(td), Len(tr));
  }

  lemma DataIs(s: Snap, td: Cells, tr: Cells, dc: Cells, u: Snap, k: Word, low: bool, last: bool)
    requires tr.Cell? && Len(td) < STACK_CELLS && k == Len(td) && u.d == dc && u.h == s.h
    requires low == (Loses(s, Len(dc), Len(td)) && Len(td) > 1) && last == (Loses(s, Len(dc), Len(td)) && Len(td) <= 1)
    ensures LoweredIf(LoweredIf(u, low, k), last, Bottom(tr)) == u.(d := DataLeft(s, td, tr, dc), h := Hidden(s, Len(dc), Len(td)))
  {
  }

  lemma ReturnsAre(s: Snap, l: Layout, td: Cells, peak: nat, u: Snap, early: bool, late: bool)
    requires u.g == s.g && early == (LosesReturn(s, peak) && td.Nil?) && late == (LosesReturn(s, peak) && td.Cell?)
    ensures SunkIf(u, early || late, LastCall(l, late))
            == u.(r := ReturnsLeft(s, l, td, peak, u.r), g := Covered(s, peak))
  {
    SunkEither(u, LosesReturn(s, peak), td.Cell?, 2 * (l.pause + 24), 2 * (l.minus + 1));
  }

  lemma PausedIs(s: Snap, l: Layout, p: Word, td: Cells, tr: Cells, dc: Cells, rc: Cells, u: Snap, k: Word, peak: nat,
                 low: bool, last: bool, early: bool, late: bool)
    requires tr.Cell? && rc.Cell? && Len(td) < STACK_CELLS && k == Len(td) && peak == PausePeak(Len(rc), Len(tr), Len(td))
    requires u == Snap(Target(rc.top / 2), dc, rc.rest, Written(s.ram, p / 2, Image(td, tr)), s.h, s.g)
    requires low == (Loses(s, Len(dc), Len(td)) && Len(td) > 1) && last == (Loses(s, Len(dc), Len(td)) && Len(td) <= 1)
    requires early == (LosesReturn(s, peak) && td.Nil?) && late == (LosesReturn(s, peak) && td.Cell?)
    ensures SunkIf(LoweredIf(LoweredIf(u, low, k), last, Bottom(tr)), early || late, LastCall(l, late))
            == Paused(s, l, p, td, tr, dc, rc)
  {
    DataIs(s, td, tr, dc, u, k, low, last);
    ReturnsAre(s, l, td, peak, u.(d := DataLeft(s, td, tr, dc), h := Hidden(s, Len(dc), Len(td))), early, late);
  }

  /** What the two loops write is the image of the task. */
  lemma WritesImage(ram: seq<Word>, l: Layout, p: Word, first: Word, at: Word, w: Word, td: Cells, tr: Cells)
    requires |ram| == RAM_WORDS && Len(td) < STACK_CELLS && Len(tr) < STACK_CELLS && w == 0x100 * Len(tr) + Len(td)
    requires StoreFits(l, p, Len(td) + Len(tr)) && first / 2 == p / 2 + 1 && at / 2 == p / 2 + 1 + Len(td) && p / 2 < RAM_WORDS
    ensures Written(Written(ram[p / 2 := w], first / 2, td), at / 2, tr) == Written(ram, p / 2, Image(td, tr))
    ensures Saved(Written(ram, p / 2, Image(td, tr)), l, p, td, tr)
  {
    Stores(ram, l, p, w, td, tr);
  }

  lemma Ends(s: Snap, l: Layout, p: Word, first: Word, at: Word, w: Word, td: Cells, tr: Cells, dc: Cells, rc: Cells, t: Snap,
             low: bool, last: bool, early: bool, late: bool, bus: Bus)
    requires |s.ram| == RAM_WORDS && tr.Cell? && rc.Cell? && p / 2 < RAM_WORDS && Leads(s, t, bus)
    requires Len(td) < STACK_CELLS && Len(tr) < STACK_CELLS && w == 0x100 * Len(tr) + Len(td)
    requires StoreFits(l, p, Len(td) + Len(tr)) && first / 2 == p / 2 + 1 && at / 2 == p / 2 + 1 + Len(td)
    requires low == (Loses(s, Len(dc), Len(td)) && Len(td) > 1) && last == (Loses(s, Len(dc), Len(td)) && Len(td) <= 1)
    requires early == (LosesReturn(s, PausePeak(Len(rc), Len(tr), Len(td))) && td.Nil?)
    requires late == (LosesReturn(s, PausePeak(Len(rc), Len(tr), Len(td))) && td.Cell?)
    requires var u := Snap(Target(rc.top / 2), dc, rc.rest, Written(Written(s.ram[p / 2 := w], first / 2, td), at / 2, tr), s.h, s.g);
      t == SunkIf(LoweredIf(LoweredIf(u, low, Len(td)), last, Bottom(tr)), early || late, LastCall(l, late))
    ensures Leads(s, Paused(s, l, p, td, tr, dc, rc), bus)
    ensures Saved(Paused(s, l, p, td, tr, dc, rc).ram, l, p, td, tr)
  {
    WritesImage(s.ram, l, p, first, at, w, td, tr);
    var u := Snap(Target(rc.top / 2), dc, rc.rest, Written(s.ram, p / 2, Image(td, tr)), s.h, s.g);
    PausedIs(s, l, p, td, tr, dc, rc, u, Len(td), PausePeak(Len(rc), Len(tr), Len(td)), low, last, early, late);
  }

  /** pause from its first instruction to the caller of progress. */
  lemma Pause(s: Snap, l: Layout, p: Word, td: Cells, tr: Cells, dc: Cells, rc: Cells, bus: Bus)
    requires s.pc == l.pause && s.d == Onto(td, dc) && s.r == Onto(tr, rc) && tr.Cell? && rc.Cell?
    requires Noted(s, l, p, Len(td), Len(tr), s.h + Len(dc), s.g + Len(rc))
    requires DataPeak(Len(dc), Len(td)) <= STACK_CELLS + 1 && PausePeak(Len(rc), Len(tr), Len(td)) <= STACK_CELLS
    ensures Leads(s, Paused(s, l, p, td, tr, dc, rc), bus)
    ensures Saved(Paused(s, l, p, td, tr, dc, rc).ram, l, p, td, tr)
  {
    var w := CountWord(s, l, p, td, tr, s.h + Len(dc), s.g + Len(rc));
    var low, last, early, late := PauseRoom(s, td, tr, dc, rc);
    var first, at := Parts(l, p, Len(td), Len(tr));
    var t := Halved(s, l, p, first, at, w, td, tr, dc, rc, low, last, early, late, bus);
    Ends(s, l, p, first, at, w, td, tr, dc, rc, t, low, last, early, late, bus);
  }
}
