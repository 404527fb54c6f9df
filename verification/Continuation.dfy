/**
 The coroutine switch of continuation.fs on the processor: pause writes the stacks of the task to memory and goes back
 to the code that called progress, progress puts them back on top of its caller's and goes on in the task. Both keep
 their own temporaries and return addresses on the stacks that they move, so every instruction is stepped on the exact
 machine, with its two rings of 32 cells.
 */
module Continuation {
  import opened Words
  import opened J1
  import opened CodeGen
  import opened Primitives
  import opened Stacks
  import opened Snapshots
  import opened SwitchCode
  import opened ProgressWord
  import opened PauseWord

  /** `taskptr @ h# 0100 over !`: no data cell, one return cell. */
  lemma LaunchStart(s: Snap, l: Layout, p: Word, xt: Word, v: Cells, bus: Bus) returns (t: Snap)
    requires |s.ram| == RAM_WORDS && s.pc == l.launch && Coded(s.ram, l) && s.ram[l.taskptr] == p && p < RAM_BYTES && !InCode(l, p / 2)
    requires s.d == Cell(xt, v) && Len(v) + 4 <= STACK_CELLS + 1
    ensures Leads(s, t, bus) && t == s.(pc := l.launch + 6, d := Cell(p, s.d), ram := s.ram[p / 2 := 0x100]) && Coded(t.ram, l)
  {
    LeadsHere(s, bus);
    CodedStore(s.ram, l, p / 2, 0x100);
    assert In(s.ram, l, LaunchPiece) && In(s.ram[p / 2 := 0x100], l, LaunchPiece);
    assert Len(s.d) == 1 + Len(v);
    var a := Pushes(s, s, 2 * l.taskptr, bus);
    a := Fetches(s, a, bus);
    a := Pushes(s, a, 0x100, bus);
    a := Over(s, a, false, bus);
    a := StoreDrop(s, a, bus);
    t := Drop(s, a, false, bus);
  }

  /** `cell+ !`: the address at which the task begins. */
  lemma LaunchEnd(o: Snap, s: Snap, l: Layout, p: Word, xt: Word, v: Cells, bus: Bus) returns (t: Snap)
    requires Leads(o, s, bus) && |s.ram| == RAM_WORDS && s.pc == l.launch + 6 && Coded(s.ram, l)
    requires p + 4 <= RAM_BYTES && p % 2 == 0 && !InCode(l, p / 2 + 1)
    requires s.d == Cell(p, Cell(xt, v)) && Len(v) + 3 <= STACK_CELLS + 1 && s.r.Cell? && Len(s.r) < STACK_CELLS
    ensures Leads(o, t, bus)
    ensures t == Snap(Target(s.r.top / 2), v, s.r.rest, s.ram[p / 2 + 1 := xt], s.h, s.g)
  {
    AddressStep(p, 1);
    CodedStore(s.ram, l, p / 2 + 1, xt);
    assert In(s.ram, l, LaunchPiece) && In(s.ram[p / 2 + 1 := xt], l, LaunchPiece);
    assert Len(s.d.rest) == 1 + Len(v);
    var a := CellPlus(o, s, l, false, bus);
    a := StoreDrop(o, a, bus);
    t := Drop(o, a, true, bus);
  }

  lemma LaunchImage(ram: seq<Word>, l: Layout, p: Word, xt: Word)
    requires |ram| == RAM_WORDS && StoreFits(l, p, 1)
    ensures p + 4 <= RAM_BYTES && p % 2 == 0 && !InCode(l, p / 2) && !InCode(l, p / 2 + 1)
    ensures ram[p / 2 := 0x100][p / 2 + 1 := xt] == Written(ram, p / 2, Image(Nil, Cell(xt, Nil)))
    ensures Saved(Written(ram, p / 2, Image(Nil, Cell(xt, Nil))), l, p, Nil, Cell(xt, Nil))
  {
    assert InStore(p, 1, p / 2) && InStore(p, 1, p / 2 + 1);
    var v := Image(Nil, Cell(xt, Nil));
    assert v == Cell(0x100, Cell(xt, Nil));
    var one := ram[p / 2 := 0x100];
    assert Written(one, p / 2 + 1, Cell(xt, Nil)) == Written(one[p / 2 + 1 := xt], p / 2 + 2, Nil);
    WrittenLies(ram, p / 2, v);
  }

  /** launch: a task that has no data yet and will be entered at xt. */
  lemma Launch(s: Snap, l: Layout, p: Word, xt: Word, v: Cells, bus: Bus)
    requires |s.ram| == RAM_WORDS && s.pc == l.launch && Coded(s.ram, l) && s.ram[l.taskptr] == p && StoreFits(l, p, 1)
    requires s.d == Cell(xt, v) && Len(v) + 4 <= STACK_CELLS + 1 && s.r.Cell? && Len(s.r) < STACK_CELLS
    ensures Leads(s, Snap(Target(s.r.top / 2), v, s.r.rest, Written(s.ram, p / 2, Image(Nil, Cell(xt, Nil))), s.h, s.g), bus)
    ensures Saved(Written(s.ram, p / 2, Image(Nil, Cell(xt, Nil))), l, p, Nil, Cell(xt, Nil))
  {
    LaunchImage(s.ram, l, p, xt);
    var a := LaunchStart(s, l, p, xt, v, bus);
    a := LaunchEnd(s, a, l, p, xt, v, bus);
  }

  // ---------------------------------------------------------------- one cell too many

  /** The same stacks, their one data cell underneath being known. */
  function WithData(s: Snap, x: Word): Snap
    requires s.h == 1
  {
    s.(d := Under(s.d, x), h := 0)
  }

  function WithReturn(s: Snap, x: Word): Snap
    requires s.g == 1
  {
    s.(r := Under(s.r, x), g := 0)
  }

  lemma DataKnown(s: Snap, x: Word, t: Snap, bus: Bus)
    requires s.h == 1 && Leads(s, t, bus)
    ensures Leads(WithData(s, x), t, bus)
  {
    forall m | Is(m, WithData(s, x))
      ensures Gets(m, t, bus)
    {
      if s.d.Cell? {
        assert Under(s.d, x) == Cell(s.d.top, Under(s.d.rest, x));
        OnLess(m.dstack, m.dsp, s.d.rest, x);
      }
      assert Is(m, s);
    }
  }

  lemma ReturnKnown(s: Snap, x: Word, t: Snap, bus: Bus)
    requires s.g == 1 && Leads(s, t, bus)
    ensures Leads(WithReturn(s, x), t, bus)
  {
    forall m | Is(m, WithReturn(s, x))
      ensures Gets(m, t, bus)
    {
      OnLess(m.rstack, m.rsp, s.r, x);
      assert Is(m, s);
    }
  }

  /** A caller of progress with one data cell too many: its lowest, x, is replaced by the address of the store. */
  lemma ProgressSpills(s: Snap, l: Layout, p: Word, td: Cells, tr: Cells, x: Word, bus: Bus)
    requires |s.ram| == RAM_WORDS && s.pc == l.progress && Coded(s.ram, l) && Laid(l)
    requires s.ram[l.taskptr] == p && Saved(s.ram, l, p, td, tr) && tr.Cell?
    requires s.h == 1 && s.g == 0 && DataPeak(Len(s.d), Len(td)) == STACK_CELLS + 1
    requires ReturnPeak(Len(s.r), Len(tr), Len(td)) <= STACK_CELLS
    ensures var t := Resumed(s, l, p, td, tr);
      && Leads(WithData(s, x), t, bus)
      && t.d == Onto(td, Under(s.d, p)) && t.r == Onto(tr.rest, s.r) && t.h == 0 && t.g == 0
  {
    Progress(s, l, p, td, tr, bus);
    DataKnown(s, x, Resumed(s, l, p, td, tr), bus);
  }

  /** With one return cell too many the lowest becomes the address of the first saved cell, or a return address. */
  lemma ProgressSinks(s: Snap, l: Layout, p: Word, td: Cells, tr: Cells, x: Word, bus: Bus)
    requires |s.ram| == RAM_WORDS && s.pc == l.progress && Coded(s.ram, l) && Laid(l)
    requires s.ram[l.taskptr] == p && Saved(s.ram, l, p, td, tr) && tr.Cell?
    requires s.h == 0 && s.g == 1 && DataPeak(Len(s.d), Len(td)) <= STACK_CELLS + 1
    requires ReturnPeak(Len(s.r), Len(tr), Len(td)) == STACK_CELLS
    ensures var t := Resumed(s, l, p, td, tr);
      && Leads(WithReturn(s, x), t, bus)
      && t.r == Onto(tr.rest, Under(s.r, if td.Cell? then Wrap(p + 2) else 2 * (l.progress + 24)))
      && t.d == Onto(td, s.d) && t.h == 0 && t.g == 0
  {
    Progress(s, l, p, td, tr, bus);
    ReturnKnown(s, x, Resumed(s, l, p, td, tr), bus);
  }

  /** At pause a data cell too many of the caller's comes back as the count, or as the task's lowest return cell. */
  lemma PauseSpills(s: Snap, l: Layout, p: Word, td: Cells, tr: Cells, dc: Cells, rc: Cells, x: Word, bus: Bus)
    requires s.pc == l.pause && s.d == Onto(td, dc) && s.r == Onto(tr, rc) && tr.Cell? && rc.Cell?
    requires s.h == 1 && s.g == 0 && Noted(s, l, p, Len(td), Len(tr), s.h + Len(dc), s.g + Len(rc))
    requires DataPeak(Len(dc), Len(td)) == STACK_CELLS + 1 && PausePeak(Len(rc), Len(tr), Len(td)) <= STACK_CELLS
    ensures var t := Paused(s, l, p, td, tr, dc, rc);
      && Leads(WithData(s, x), t, bus)
      && t.d == Under(dc, if Len(td) > 1 then Wrap(Len(td)) else Bottom(tr)) && t.r == rc.rest && t.h == 0 && t.g == 0
  {
    Pause(s, l, p, td, tr, dc, rc, bus);
    DataKnown(s, x, Paused(s, l, p, td, tr, dc, rc), bus);
  }

  lemma ReturnAtPause(s: Snap, l: Layout, td: Cells, peak: nat, rest: Cells, back: Word)
    requires s.g == 1 && peak == STACK_CELLS && back == if td.Cell? then 2 * (l.pause + 24) else 2 * (l.minus + 1)
    ensures ReturnsLeft(s, l, td, peak, rest) == Under(rest, back) && Covered(s, peak) == 0
  {
  }

  /** And a return cell too many as a return address of pause itself. */
  lemma PauseSinks(s: Snap, l: Layout, p: Word, td: Cells, tr: Cells, dc: Cells, rc: Cells, x: Word, back: Word, bus: Bus)
    requires s.pc == l.pause && s.d == Onto(td, dc) && s.r == Onto(tr, rc) && tr.Cell? && rc.Cell?
    requires back == if td.Cell? then 2 * (l.pause + 24) else 2 * (l.minus + 1)
    requires s.h == 0 && s.g == 1 && Noted(s, l, p, Len(td), Len(tr), s.h + Len(dc), s.g + Len(rc))
    requires DataPeak(Len(dc), Len(td)) <= STACK_CELLS + 1 && PausePeak(Len(rc), Len(tr), Len(td)) == STACK_CELLS
    ensures var t := Paused(s, l, p, td, tr, dc, rc);
      && Leads(WithReturn(s, x), t, bus)
      && t.r == Under(rc.rest, back) && t.d == dc && t.h == 0 && t.g == 0
  {
    ReturnAtPause(s, l, td, PausePeak(Len(rc), Len(tr), Len(td)), rc.rest, back);
    Pause(s, l, p, td, tr, dc, rc, bus);
    ReturnKnown(s, x, Paused(s, l, p, td, tr, dc, rc), bus);
  }

  // ---------------------------------------------------------------- alternation

  /** A task at rest. */
  datatype Task = Task(d: Cells, r: Cells)

  /** A caller at progress, and the task at its next pause: what it then has on top of the caller's cells. */
  datatype Round = Round(call: Snap, pause: Snap, task: Task)

  /** Room on both stacks for the words' own cells, and in memory for the store. */
  ghost predicate Room(l: Layout, p: Word, task: Task, now: Round) {
    && DataPeak(Len(now.call.d), Len(task.d)) <= STACK_CELLS + 1
    && ReturnPeak(Len(now.call.r), Len(task.r), Len(task.d)) <= STACK_CELLS
    && DataPeak(Len(now.call.d), Len(now.task.d)) <= STACK_CELLS + 1
    && PausePeak(Len(now.call.r), Len(now.task.r), Len(now.task.d)) <= STACK_CELLS
    && StoreFits(l, p, Len(now.task.d) + Len(now.task.r))
  }

  /** All the stacks are known, and code and variables are as they were. */
  ghost predicate Ready(s: Snap, l: Layout, p: Word, entry: nat) {
    s.pc == entry && s.h == 0 && s.g == 0 && |s.ram| == RAM_WORDS && Coded(s.ram, l) && s.ram[l.taskptr] == p && s.r.Cell?
  }

  /**
   One round after memory `ram`: whatever the caller did, the store is untouched; whatever the task did, it left the
   caller's cells and the noted depths alone.
   */
  ghost predicate Plays(l: Layout, p: Word, ram: seq<Word>, task: Task, now: Round)
    requires |ram| == RAM_WORDS
  {
    && Ready(now.call, l, p, l.progress) && Ready(now.pause, l, p, l.pause)
    && (forall c: nat :: InStore(p, Len(task.d) + Len(task.r), c) && c < RAM_WORDS ==> now.call.ram[c] == ram[c])
    && now.task.r.Cell? && now.pause.d == Onto(now.task.d, now.call.d) && now.pause.r == Onto(now.task.r, now.call.r)
    && now.pause.ram[l.mark] == DepthWord(now.call)
    && Room(l, p, task, now)
  }

  /** Memory once the round is over. */
  function MemoryAfter(p: Word, now: Round): seq<Word> {
    Written(now.pause.ram, p / 2, Image(now.task.d, now.task.r))
  }

  ghost predicate Alternation(l: Layout, p: Word, ram: seq<Word>, task: Task, rounds: seq<Round>)
    requires |ram| == RAM_WORDS
    decreases |rounds|
  {
    rounds == []
    || (Plays(l, p, ram, task, rounds[0])
        && Alternation(l, p, MemoryAfter(p, rounds[0]), rounds[0].task, rounds[1..]))
  }

  /** The task as round i finds it: as it was at first, or at its last pause. */
  function TaskAt(task: Task, rounds: seq<Round>, i: nat): Task
    requires i <= |rounds|
  {
    if i == 0 then task else rounds[i - 1].task
  }

  /**
   The caller's call of progress leads to the task, at its own return address and with its own cells on the caller's;
   the task's call of pause leads back behind the call of progress, with the caller's stacks as they were there.
   */
  ghost predicate Undisturbed(l: Layout, p: Word, task: Task, now: Round, bus: Bus) {
    && task.r.Cell? && now.call.r.Cell? && |now.call.ram| == RAM_WORDS
    && Leads(now.call, Snap(Target(task.r.top / 2), Onto(task.d, now.call.d), Onto(task.r.rest, now.call.r),
                            now.call.ram[l.mark := DepthWord(now.call)], 0, 0), bus)
    && Leads(now.pause, Snap(Target(now.call.r.top / 2), now.call.d, now.call.r.rest, MemoryAfter(p, now), 0, 0), bus)
  }

  lemma DepthIs(s: Snap)
    requires s.h == 0 && s.g == 0 && Len(s.d) < STACK_CELLS && Len(s.r) < STACK_CELLS
    ensures DepthWord(s) == 0x100 * Len(s.r) + Len(s.d)
  {
  }

  lemma There(l: Layout, p: Word, ram: seq<Word>, task: Task, now: Round, bus: Bus)
    requires |ram| == RAM_WORDS && Laid(l) && Saved(ram, l, p, task.d, task.r) && task.r.Cell? && Plays(l, p, ram, task, now)
    ensures Leads(now.call, Snap(Target(task.r.top / 2), Onto(task.d, now.call.d), Onto(task.r.rest, now.call.r),
                                 now.call.ram[l.mark := DepthWord(now.call)], 0, 0), bus)
  {
    SavedSame(ram, now.call.ram, l, p, task.d, task.r);
    Progress(now.call, l, p, task.d, task.r, bus);
  }

  lemma Back(l: Layout, p: Word, ram: seq<Word>, task: Task, now: Round, bus: Bus)
    requires |ram| == RAM_WORDS && Laid(l) && Plays(l, p, ram, task, now)
    ensures Leads(now.pause, Snap(Target(now.call.r.top / 2), now.call.d, now.call.r.rest, MemoryAfter(p, now), 0, 0), bus)
    ensures Saved(MemoryAfter(p, now), l, p, now.task.d, now.task.r)
  {
    var dc, rc, td, tr := now.call.d, now.call.r, now.task.d, now.task.r;
    DepthIs(now.call);
    Pause(now.pause, l, p, td, tr, dc, rc, bus);
  }

  /** Over every alternation neither the task nor any of its callers is disturbed. */
  lemma {:induction false} Alternates(l: Layout, p: Word, ram: seq<Word>, task: Task, rounds: seq<Round>, bus: Bus)
    requires |ram| == RAM_WORDS && Laid(l) && Saved(ram, l, p, task.d, task.r) && task.r.Cell?
    requires Alternation(l, p, ram, task, rounds)
    ensures forall i :: 0 <= i < |rounds| ==> Undisturbed(l, p, TaskAt(task, rounds, i), rounds[i], bus)
    decreases |rounds|
  {
    if rounds != [] {
      var now, rest := rounds[0], rounds[1..];
      There(l, p, ram, task, now, bus);
      Back(l, p, ram, task, now, bus);
      Alternates(l, p, MemoryAfter(p, now), now.task, rest, bus);
      forall i | 0 <= i < |rounds|
        ensures Undisturbed(l, p, TaskAt(task, rounds, i), rounds[i], bus)
      {
        if i > 0 {
          assert rest[i - 1] == rounds[i];
          assert TaskAt(now.task, rest, i - 1) == TaskAt(task, rounds, i);
        }
      }
    }
  }
}
