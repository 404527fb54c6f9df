/**
 Reading and writing with retries in wge100lib.c: a write is repeated until what is read back is what
 was written, and the loop that reads back shares the counter of the loop around it.
 */
module Retries {

  /** What the camera answers to each read and each write, in the order in which they are made. */
  datatype Camera<!T> = Camera(read: nat -> (int, T), write: nat -> int)

  datatype Outcome = Outcome(code: int, left: int, nread: nat, nwritten: nat)

  const OUT_OF_RETRIES := -2
  const DEFAULT_RETRIES := 10

  /** The budget passed in, or the one used for a null pointer. */
  datatype Budget = None | Counter(n: int) {
    function Value(): int {
      if None? then DEFAULT_RETRIES else n
    }
  }

  function Positive(n: int): nat {
    if n > 0 then n else 0
  }

  // ---------------------------------------------------------------- the loops as functions

  /** The reading loop, entered with a code that it gives back if there is no budget left. */
  function ReadLoop<T>(c: Camera<T>, code: int, left: int, i: nat): (o: Outcome)
    ensures o.left <= left && o.nwritten == 0 && i <= o.nread
    decreases Positive(left)
  {
    if left <= 0 then Outcome(code, left, i, 0)
    else if c.read(i).0 == 0 then Outcome(0, left, i + 1, 0)
    else ReadLoop(c, c.read(i).0, left - 1, i + 1)
  }

  /** From the head of the writing loop on. */
  function WriteLoop<T(==)>(c: Camera<T>, data: T, code: int, left: int, i: nat, j: nat): Outcome
    decreases 2 * Positive(left) + (if left > 0 then 1 else 0)
  {
    if left <= 0 then Outcome(code, left, i, j)
    else if c.write(j) != 0 then WriteLoop(c, data, c.write(j), left - 1, i, j + 1)
    else CompareLoop(c, data, left, i, j + 1)
  }

  /** From the reading back on, where the flash write enters the loop. */
  function CompareLoop<T(==)>(c: Camera<T>, data: T, left: int, i: nat, j: nat): Outcome
    decreases if left > 0 then 2 * left else 1
  {
    var o := ReadLoop(c, OUT_OF_RETRIES, left, i);
    if o.code != 0 then WriteLoop(c, data, o.code, o.left - 1, o.nread, j)
    else if o.nread > 0 && c.read(o.nread - 1).1 == data then Outcome(0, o.left, o.nread, j)
    else WriteLoop(c, data, 0, o.left - 1, o.nread, j)
  }

  /** wge100ReliableFlashWrite: the first read is not counted as a retry. */
  function FlashWriteOf<T(==)>(c: Camera<T>, data: T, retries: Budget): Outcome {
    CompareLoop(c, data, retries.Value() + 1, 0, 0)
  }

  /** wge100ReliableSensorWrite */
  function SensorWriteOf<T(==)>(c: Camera<T>, data: T, retries: Budget): Outcome {
    WriteLoop(c, data, OUT_OF_RETRIES, retries.Value(), 0, 0)
  }

  // ---------------------------------------------------------------- the loops

  /** wge100ReliableFlashRead and wge100ReliableSensorRead, whose counter belongs to the caller. */
  method ReliableRead<T>(c: Camera<T>, start: int, i: nat) returns (code: int, left: int, nread: nat)
    ensures Outcome(code, left, nread, 0) == ReadLoop(c, OUT_OF_RETRIES, start, i)
  {
    code, left, nread := OUT_OF_RETRIES, start, i;
    while left > 0
      invariant ReadLoop(c, code, left, nread) == ReadLoop(c, OUT_OF_RETRIES, start, i)
    {
      code, nread := c.read(nread).0, nread + 1;
      if code == 0 {
        return;
      }
      left := left - 1;
    }
  }

  /** The loop is entered in the middle: the flag is set until the first read has been made. */
  method ReliableFlashWrite<T(==)>(c: Camera<T>, data: T, retries: Budget)
    returns (code: int, left: int, nread: nat, nwritten: nat)
    ensures Outcome(code, left, nread, nwritten) == FlashWriteOf(c, data, retries)
  {
    code, nread, nwritten := OUT_OF_RETRIES, 0, 0;
    left := retries.Value() + 1;
    var entering := true;
    while entering || left > 0
      invariant (if entering then CompareLoop(c, data, left, nread, nwritten)
                 else WriteLoop(c, data, code, left, nread, nwritten)) == FlashWriteOf(c, data, retries)
      decreases entering, Positive(left)
    {
      if !entering {
        code, nwritten := c.write(nwritten), nwritten + 1;
        if code != 0 {
          left := left - 1;
          continue;
        }
      }
      ghost var before, made := left, nread;
      entering := false;
      code, left, nread := ReliableRead(c, left, nread);
      ReadSucceeded(c, OUT_OF_RETRIES, before, made);
      if code != 0 {
        left := left - 1;
        continue;
      }
      if c.read(nread - 1).1 == data {
        return;
      }
      if left == 0 {
        break;
      }
      left := left - 1;
    }
  }

  method ReliableSensorWrite<T(==)>(c: Camera<T>, data: T, retries: Budget)
    returns (code: int, left: int, nread: nat, nwritten: nat)
    ensures Outcome(code, left, nread, nwritten) == SensorWriteOf(c, data, retries)
  {
    code, nread, nwritten, left := OUT_OF_RETRIES, 0, 0, retries.Value();
    ghost var result := SensorWriteOf(c, data, retries);
    while left > 0
      invariant WriteLoop(c, data, code, left, nread, nwritten) == result
      decreases left
    {
      code, nwritten := c.write(nwritten), nwritten + 1;
      if code != 0 {
        left := left - 1;
        continue;
      }
      assert CompareLoop(c, data, left, nread, nwritten) == result;
      ghost var before, made := left, nread;
      code, left, nread := ReliableRead(c, left, nread);
      ReadSucceeded(c, OUT_OF_RETRIES, before, made);
      if code != 0 {
        left := left - 1;
        continue;
      }
      if c.read(nread - 1).1 == data {
        return;
      }
      if left == 0 {
        code := OUT_OF_RETRIES;
      }
      left := left - 1;
    }
  }

  // ---------------------------------------------------------------- what the counter is good for

  /** The reading loop gives zero exactly when a read has succeeded, with budget left. */
  lemma {:induction false} ReadSucceeded<T>(c: Camera<T>, code: int, left: int, i: nat)
    requires code != 0
    ensures var o := ReadLoop(c, code, left, i);
      if o.code == 0 then o.left > 0 && i < o.nread && c.read(o.nread - 1).0 == 0 && o.left == left - (o.nread - 1 - i)
      else o.left == (if left > 0 then 0 else left) && o.nread == i + Positive(left)
    decreases Positive(left)
  {
    if left > 0 && c.read(i).0 != 0 {
      ReadSucceeded(c, c.read(i).0, left - 1, i + 1);
    }
  }

  /** The last of so many reads has succeeded. */
  predicate Compared<T>(c: Camera<T>, n: nat) {
    n > 0 && c.read(n - 1).0 == 0
  }

  /** It has succeeded, and the data was something else. */
  predicate Mismatched<T(==)>(c: Camera<T>, data: T, n: nat) {
    Compared(c, n) && c.read(n - 1).1 != data
  }

  /**
   What the result means: zero says that the last read has succeeded, and the counter says whether it
   read the data; any other code says that the budget is used up.
   */
  predicate Verdict<T(==)>(c: Camera<T>, data: T, o: Outcome) {
    && (o.code == 0 ==> Compared(c, o.nread) && (o.left > 0 <==> c.read(o.nread - 1).1 == data))
    && (o.code != 0 ==> o.left <= 0)
  }

  lemma {:induction false} WriteVerdict<T>(c: Camera<T>, data: T, code: int, left: int, i: nat, j: nat)
    requires code == 0 ==> Mismatched(c, data, i)
    ensures var o := WriteLoop(c, data, code, left, i, j);
      Verdict(c, data, o) && o.nread <= i + Positive(left) && o.nwritten <= j + Positive(left)
    decreases 2 * Positive(left) + (if left > 0 then 1 else 0)
  {
    if left > 0 {
      if c.write(j) != 0 {
        WriteVerdict(c, data, c.write(j), left - 1, i, j + 1);
      } else {
        CompareVerdict(c, data, left, i, j + 1);
      }
    }
  }

  lemma {:induction false} CompareVerdict<T>(c: Camera<T>, data: T, left: int, i: nat, j: nat)
    ensures var o := CompareLoop(c, data, left, i, j);
      Verdict(c, data, o) && o.nread <= i + Positive(left) && o.nwritten <= j + Positive(left - 1)
    decreases if left > 0 then 2 * left else 1
  {
    var r := ReadLoop(c, OUT_OF_RETRIES, left, i);
    ReadSucceeded(c, OUT_OF_RETRIES, left, i);
    if r.code != 0 {
      WriteVerdict(c, data, r.code, r.left - 1, r.nread, j);
    } else if c.read(r.nread - 1).1 != data {
      WriteVerdict(c, data, 0, r.left - 1, r.nread, j);
    }
  }

  /**
   A flash write with a budget of n makes at most n writes and n + 1 reads. If it returns zero, the last
   read succeeded, and the page is as it should be exactly when the counter is still positive; it
   returns something else only with the counter used up.
   */
  lemma FlashWriteBudget<T>(c: Camera<T>, data: T, retries: Budget)
    ensures var o, n := FlashWriteOf(c, data, retries), Positive(retries.Value());
      o.nwritten <= n && o.nread <= n + 1 && Verdict(c, data, o)
  {
    CompareVerdict(c, data, retries.Value() + 1, 0, 0);
  }

  lemma SensorWriteBudget<T>(c: Camera<T>, data: T, retries: Budget)
    ensures var o, n := SensorWriteOf(c, data, retries), Positive(retries.Value());
      o.nwritten <= n && o.nread <= n && Verdict(c, data, o)
  {
    WriteVerdict(c, data, OUT_OF_RETRIES, retries.Value(), 0, 0);
  }

  // ---------------------------------------------------------------- nothing is given up early

  /** How many of the first j writes failed. */
  function FailedWrites<T>(c: Camera<T>, j: nat): nat {
    if j == 0 then 0 else FailedWrites(c, j - 1) + if c.write(j - 1) != 0 then 1 else 0
  }

  /** How many of the first i reads failed, or gave something else than the data. */
  function FailedReads<T(==)>(c: Camera<T>, data: T, i: nat): nat {
    if i == 0 then 0 else FailedReads(c, data, i - 1) + if c.read(i - 1) != (0, data) then 1 else 0
  }

  function Failures<T(==)>(c: Camera<T>, data: T, i: nat, j: nat): nat {
    FailedReads(c, data, i) + FailedWrites(c, j)
  }

  /** What was read last is the data. */
  predicate InPlace<T(==)>(c: Camera<T>, data: T, i: nat) {
    i > 0 && c.read(i - 1) == (0, data)
  }

  /** From a counter that is positive: it says what is left after the failures, or all of it has gone into them. */
  predicate Spent<T(==)>(c: Camera<T>, data: T, left: int, before: nat, o: Outcome) {
    var made := Failures(c, data, o.nread, o.nwritten) - before;
    if o.left > 0 then o.code == 0 && InPlace(c, data, o.nread) && made == left - o.left
    else made == left && LastCode(c, o)
  }

  /** The code is that of the last write or of the last read. */
  predicate LastCode<T>(c: Camera<T>, o: Outcome) {
    || (o.nwritten > 0 && o.code == c.write(o.nwritten - 1))
    || (o.nread > 0 && o.code == c.read(o.nread - 1).0)
  }

  lemma {:induction false} ReadSpends<T>(c: Camera<T>, data: T, code: int, left: int, i: nat)
    requires left > 0
    ensures var o := ReadLoop(c, code, left, i);
      && i < o.nread && o.code == c.read(o.nread - 1).0
      && if o.code != 0 then o.left == 0 && FailedReads(c, data, o.nread) == FailedReads(c, data, i) + left
         else o.left > 0 && FailedReads(c, data, o.nread - 1) == FailedReads(c, data, i) + left - o.left
    decreases left
  {
    if c.read(i).0 != 0 {
      if left > 1 {
        ReadSpends(c, data, c.read(i).0, left - 1, i + 1);
      } else {
        assert ReadLoop(c, c.read(i).0, 0, i + 1) == Outcome(c.read(i).0, 0, i + 1, 0);
      }
    }
  }

  lemma {:induction false} WriteSpends<T>(c: Camera<T>, data: T, code: int, left: int, i: nat, j: nat)
    requires left > 0
    ensures Spent(c, data, left, Failures(c, data, i, j), WriteLoop(c, data, code, left, i, j))
    decreases 2 * left + 1
  {
    if c.write(j) == 0 {
      CompareSpends(c, data, left, i, j + 1);
    } else if left > 1 {
      WriteSpends(c, data, c.write(j), left - 1, i, j + 1);
    } else {
      assert WriteLoop(c, data, c.write(j), 0, i, j + 1) == Outcome(c.write(j), 0, i, j + 1);
    }
  }

  lemma {:induction false} CompareSpends<T>(c: Camera<T>, data: T, left: int, i: nat, j: nat)
    requires left > 0
    ensures Spent(c, data, left, Failures(c, data, i, j), CompareLoop(c, data, left, i, j))
    decreases 2 * left
  {
    var r := ReadLoop(c, OUT_OF_RETRIES, left, i);
    ReadSpends(c, data, OUT_OF_RETRIES, left, i);
    if r.code == 0 && c.read(r.nread - 1).1 != data && r.left > 1 {
      WriteSpends(c, data, 0, r.left - 1, r.nread, j);
    }
  }

  /** The budget: what the caller's counter holds, or ten. */
  function BudgetOf(retries: Budget): int {
    if retries.None? then 10 else retries.n
  }

  /**
   A register write gives up only when so many writes and reads as there is budget have failed, or have shown other
   data. With fewer failures it returns zero, with the data read back and the rest of the budget in the counter.
   Without a budget it does nothing and returns -2.
   */
  lemma SensorWriteSpends<T>(c: Camera<T>, data: T, retries: Budget)
    ensures var o, n := SensorWriteOf(c, data, retries), BudgetOf(retries);
      if n > 0 then Spent(c, data, n, 0, o) else o == Outcome(-2, n, 0, 0)
  {
    if retries.Value() > 0 {
      WriteSpends(c, data, OUT_OF_RETRIES, retries.Value(), 0, 0);
    }
  }

  /** The same for a page, with one failure more, for the first read. */
  lemma FlashWriteSpends<T>(c: Camera<T>, data: T, retries: Budget)
    ensures var o, n := FlashWriteOf(c, data, retries), BudgetOf(retries) + 1;
      if n > 0 then Spent(c, data, n, 0, o) else o == Outcome(-2, n - 1, 0, 0)
  {
    if retries.Value() + 1 > 0 {
      CompareSpends(c, data, retries.Value() + 1, 0, 0);
    } else {
      var left := retries.Value() + 1;
      assert ReadLoop(c, OUT_OF_RETRIES, left, 0) == Outcome(-2, left, 0, 0);
      assert WriteLoop(c, data, OUT_OF_RETRIES, left - 1, 0, 0) == Outcome(-2, left - 1, 0, 0);
    }
  }

  /** A page that is as it should be already is not written, and a camera that answers loses no budget. */
  lemma NothingToWrite<T>(c: Camera<T>, data: T, retries: Budget)
    requires c.read(0) == (0, data) && retries.Value() >= 0
    ensures FlashWriteOf(c, data, retries) == Outcome(0, retries.Value() + 1, 1, 0)
  {
  }

  /**
   The return code alone is no success: with no budget and a page that differs, zero is returned though
   nothing has been written, where the documentation promises -2.
   */
  lemma ZeroIsNotSuccess<T>(c: Camera<T>, data: T)
    requires Mismatched(c, data, 1)
    ensures FlashWriteOf(c, data, Counter(0)) == Outcome(0, 0, 1, 0)
  {
  }

  /** When all writes and reads succeed but none takes, every retry is one write and one read. */
  lemma {:induction false} NeverTakes<T>(c: Camera<T>, data: T, code: int, left: nat, i: nat, j: nat)
    requires forall k :: k >= i ==> c.read(k).0 == 0 && c.read(k).1 != data
    requires forall k :: k >= j ==> c.write(k) == 0
    ensures WriteLoop(c, data, code, left, i, j) == Outcome(if left > 0 then 0 else code, 0, i + left, j + left)
    decreases left
  {
    if left > 0 {
      assert ReadLoop(c, OUT_OF_RETRIES, left, i) == Outcome(0, left, i + 1, 0);
      NeverTakes(c, data, 0, left - 1, i + 1, j + 1);
    }
  }
}
