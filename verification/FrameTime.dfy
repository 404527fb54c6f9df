/**
 The frame time filter of the camera node: arrival times are smoothed by the least of the times that
 earlier frames predict. Times are real numbers or infinity.
 */
module FrameTime {

  /** Infinity, or a time. */
  datatype Time = Never | At(t: real)

  datatype Settings = Settings(period: real, late: real, early: real, maxRecovery: int, maxSkipped: int)

  datatype State = State(anticipated: Time, relock: Time, unlocked: int, last: int)

  datatype Frame = Frame(time: real, number: int)

  function Delayed(t: Time, d: real): Time {
    if t.At? then At(t.t + d) else Never
  }

  predicate Before(x: real, t: Time) {
    t.At? ==> x < t.t
  }

  /** Frame numbers wrap around after 16 bits. */
  function Delta(number: int, last: int): nat {
    (number - last) % 0x1_0000
  }

  /** Up to 65535 frames on, however often the numbers have wrapped around, the difference counts them. */
  lemma DeltaCounts(last: int, frames: nat)
    requires frames < 65536
    ensures Delta((last + frames) % 65536, last) == frames
  {
  }

  /** How much time so many frames take. */
  function FrameTimes(c: Settings, frames: nat): real {
    c.period * frames as real
  }

  /** reset_filter: the count starts at the threshold, cut down to an integer. */
  function Reset(c: Settings, last: int): State {
    State(Never, Never, Truncated(c.late), last)
  }

  function Truncated(x: real): int {
    if x >= 0.0 then x.Floor else -((-x).Floor)
  }

  // ---------------------------------------------------------------- one frame, as a function

  /** The state when a frame arrives, moved on by the frames since the last one. */
  function Moved(c: Settings, s: State, f: Frame): State {
    var delta := Delta(f.number, s.last);
    var r := if delta > c.maxSkipped then Reset(c, s.last) else s;
    var d := FrameTimes(c, delta);
    var relock := Delayed(r.relock, d);
    State(Delayed(r.anticipated, d), if Before(f.time, relock) then At(f.time) else relock, r.unlocked, f.number)
  }

  predicate Skipped(c: Settings, s: State, f: Frame) {
    Delta(f.number, s.last) > c.maxSkipped
  }

  /** The frame is before all that was anticipated. */
  predicate First(c: Settings, s: State, f: Frame) {
    Before(f.time, Moved(c, s, f).anticipated)
  }

  predicate TooLate(c: Settings, s: State, f: Frame) {
    var a := Moved(c, s, f).anticipated;
    a.At? && f.time > a.t + c.late
  }

  /** The filter gives up on what it anticipated. */
  predicate Relocks(c: Settings, s: State, f: Frame) {
    !First(c, s, f) && TooLate(c, s, f) && s.unlocked + 1 > c.maxRecovery
  }

  function Next(c: Settings, s: State, f: Frame): State {
    var m := Moved(c, s, f);
    if First(c, s, f) then State(At(f.time), Never, 0, f.number)
    else if TooLate(c, s, f) then
      if s.unlocked + 1 > c.maxRecovery then State(m.relock, Never, s.unlocked + 1, f.number)
      else m.(unlocked := s.unlocked + 1)
    else m
  }

  /** The time that the filter gives the frame, before the sign that marks it as early. */
  function Output(c: Settings, s: State, f: Frame): real {
    var a := Next(c, s, f).anticipated;
    if !First(c, s, f) && TooLate(c, s, f) && a.At? then a.t else f.time
  }

  predicate Early(c: Settings, s: State, f: Frame) {
    var a := Moved(c, s, f).anticipated;
    a.At? && f.time < a.t - c.early
  }

  // ---------------------------------------------------------------- what frames predict

  /** Frames that have gone by between frame i and the last of the first n. */
  function Elapsed(fs: seq<Frame>, i: nat, n: nat): nat
    requires n <= |fs|
  {
    if n <= i + 1 then 0 else Elapsed(fs, i, n - 1) + Delta(fs[n - 1].number, fs[n - 2].number)
  }

  /** The time that frame i predicts for the last of the first n. */
  function Predicted(c: Settings, fs: seq<Frame>, i: nat, n: nat): real
    requires i < n <= |fs|
  {
    fs[i].time + FrameTimes(c, Elapsed(fs, i, n))
  }

  /** The least prediction of the frames from a given one on, for the last of the first n. */
  ghost predicate IsLeast(t: Time, c: Settings, fs: seq<Frame>, from: nat, n: nat)
    requires from <= n <= |fs|
  {
    if from == n then t == Never
    else
      && t.At?
      && (forall i :: from <= i < n ==> t.t <= Predicted(c, fs, i, n))
      && (exists i :: from <= i < n && t.t == Predicted(c, fs, i, n))
  }

  lemma PredictedMore(c: Settings, fs: seq<Frame>, i: nat, n: nat)
    requires i < n < |fs|
    ensures Predicted(c, fs, i, n + 1)
            == Predicted(c, fs, i, n) + FrameTimes(c, Delta(fs[n].number, fs[n - 1].number))
  {
  }

  lemma PredictedNow(c: Settings, fs: seq<Frame>, n: nat)
    requires n < |fs|
    ensures Predicted(c, fs, n, n + 1) == fs[n].time
  {
  }

  /** How much later a prediction is for frame n than for the one before. */
  function Drift(c: Settings, fs: seq<Frame>, n: nat): real
    requires 0 < n < |fs|
  {
    FrameTimes(c, Delta(fs[n].number, fs[n - 1].number))
  }

  /** The least prediction moves on with the frames. */
  lemma LeastDelayed(t: Time, c: Settings, fs: seq<Frame>, from: nat, n: nat, m: nat) returns (u: Time, k: nat)
    requires 0 < n < |fs| && from < n && m == n + 1 && IsLeast(t, c, fs, from, n)
    ensures u == Delayed(t, Drift(c, fs, n)) && u.At?
    ensures forall i :: from <= i < n ==> u.t <= Predicted(c, fs, i, m)
    ensures from <= k < n && u.t == Predicted(c, fs, k, m)
  {
    u := Delayed(t, Drift(c, fs, n));
    k :| from <= k < n && t.t == Predicted(c, fs, k, n);
    PredictedMore(c, fs, k, n);
    forall i | from <= i < n
      ensures u.t <= Predicted(c, fs, i, m)
    {
      PredictedMore(c, fs, i, n);
    }
  }

  lemma LeastIs(t: Time, c: Settings, fs: seq<Frame>, from: nat, n: nat, k: nat)
    requires from <= k < n <= |fs| && t.At? && t.t == Predicted(c, fs, k, n)
    requires forall i :: from <= i < n ==> t.t <= Predicted(c, fs, i, n)
    ensures IsLeast(t, c, fs, from, n)
  {
  }

  /** The frame itself counts among those that predict. */
  lemma LeastMore(t: Time, c: Settings, fs: seq<Frame>, from: nat, n: nat, delayed: Time)
    requires n < |fs| && from < n && IsLeast(t, c, fs, from, n) && delayed == Delayed(t, Drift(c, fs, n))
    ensures IsLeast(if Before(fs[n].time, delayed) then At(fs[n].time) else delayed, c, fs, from, n + 1)
  {
    PredictedNow(c, fs, n);
    var u, k := LeastDelayed(t, c, fs, from, n, n + 1);
    if Before(fs[n].time, u) {
      LeastIs(At(fs[n].time), c, fs, from, n + 1, n);
    } else {
      LeastIs(u, c, fs, from, n + 1, k);
    }
  }

  lemma LeastAlone(c: Settings, fs: seq<Frame>, n: nat)
    requires n < |fs|
    ensures IsLeast(At(fs[n].time), c, fs, n, n + 1)
  {
    PredictedNow(c, fs, n);
    LeastIs(At(fs[n].time), c, fs, n, n + 1, n);
  }

  /** The same for a minimum over frames that may not have begun. */
  lemma LeastNext(t: Time, c: Settings, fs: seq<Frame>, from: nat, n: nat, delayed: Time)
    requires 0 < n < |fs| && from <= n && IsLeast(t, c, fs, from, n) && delayed == Delayed(t, Drift(c, fs, n))
    ensures IsLeast(if Before(fs[n].time, delayed) then At(fs[n].time) else delayed, c, fs, from, n + 1)
  {
    if from < n {
      LeastMore(t, c, fs, from, n, delayed);
    } else {
      LeastAlone(c, fs, n);
    }
  }

  // ---------------------------------------------------------------- every run

  /** The filter after some frames, and the frames from which on it takes its two minima. */
  datatype Run = Run(s: State, since: nat, relockSince: nat)

  function Start(c: Settings): Run {
    Run(Reset(c, 0), 0, 0)
  }

  function After(c: Settings, fs: seq<Frame>, n: nat): (r: Run)
    requires n <= |fs|
    ensures r.since <= n && r.relockSince <= n
  {
    if n == 0 then Start(c)
    else
      var r, f := After(c, fs, n - 1), fs[n - 1];
      var skipped := Skipped(c, r.s, f);
      var since, relockSince := if skipped then n - 1 else r.since, if skipped then n - 1 else r.relockSince;
      if First(c, r.s, f) then Run(Next(c, r.s, f), since, n)
      else if Relocks(c, r.s, f) then Run(Next(c, r.s, f), relockSince, n)
      else Run(Next(c, r.s, f), since, relockSince)
  }

  ghost predicate RunningMinimum(c: Settings, fs: seq<Frame>, n: nat)
    requires n <= |fs|
  {
    var r := After(c, fs, n);
    && IsLeast(r.s.anticipated, c, fs, r.since, n) && IsLeast(r.s.relock, c, fs, r.relockSince, n)
    && (n > 0 ==> r.s.last == fs[n - 1].number)
  }

  /** What the two minima are when a frame arrives, before it is decided what to do with them. */
  lemma MovedLeast(c: Settings, fs: seq<Frame>, n: nat)
    requires n < |fs| && RunningMinimum(c, fs, n)
    ensures var r, f := After(c, fs, n), fs[n];
      var since, relockSince := if Skipped(c, r.s, f) then n else r.since, if Skipped(c, r.s, f) then n else r.relockSince;
      var m := Moved(c, r.s, f);
      && IsLeast(m.relock, c, fs, relockSince, n + 1)
      && IsLeast(if First(c, r.s, f) then At(f.time) else m.anticipated, c, fs, since, n + 1)
  {
    var r, f := After(c, fs, n), fs[n];
    LeastAlone(c, fs, n);
    if !Skipped(c, r.s, f) && n > 0 {
      MovedOn(c, r.s, f, Drift(c, fs, n));
      LeastNext(r.s.anticipated, c, fs, r.since, n, Delayed(r.s.anticipated, Drift(c, fs, n)));
      LeastNext(r.s.relock, c, fs, r.relockSince, n, Delayed(r.s.relock, Drift(c, fs, n)));
    } else {
      assert n == 0 ==> r.s == Reset(c, 0);
      MovedFromReset(c, r.s, f);
    }
  }

  lemma MovedOn(c: Settings, s: State, f: Frame, d: real)
    requires !Skipped(c, s, f) && d == FrameTimes(c, Delta(f.number, s.last))
    ensures Moved(c, s, f).anticipated == Delayed(s.anticipated, d)
    ensures Moved(c, s, f).relock == if Before(f.time, Delayed(s.relock, d)) then At(f.time) else Delayed(s.relock, d)
  {
  }

  lemma MovedFromReset(c: Settings, s: State, f: Frame)
    requires Skipped(c, s, f) || s == Reset(c, s.last)
    ensures Moved(c, s, f).anticipated == Never && Moved(c, s, f).relock == At(f.time) && First(c, s, f)
  {
  }

  /**
   Over every run: the anticipated time is the least of what the frames predict, from the last reset on
   or, after the filter has given up, from the beginning of the window that it gave up for.
   */
  lemma {:induction false} AnticipatedIsLeast(c: Settings, fs: seq<Frame>, n: nat)
    requires n <= |fs|
    ensures RunningMinimum(c, fs, n)
  {
    if n > 0 {
      AnticipatedIsLeast(c, fs, n - 1);
      MovedLeast(c, fs, n - 1);
    }
  }

  /** No frame between the two counts has made the filter give up or start again. */
  predicate Undisturbed(c: Settings, fs: seq<Frame>, from: nat, n: nat)
    requires from <= n <= |fs|
  {
    forall k :: from <= k < n ==> Steady(c, fs, k)
  }

  predicate Steady(c: Settings, fs: seq<Frame>, k: nat)
    requires k < |fs|
  {
    var s := After(c, fs, k).s;
    !Relocks(c, s, fs[k]) && !Skipped(c, s, fs[k])
  }

  lemma {:induction false} SameWindow(c: Settings, fs: seq<Frame>, from: nat, n: nat)
    requires from <= n <= |fs| && Undisturbed(c, fs, from, n)
    ensures After(c, fs, n).since == After(c, fs, from).since
    decreases n
  {
    if from < n {
      SameWindow(c, fs, from, n - 1);
      assert Steady(c, fs, n - 1);
    }
  }

  lemma LeastFrom(c: Settings, fs: seq<Frame>, w: nat, n: nat)
    requires n <= |fs| && After(c, fs, n).since == w
    ensures IsLeast(After(c, fs, n).s.anticipated, c, fs, w, n)
  {
    AnticipatedIsLeast(c, fs, n);
  }

  lemma WindowBegins(c: Settings, fs: seq<Frame>, reset: nat)
    requires reset < |fs| && Skipped(c, After(c, fs, reset).s, fs[reset])
    ensures After(c, fs, reset + 1).since == reset
  {
    MovedFromReset(c, After(c, fs, reset).s, fs[reset]);
  }

  /**
   From a frame that started the filter again, and as long as it does not give up: the anticipated time
   is the least that any frame since has predicted.
   */
  lemma {:induction false} LeastSinceReset(c: Settings, fs: seq<Frame>, reset: nat, n: nat)
    requires reset < n <= |fs| && Skipped(c, After(c, fs, reset).s, fs[reset]) && Undisturbed(c, fs, reset + 1, n)
    ensures IsLeast(After(c, fs, n).s.anticipated, c, fs, reset, n)
  {
    assert After(c, fs, n).since == reset by {
      WindowBegins(c, fs, reset);
      SameWindow(c, fs, reset + 1, n);
    }
    LeastFrom(c, fs, reset, n);
  }

  /** When it gives up: the least since the last frame that was first or the last time it gave up. */
  lemma LeastAtRelock(c: Settings, fs: seq<Frame>, n: nat)
    requires n < |fs| && Relocks(c, After(c, fs, n).s, fs[n])
    ensures !Skipped(c, After(c, fs, n).s, fs[n])
    ensures After(c, fs, n + 1).since == After(c, fs, n).relockSince && After(c, fs, n + 1).relockSince == n + 1
    ensures IsLeast(After(c, fs, n + 1).s.anticipated, c, fs, After(c, fs, n).relockSince, n + 1)
  {
    AnticipatedIsLeast(c, fs, n + 1);
  }

  // ---------------------------------------------------------------- what the count counts

  predicate Late(c: Settings, s: State, f: Frame) {
    !First(c, s, f) && TooLate(c, s, f)
  }

  /** How many of frames from to n - 1 were late when they came. */
  function LateCount(c: Settings, fs: seq<Frame>, from: nat, n: nat): nat
    requires n <= |fs|
  {
    if n <= from then 0 else LateCount(c, fs, from, n - 1) + if LateAt(c, fs, n - 1) then 1 else 0
  }

  /** Frame k was before all that was anticipated, and none of frames k + 1 to n - 1 was. */
  ghost predicate LastFirst(c: Settings, fs: seq<Frame>, k: nat, n: nat)
    requires n <= |fs|
  {
    k < n && FirstAt(c, fs, k) && forall j :: k < j < n ==> !FirstAt(c, fs, j)
  }

  predicate FirstAt(c: Settings, fs: seq<Frame>, n: nat)
    requires n < |fs|
  {
    First(c, After(c, fs, n).s, fs[n])
  }

  predicate LateAt(c: Settings, fs: seq<Frame>, n: nat)
    requires n < |fs|
  {
    Late(c, After(c, fs, n).s, fs[n])
  }

  lemma FirstOfAll(c: Settings, fs: seq<Frame>)
    requires |fs| > 0
    ensures FirstAt(c, fs, 0)
  {
  }

  lemma NotOneMore(c: Settings, fs: seq<Frame>, n: nat)
    requires n < |fs|
    ensures After(c, fs, n + 1).s == Next(c, After(c, fs, n).s, fs[n])
  {
  }

  lemma FirstClears(c: Settings, s: State, f: Frame)
    requires First(c, s, f)
    ensures Next(c, s, f).unlocked == 0
  {
  }

  lemma LateMore(c: Settings, fs: seq<Frame>, from: nat, n: nat)
    requires from <= n < |fs|
    ensures LateCount(c, fs, from, n + 1) == LateCount(c, fs, from, n) + if LateAt(c, fs, n) then 1 else 0
  {
  }

  lemma FirstMore(c: Settings, fs: seq<Frame>, k: nat, n: nat)
    requires n < |fs| && LastFirst(c, fs, k, n) && !FirstAt(c, fs, n)
    ensures LastFirst(c, fs, k, n + 1)
  {
  }

  lemma CountsOn(c: Settings, fs: seq<Frame>, from: nat, n: nat, s: State, f: Frame, t: State)
    requires from <= n < |fs| && s == After(c, fs, n).s && f == fs[n] && !First(c, s, f) && t == Next(c, s, f)
    requires s.unlocked == LateCount(c, fs, from, n)
    ensures t.unlocked == LateCount(c, fs, from, n + 1)
  {
    NotReset(c, s, f);
    LateMore(c, fs, from, n);
  }

  lemma CountStepped(c: Settings, fs: seq<Frame>, from: nat, n: nat)
    requires from <= n < |fs| && !FirstAt(c, fs, n) && After(c, fs, n).s.unlocked == LateCount(c, fs, from, n)
    ensures After(c, fs, n + 1).s.unlocked == LateCount(c, fs, from, n + 1)
  {
    NotOneMore(c, fs, n);
    CountsOn(c, fs, from, n, After(c, fs, n).s, fs[n], After(c, fs, n + 1).s);
  }

  lemma ZeroAfterFirst(c: Settings, fs: seq<Frame>, k: nat)
    requires k < |fs| && FirstAt(c, fs, k)
    ensures After(c, fs, k + 1).s.unlocked == 0
  {
    FirstClears(c, After(c, fs, k).s, fs[k]);
    NotOneMore(c, fs, k);
  }

  /**
   Over every run the count is the number of late frames since the last first one, whether they came in a row or not,
   and whether the filter has given up in between or not.
   */
  lemma {:induction false} CountIsLate(c: Settings, fs: seq<Frame>, k: nat, n: nat)
    requires n <= |fs| && LastFirst(c, fs, k, n)
    ensures After(c, fs, n).s.unlocked == LateCount(c, fs, k + 1, n)
    decreases n
  {
    if n == k + 1 {
      ZeroAfterFirst(c, fs, k);
    } else {
      CountIsLate(c, fs, k, n - 1);
      CountStepped(c, fs, k + 1, n - 1);
    }
  }

  /** And there has always been one: the frame that came first of all. */
  lemma {:induction false} SomeFirst(c: Settings, fs: seq<Frame>, n: nat) returns (k: nat)
    requires 0 < n <= |fs|
    ensures LastFirst(c, fs, k, n)
  {
    if n == 1 {
      FirstOfAll(c, fs);
      k := 0;
    } else if FirstAt(c, fs, n - 1) {
      k := n - 1;
    } else {
      k := SomeFirst(c, fs, n - 1);
      FirstMore(c, fs, k, n - 1);
    }
  }

  lemma NotReset(c: Settings, s: State, f: Frame)
    requires !First(c, s, f)
    ensures Next(c, s, f).unlocked == s.unlocked + if Late(c, s, f) then 1 else 0
  {
    assert !Skipped(c, s, f);
  }

  /** The filter gives up for a frame exactly if it is late and too many were late since the last first one. */
  lemma GivesUpIff(c: Settings, fs: seq<Frame>, k: nat, n: nat)
    requires n < |fs| && LastFirst(c, fs, k, n)
    ensures Relocks(c, After(c, fs, n).s, fs[n])
            <==> LateAt(c, fs, n) && LateCount(c, fs, k + 1, n) + 1 > c.maxRecovery
  {
    CountIsLate(c, fs, k, n);
    GivesUpState(c, After(c, fs, n).s, fs[n]);
  }

  lemma GivesUpState(c: Settings, s: State, f: Frame)
    ensures Relocks(c, s, f) <==> Late(c, s, f) && s.unlocked + 1 > c.maxRecovery
  {
  }

  lemma NotSkipped(c: Settings, s: State, f: Frame)
    requires Late(c, s, f)
    ensures Moved(c, s, f).unlocked == s.unlocked && Relocks(c, s, f) == (s.unlocked + 1 > c.maxRecovery)
  {
  }

  /** When frame i comes if it is on time. */
  function Due(c: Settings, i: nat): real {
    if i == 0 then 0.0 else Due(c, i - 1) + FrameTimes(c, 1)
  }

  /** Every other frame is late, by more than the threshold. */
  function Alternating(c: Settings, n: nat): (fs: seq<Frame>)
    ensures |fs| == n
  {
    seq(n, i requires 0 <= i < n => Frame(if i % 2 == 1 then Due(c, i) + c.late + 1.0 else Due(c, i), (i + 1) % 0x1_0000))
  }

  lemma NextNumber(i: nat)
    ensures Delta((i + 2) % 0x1_0000, (i + 1) % 0x1_0000) == 1 && Delta((0 + 1) % 0x1_0000, 0) == 1
  {
  }

  /** One frame more of that run, as long as the filter does not give up. */
  lemma {:induction false} AlternatingNext(c: Settings, fs: seq<Frame>, n: nat)
    requires c.late >= 0.0 && c.maxSkipped >= 1 && fs == Alternating(c, |fs|) && 0 < n < |fs|
    requires After(c, fs, n).s.anticipated == At(Due(c, n - 1)) && After(c, fs, n).s.last == n % 0x1_0000
    ensures !FirstAt(c, fs, n) && (LateAt(c, fs, n) <==> n % 2 == 1)
    ensures !Relocks(c, After(c, fs, n).s, fs[n]) ==> After(c, fs, n + 1).s.anticipated == At(Due(c, n))
    ensures After(c, fs, n + 1).s.last == (n + 1) % 0x1_0000
    ensures After(c, fs, n + 1).s.unlocked == After(c, fs, n).s.unlocked + n % 2
  {
    NextNumber(n - 1);
    NotOneMore(c, fs, n);
    NotReset(c, After(c, fs, n).s, fs[n]);
  }

  lemma {:induction false} AlternatingRun(c: Settings, fs: seq<Frame>, n: nat)
    requires c.late >= 0.0 && c.maxSkipped >= 1 && c.maxRecovery >= 0
    requires fs == Alternating(c, |fs|) && 0 < n <= |fs| && n <= 2 * c.maxRecovery + 1
    ensures After(c, fs, n).s.anticipated == At(Due(c, n - 1)) && After(c, fs, n).s.last == n % 0x1_0000
    ensures After(c, fs, n).s.unlocked == n / 2
  {
    if n == 1 {
      FirstOfAll(c, fs);
      NotOneMore(c, fs, 0);
    } else {
      AlternatingRun(c, fs, n - 1);
      AlternatingNext(c, fs, n - 1);
      NotSkippedAt(c, After(c, fs, n - 1).s, fs[n - 1]);
    }
  }

  lemma NotSkippedAt(c: Settings, s: State, f: Frame)
    requires s.unlocked + 1 <= c.maxRecovery || !Late(c, s, f)
    ensures !Relocks(c, s, f)
  {
  }

  /** For all settings there is a run that makes the filter give up although no two late frames follow one another. */
  lemma {:induction false} GivesUpWithoutARow(c: Settings) returns (fs: seq<Frame>)
    requires c.late >= 0.0 && c.maxSkipped >= 1 && c.maxRecovery >= 0
    ensures |fs| == 2 * c.maxRecovery + 2 && Relocks(c, After(c, fs, |fs| - 1).s, fs[|fs| - 1])
    ensures forall n :: 0 < n < |fs| - 1 ==> !(LateAt(c, fs, n) && LateAt(c, fs, n + 1))
  {
    var m := 2 * c.maxRecovery + 1;
    fs := Alternating(c, m + 1);
    LastGivesUp(c, fs, m);
    forall n | 0 < n < |fs| - 1
      ensures !(LateAt(c, fs, n) && LateAt(c, fs, n + 1))
    {
      OneOfTwo(c, fs, n);
    }
  }

  lemma {:induction false} LastGivesUp(c: Settings, fs: seq<Frame>, m: nat)
    requires c.late >= 0.0 && c.maxSkipped >= 1 && c.maxRecovery >= 0
    requires m == 2 * c.maxRecovery + 1 && |fs| == m + 1 && fs == Alternating(c, m + 1)
    ensures Relocks(c, After(c, fs, m).s, fs[m])
  {
    AlternatingRun(c, fs, m);
    AlternatingNext(c, fs, m);
    NotSkipped(c, After(c, fs, m).s, fs[m]);
  }

  lemma {:induction false} OneOfTwo(c: Settings, fs: seq<Frame>, n: nat)
    requires c.late >= 0.0 && c.maxSkipped >= 1 && c.maxRecovery >= 0
    requires fs == Alternating(c, |fs|) && 0 < n < |fs| - 1 && n + 1 <= 2 * c.maxRecovery + 1
    ensures !(LateAt(c, fs, n) && LateAt(c, fs, n + 1))
  {
    AlternatingRun(c, fs, n);
    AlternatingNext(c, fs, n);
    AlternatingRun(c, fs, n + 1);
    AlternatingNext(c, fs, n + 1);
  }

  // ---------------------------------------------------------------- the time that is given to a frame

  /** The time that is given to a frame is never after its arrival. */
  lemma NeverAfterArrival(c: Settings, s: State, f: Frame)
    ensures Output(c, s, f) <= f.time
    ensures Early(c, s, f) && c.early >= 0.0 ==> Output(c, s, f) == f.time
  {
  }

  /** It is the anticipated time or at most the threshold for late frames after it. */
  lemma OutputNearAnticipated(c: Settings, s: State, f: Frame)
    requires c.late >= 0.0
    ensures Next(c, s, f).anticipated.At?
    ensures var a := Next(c, s, f).anticipated.t;
      a <= Output(c, s, f) <= a + c.late && (Output(c, s, f) == a || Output(c, s, f) == f.time)
  {
  }

  /** Nor is it before zero, when frames do not arrive before zero. */
  lemma OutputNotNegative(c: Settings, fs: seq<Frame>, n: nat)
    requires n < |fs| && c.period >= 0.0 && forall i :: 0 <= i < |fs| ==> fs[i].time >= 0.0
    ensures Output(c, After(c, fs, n).s, fs[n]) >= 0.0
  {
    AnticipatedIsLeast(c, fs, n + 1);
    LeastNotNegative(c, fs, After(c, fs, n + 1).since, n + 1, After(c, fs, n + 1).s.anticipated);
    assert After(c, fs, n + 1).s == Next(c, After(c, fs, n).s, fs[n]);
  }

  lemma LeastNotNegative(c: Settings, fs: seq<Frame>, from: nat, n: nat, t: Time)
    requires from <= n <= |fs| && IsLeast(t, c, fs, from, n)
    requires c.period >= 0.0 && forall i :: 0 <= i < |fs| ==> fs[i].time >= 0.0
    ensures t.At? ==> t.t >= 0.0
  {
  }

  // ---------------------------------------------------------------- early, first, on time and late

  /** The first of the frames whose predictions frame n is compared with; none if it is n itself. */
  function Window(c: Settings, fs: seq<Frame>, n: nat): (w: nat)
    requires n < |fs|
    ensures w <= n
  {
    if Skipped(c, After(c, fs, n).s, fs[n]) then n else After(c, fs, n).since
  }

  /** The least prediction for frame n, the last of the first m, of those frames. */
  ghost predicate LeastBefore(t: Time, c: Settings, fs: seq<Frame>, from: nat, n: nat, m: nat)
    requires from <= n < |fs| && m == n + 1
  {
    if from == n then t == Never
    else
      && t.At?
      && (forall i :: from <= i < n ==> t.t <= Predicted(c, fs, i, m))
      && (exists i :: from <= i < n && t.t == Predicted(c, fs, i, m))
  }

  lemma AnticipatedBefore(c: Settings, fs: seq<Frame>, n: nat, m: nat)
    requires n < |fs| && m == n + 1
    ensures LeastBefore(Moved(c, After(c, fs, n).s, fs[n]).anticipated, c, fs, Window(c, fs, n), n, m)
  {
    var r, f := After(c, fs, n), fs[n];
    AnticipatedIsLeast(c, fs, n);
    if n == 0 || Skipped(c, r.s, f) {
      MovedFromReset(c, r.s, f);
    } else {
      MovedOn(c, r.s, f, Drift(c, fs, n));
      if r.since < n {
        var u, k := LeastDelayed(r.s.anticipated, c, fs, r.since, n, m);
      }
    }
  }

  /** Frame n is first if it comes before every time predicted for it. */
  lemma FirstIff(c: Settings, fs: seq<Frame>, n: nat, m: nat)
    requires n < |fs| && m == n + 1
    ensures FirstAt(c, fs, n) <==> forall i :: Window(c, fs, n) <= i < n ==> fs[n].time < Predicted(c, fs, i, m)
  {
    AnticipatedBefore(c, fs, n, m);
  }

  /** It is late if it comes after some time predicted for it by more than the threshold. */
  lemma LateIff(c: Settings, fs: seq<Frame>, n: nat, m: nat)
    requires n < |fs| && m == n + 1 && c.late >= 0.0
    ensures LateAt(c, fs, n) <==> exists i :: Window(c, fs, n) <= i < n && fs[n].time > Predicted(c, fs, i, m) + c.late
  {
    AnticipatedBefore(c, fs, n, m);
  }

  predicate EarlyAt(c: Settings, fs: seq<Frame>, n: nat)
    requires n < |fs|
  {
    Early(c, After(c, fs, n).s, fs[n])
  }

  /** It is early if it comes before all of them by more than the other threshold, and there are any. */
  lemma EarlyIff(c: Settings, fs: seq<Frame>, n: nat, m: nat)
    requires n < |fs| && m == n + 1
    ensures EarlyAt(c, fs, n) <==>
      Window(c, fs, n) < n && forall i :: Window(c, fs, n) <= i < n ==> fs[n].time < Predicted(c, fs, i, m) - c.early
  {
    AnticipatedBefore(c, fs, n, m);
  }

  /**
   The time given to a frame is its arrival, unless it is late: then it is the least time predicted for it, over the
   frames that the filter goes by from then on.
   */
  lemma OutputIs(c: Settings, fs: seq<Frame>, n: nat)
    requires n < |fs|
    ensures var out := Output(c, After(c, fs, n).s, fs[n]);
      if LateAt(c, fs, n) then IsLeast(At(out), c, fs, After(c, fs, n + 1).since, n + 1) else out == fs[n].time
  {
    AnticipatedIsLeast(c, fs, n + 1);
    NotOneMore(c, fs, n);
    NextAnticipates(c, After(c, fs, n).s, fs[n]);
  }

  lemma NextAnticipates(c: Settings, s: State, f: Frame)
    ensures Next(c, s, f).anticipated.At?
  {
  }

  // ---------------------------------------------------------------- the filter, in place

  class FrameTimeFilter {
    const settings: Settings
    var unlocked: int
    var last: int
    var anticipated: Time
    var relock: Time

    function Now(): State
      reads this
    {
      State(anticipated, relock, unlocked, last)
    }

    constructor (c: Settings)
      ensures settings == c && Now() == Start(c).s
    {
      settings := c;
      last := 0;
      relock, anticipated := Never, Never;
      unlocked := Truncated(c.late);
    }

    method ResetFilter()
      modifies this
      ensures Now() == Reset(settings, old(last))
    {
      relock, anticipated := Never, Never;
      unlocked := Truncated(settings.late);
    }

    /** Both minima move on to the frame that has arrived. */
    method Advance(f: Frame)
      modifies this
      ensures last == old(last)
      ensures State(anticipated, relock, unlocked, f.number) == Moved(settings, old(Now()), f)
    {
      var delta := Delta(f.number, last);
      if delta > settings.maxSkipped {
        ResetFilter();
      }
      anticipated := Delayed(anticipated, FrameTimes(settings, delta));
      relock := Delayed(relock, FrameTimes(settings, delta));
      if Before(f.time, relock) {
        relock := At(f.time);
      }
    }

    /** run: the result is negative for a frame that is early. */
    method Filter(f: Frame) returns (r: real)
      modifies this
      ensures Now() == Next(settings, old(Now()), f)
      ensures r == if Early(settings, old(Now()), f) then -Output(settings, old(Now()), f)
                   else Output(settings, old(Now()), f)
    {
      var out := f.time;
      Advance(f);
      var early := anticipated.At? && out < anticipated.t - settings.early;
      if Before(out, anticipated) {
        anticipated := At(out);
        relock := Never;
        unlocked := 0;
      } else if out > anticipated.t + settings.late {
        unlocked := unlocked + 1;
        if unlocked > settings.maxRecovery {
          anticipated := relock;
          relock := Never;
        }
        out := anticipated.t;
      }
      last := f.number;
      r := if early then -out else out;
    }
  }

  /** What the filter returns for frame n of a run. */
  function Given(c: Settings, fs: seq<Frame>, n: nat): real
    requires n < |fs|
  {
    var out := Output(c, After(c, fs, n).s, fs[n]);
    if EarlyAt(c, fs, n) then -out else out
  }

  /** A filter on a whole run of frames. */
  method FilterAll(c: Settings, fs: seq<Frame>) returns (out: seq<real>)
    ensures |out| == |fs| && forall n :: 0 <= n < |fs| ==> out[n] == Given(c, fs, n)
  {
    var filter := new FrameTimeFilter(c);
    out := [];
    var n := 0;
    ghost var run := Start(c);
    while n < |fs|
      invariant n == |out| <= |fs| && run == After(c, fs, n) && filter.settings == c && filter.Now() == run.s
      invariant forall k :: 0 <= k < n ==> out[k] == Given(c, fs, k)
    {
      NotOneMore(c, fs, n);
      var r := filter.Filter(fs[n]);
      assert r == Given(c, fs, n);
      out := out + [r];
      n := n + 1;
      run := After(c, fs, n);
    }
  }
}
