/**
 Bounded waiting: a task that stays runnable with a tick left is dispatched after at most
 as many timer interrupts as the other tasks have ticks left, plus one.
 */
module SchedulerRuns {
  import opened Common
  import opened Scheduler
  import opened Machine

  /** current and idle are task ids; the idle task is in the queue, in state Wait. */
  datatype Sys = Sys(s: State, current: nat, idle: nat, ms: nat)

  /** Position of the task with the given id, or -1. */
  ghost function Position(q: seq<Task>, id: nat): (i: int)
    ensures -1 <= i < |q| && (i >= 0 ==> q[i].id == id)
    ensures i == -1 ==> forall j :: 0 <= j < |q| ==> q[j].id != id
  {
    if exists i :: 0 <= i < |q| && q[i].id == id
    then var i :| 0 <= i < |q| && q[i].id == id; i
    else -1
  }

  ghost predicate Ok(x: Sys) {
    && WellFormed(x.s)
    && (forall i, j :: 0 <= i < j < |x.s.queue| ==> x.s.queue[i].id != x.s.queue[j].id)
    && Position(x.s.queue, x.current) >= 0
  }

  /** The task `me` can run and has a tick. */
  ghost predicate Ready(x: Sys, me: nat) {
    exists i :: 0 <= i < |x.s.queue| && x.s.queue[i].id == me && x.s.queue[i].state == Runnable
      && x.s.queue[i].ticks >= 1 && !x.s.queue[i].overflow
  }

  // ---- Steps ----

  /** sched(): switch to the choice of find_next_runnable, or to the idle task. */
  ghost predicate SchedStep(x: Sys, y: Sys)
    requires WellFormed(x.s)
  {
    var l := LastRound(x.s, x.ms);
    && y.s == Scanned(l, x.ms, |l.queue|) && y.idle == x.idle && y.ms == x.ms
    && exists next :: IsChoice(l, x.ms, |l.queue|, next)
         && y.current == if next == -1 then x.idle else l.queue[next].id
  }

  ghost function Ticked(x: Sys, i: nat): Sys
    requires i < |x.s.queue|
  {
    var t := x.s.queue[i];
    x.(s := x.s.(queue := x.s.queue[i := t.(ticks := if t.ticks - 1 > 0 then t.ticks - 1 else 0)]))
  }

  /**
   do_timer: the clock advances by a millisecond or two; the current task is charged one tick, and
   when they are used up, sched().
   */
  ghost predicate TimerStep(x: Sys, y: Sys)
    requires Ok(x)
  {
    var i := Position(x.s.queue, x.current);
    exists ms :: x.ms < ms <= x.ms + 2 && var z := Ticked(x, i).(ms := ms);
      if x.s.queue[i].ticks - 1 > 0 then y == z else SchedStep(z, y)
  }

  /** Same task, in whatever state: ids, credits and priorities are the scheduler's alone. */
  predicate SameCredit(t: Task, u: Task) {
    u.id == t.id && u.ticks == t.ticks && u.priority == t.priority
  }

  /** Tasks block, sleep, wake, get killed or overflow their stacks; the reaper comes and goes. */
  ghost predicate OthersAct(x: Sys, y: Sys) {
    && y.current == x.current && y.idle == x.idle && y.ms >= x.ms && Ok(y)
    && |y.s.queue| == |x.s.queue|
    && forall j :: 0 <= j < |x.s.queue| ==> SameCredit(x.s.queue[j], y.s.queue[j])
  }

  /** The reaper takes a finished task off the queue; never the current one. */
  ghost predicate Reaped(x: Sys, y: Sys) {
    && y.current == x.current && y.idle == x.idle && y.ms >= x.ms && Ok(y)
    && exists k :: 0 <= k < |x.s.queue| && x.s.queue[k].id != x.current
         && y.s.queue == x.s.queue[..k] + x.s.queue[k + 1..]
  }

  ghost predicate Step(x: Sys, timer: bool, y: Sys) {
    Ok(x) && if timer then TimerStep(x, y) else SchedStep(x, y) || OthersAct(x, y) || Reaped(x, y)
  }

  /** A run that creates no task; timers[k] tells whether step k is a timer interrupt. */
  ghost predicate IsRun(run: seq<Sys>, timers: seq<bool>) {
    && |run| == |timers| + 1 && (forall k :: 0 <= k < |run| ==> Ok(run[k]))
    && forall k :: 0 <= k < |timers| ==> Step(run[k], timers[k], run[k + 1])
  }

  ghost function Interrupts(timers: seq<bool>): nat {
    if timers == [] then 0 else Interrupts(timers[..|timers| - 1]) + if timers[|timers| - 1] then 1 else 0
  }

  // ---- The others' credit ----

  /** Ticks left to all tasks but `me`. */
  ghost function Credit(q: seq<Task>, me: nat): int {
    if q == [] then 0 else (if q[0].id == me then 0 else q[0].ticks) + Credit(q[1..], me)
  }

  lemma {:induction false} CreditSame(q: seq<Task>, r: seq<Task>, me: nat)
    requires |q| == |r| && forall j :: 0 <= j < |q| ==> r[j].id == q[j].id && r[j].ticks == q[j].ticks
    ensures Credit(r, me) == Credit(q, me)
  {
    if q != [] {
      CreditSame(q[1..], r[1..], me);
    }
  }

  lemma {:induction false} CreditUpdate(q: seq<Task>, i: nat, t: Task, me: nat)
    requires i < |q| && t.id == q[i].id != me
    ensures Credit(q[i := t], me) == Credit(q, me) - q[i].ticks + t.ticks
  {
    if i == 0 {
      assert q[i := t][1..] == q[1..];
    } else {
      assert q[i := t][1..] == q[1..][i - 1 := t];
      CreditUpdate(q[1..], i - 1, t, me);
    }
  }

  lemma {:induction false} CreditRemove(q: seq<Task>, k: nat, me: nat)
    requires k < |q| && q[k].ticks >= 0
    ensures Credit(q[..k] + q[k + 1..], me) <= Credit(q, me)
  {
    var r := q[..k] + q[k + 1..];
    if k == 0 {
      assert r == q[1..];
    } else {
      assert r[1..] == q[1..][..k - 1] + q[1..][k..];
      CreditRemove(q[1..], k - 1, me);
    }
  }

  lemma {:induction false} CreditAtLeast(q: seq<Task>, i: nat, me: nat)
    requires i < |q| && q[i].id != me && forall j :: 0 <= j < |q| ==> q[j].ticks >= 0
    ensures Credit(q, me) >= q[i].ticks
  {
    CreditNonNegative(q[1..], me);
    if i > 0 {
      CreditAtLeast(q[1..], i - 1, me);
    }
  }

  lemma {:induction false} CreditNonNegative(q: seq<Task>, me: nat)
    requires forall j :: 0 <= j < |q| ==> q[j].ticks >= 0
    ensures Credit(q, me) >= 0
  {
    if q != [] {
      CreditNonNegative(q[1..], me);
    }
  }

  // ---- No recharge while someone has a tick ----

  /** With a ready task around, sched() recharges nobody and picks a task that has a tick. */
  lemma SchedNoRecharge(x: Sys, y: Sys, me: nat)
    requires WellFormed(x.s) && Ready(x, me) && SchedStep(x, y)
    ensures |y.s.queue| == |x.s.queue|
    ensures forall j :: 0 <= j < |x.s.queue| ==> SameCredit(x.s.queue[j], y.s.queue[j])
    ensures exists i :: 0 <= i < |x.s.queue| && x.s.queue[i].id == y.current && x.s.queue[i].ticks >= 1
  {
    var n := |x.s.queue|;
    TopTicksIsMax(x.s, x.ms, n);
    var i :| 0 <= i < n && x.s.queue[i].id == me && x.s.queue[i].state == Runnable
             && x.s.queue[i].ticks >= 1 && !x.s.queue[i].overflow;
    assert WillRun(x.s, x.ms, i);
    assert LastRound(x.s, x.ms) == x.s;
  }

  // ---- The bound ----

  /** What is left of the wait: the others' credit, and one more if the current task has none. */
  ghost function Left(x: Sys, me: nat): int
    requires Ok(x)
  {
    Credit(x.s.queue, me) + if x.s.queue[Position(x.s.queue, x.current)].ticks == 0 then 1 else 0
  }

  lemma PositionIs(x: Sys, i: nat)
    requires Ok(x) && i < |x.s.queue| && x.s.queue[i].id == x.current
    ensures Position(x.s.queue, x.current) == i
  {
  }

  lemma SchedLeft(x: Sys, y: Sys, me: nat)
    requires WellFormed(x.s) && Ready(x, me) && SchedStep(x, y) && Ok(y)
    ensures Left(y, me) == Credit(x.s.queue, me)
  {
    SchedNoRecharge(x, y, me);
    CreditSame(x.s.queue, y.s.queue, me);
    var i :| 0 <= i < |x.s.queue| && x.s.queue[i].id == y.current && x.s.queue[i].ticks >= 1;
    assert SameCredit(x.s.queue[i], y.s.queue[i]);
    PositionIs(y, i);
  }

  lemma TimerLeft(x: Sys, y: Sys, me: nat)
    requires Ok(x) && Ok(y) && Ready(x, me) && x.current != me && TimerStep(x, y)
    ensures Left(y, me) <= Left(x, me) - 1
  {
    var i := Position(x.s.queue, x.current);
    var t := x.s.queue[i];
    var z0 := Ticked(x, i);
    CreditUpdate(x.s.queue, i, z0.s.queue[i], me);
    var ms :| ms >= x.ms && var z := z0.(ms := ms);
      if t.ticks - 1 > 0 then y == z else WellFormed(z.s) && SchedStep(z, y);
    var z := z0.(ms := ms);
    if t.ticks - 1 > 0 {
      assert y.s.queue[i].id == y.current;
      PositionIs(y, i);
    } else {
      var m :| 0 <= m < |x.s.queue| && x.s.queue[m].id == me && x.s.queue[m].state == Runnable
               && x.s.queue[m].ticks >= 1 && !x.s.queue[m].overflow;
      assert m != i && z.s.queue[m] == x.s.queue[m];
      assert Ready(z, me);
      SchedLeft(z, y, me);
    }
  }

  lemma ReapedLeft(x: Sys, y: Sys, me: nat)
    requires Ok(x) && Reaped(x, y)
    ensures Left(y, me) <= Left(x, me)
  {
    var i := Position(x.s.queue, x.current);
    var k :| 0 <= k < |x.s.queue| && x.s.queue[k].id != x.current
             && y.s.queue == x.s.queue[..k] + x.s.queue[k + 1..];
    CreditRemove(x.s.queue, k, me);
    LeftAt(x, i, me);
    StaysIn(x.s.queue, y.s.queue, k, i);
    LeftAt(y, if i < k then i else i - 1, me);
  }

  lemma LeftAt(x: Sys, i: nat, me: nat)
    requires Ok(x) && i < |x.s.queue| && x.s.queue[i].id == x.current
    ensures Left(x, me) == Credit(x.s.queue, me) + if x.s.queue[i].ticks == 0 then 1 else 0
  {
    PositionIs(x, i);
  }

  lemma StaysIn(q: seq<Task>, r: seq<Task>, k: nat, i: nat)
    requires k < |q| && i < |q| && i != k && r == q[..k] + q[k + 1..]
    ensures r[if i < k then i else i - 1] == q[i]
  {
  }

  lemma OthersActLeft(x: Sys, y: Sys, me: nat)
    requires Ok(x) && OthersAct(x, y)
    ensures Left(y, me) == Left(x, me)
  {
    var i := Position(x.s.queue, x.current);
    CreditSame(x.s.queue, y.s.queue, me);
    assert SameCredit(x.s.queue[i], y.s.queue[i]);
    PositionIs(y, i);
  }

  lemma OtherLeft(x: Sys, y: Sys, me: nat)
    requires Ok(x) && Ok(y) && Ready(x, me) && Step(x, false, y)
    ensures Left(y, me) <= Left(x, me)
  {
    if OthersAct(x, y) {
      OthersActLeft(x, y, me);
    } else if Reaped(x, y) {
      ReapedLeft(x, y, me);
    } else {
      SchedLeft(x, y, me);
    }
  }

  lemma {:induction false} LeftFalls(run: seq<Sys>, timers: seq<bool>, me: nat, k: nat)
    requires IsRun(run, timers) && k <= |timers|
    requires forall j :: 0 <= j < |run| ==> Ready(run[j], me) && run[j].current != me
    ensures Interrupts(timers[..k]) + Left(run[k], me) <= Left(run[0], me)
    decreases k
  {
    if k > 0 {
      LeftFalls(run, timers, me, k - 1);
      assert timers[..k][..k - 1] == timers[..k - 1];
      var x, y := run[k - 1], run[k];
      assert Ready(x, me) && x.current != me && Step(x, timers[k - 1], y);
      if timers[k - 1] {
        TimerLeft(x, y, me);
      } else {
        OtherLeft(x, y, me);
      }
    }
  }

  /**
   In a run in which `me` stays runnable with a tick and is never the current task, there are
   at most as many timer interrupts as the other tasks had ticks at the start. So it is
   dispatched by the next one at the latest.
   */
  lemma BoundedWaiting(run: seq<Sys>, timers: seq<bool>, me: nat)
    requires IsRun(run, timers)
    requires forall j :: 0 <= j < |run| ==> Ready(run[j], me) && run[j].current != me
    ensures Interrupts(timers) <= Credit(run[0].s.queue, me)
  {
    var n := |timers|;
    LeftFalls(run, timers, me, n);
    assert timers[..n] == timers;
    var last := run[n];
    assert last.current != me;
    CreditAtLeast(last.s.queue, Position(last.s.queue, last.current), me);
    CreditNonNegative(last.s.queue, me);
  }

  // ---- How long a task keeps the CPU ----

  /** Left to itself, a task with T ticks keeps the CPU for exactly T interrupts, each charging one. */
  lemma {:induction false} KeepsCpu(run: seq<Sys>, i: nat, k: nat)
    requires k < |run| && forall j :: 0 <= j < |run| - 1 ==> Ok(run[j]) && TimerStep(run[j], run[j + 1])
    requires i < |run[0].s.queue| && run[0].s.queue[i].id == run[0].current
    requires k < run[0].s.queue[i].ticks && (|run| == 1 ==> Ok(run[0]))
    ensures run[k].current == run[0].current && run[k].idle == run[0].idle
    ensures run[k].s == run[0].s.(queue := run[0].s.queue[i := run[0].s.queue[i].(ticks := run[0].s.queue[i].ticks - k)])
    decreases k
  {
    if k > 0 {
      KeepsCpu(run, i, k - 1);
      var x := run[k - 1];
      assert Ok(x) && TimerStep(x, run[k]);
      PositionIs(x, i);
    }
  }

  /** And the interrupt that uses up the last one, or finds none, calls sched(). */
  lemma LastTick(x: Sys, y: Sys, i: nat)
    requires Ok(x) && i < |x.s.queue| && x.s.queue[i].id == x.current && x.s.queue[i].ticks <= 1 && TimerStep(x, y)
    ensures exists z: Sys :: WellFormed(z.s) && SchedStep(z, y) && x.ms < z.ms <= x.ms + 2
              && z.s == x.s.(queue := x.s.queue[i := x.s.queue[i].(ticks := 0)])
  {
    PositionIs(x, i);
  }

  // ---- Sleeping ----

  /** sleep(d): the current task marks itself and gives up the CPU. The wake-up time is a 32-bit sum. */
  ghost predicate SleepStep(x: Sys, d: nat, y: Sys)
    requires Ok(x)
  {
    var i := Position(x.s.queue, x.current);
    var z := x.(s := x.s.(queue := x.s.queue[i := x.s.queue[i].(state := Sleeping, sleepTill := (x.ms + d) % WORD)]));
    WellFormed(z.s) && SchedStep(z, y)
  }

  /** Task me sleeps, until the given time. */
  ghost predicate SleepsTill(x: Sys, me: nat, till: nat) {
    exists i :: 0 <= i < |x.s.queue| && x.s.queue[i].id == me
      && x.s.queue[i].state == Sleeping && x.s.queue[i].sleepTill == till
  }

  /** sched() leaves a task asleep before its time, and runs another one. */
  lemma SchedLeavesAsleep(x: Sys, y: Sys, me: nat, till: nat)
    requires WellFormed(x.s) && SchedStep(x, y) && SleepsTill(x, me, till) && x.ms < till && me != x.idle
    requires forall i, j :: 0 <= i < j < |x.s.queue| ==> x.s.queue[i].id != x.s.queue[j].id
    ensures SleepsTill(y, me, till) && y.current != me
  {
    var n := |x.s.queue|;
    var i :| 0 <= i < n && x.s.queue[i].id == me && x.s.queue[i].state == Sleeping && x.s.queue[i].sleepTill == till;
    var l := LastRound(x.s, x.ms);
    var next :| IsChoice(l, x.ms, |l.queue|, next) && y.current == if next == -1 then x.idle else l.queue[next].id;
    SleepersWake(x.s, x.ms, next, i);
    FinalFate(x.s, x.ms, i);
    assert y.s.queue[i].id == me && y.s.queue[i].state == Sleeping;
    if next != -1 {
      ChoiceRunnable(x.s, x.ms, next);
      FinalFate(x.s, x.ms, next);
      assert l.queue[next].id == y.s.queue[next].id == x.s.queue[next].id;
    }
  }

  /** A task that called sleep(d) is asleep until d later, unless the sum wraps, and another one runs. */
  lemma SleepStarts(x: Sys, d: nat, y: Sys)
    requires Ok(x) && SleepStep(x, d, y) && d > 0 && x.ms + d < WORD && x.current != x.idle
    ensures SleepsTill(y, x.current, x.ms + d) && y.current != x.current && y.idle == x.idle && y.ms == x.ms
  {
    var i := Position(x.s.queue, x.current);
    var z := x.(s := x.s.(queue := x.s.queue[i := x.s.queue[i].(state := Sleeping, sleepTill := (x.ms + d) % WORD)]));
    assert z.s.queue[i].id == x.current && z.s.queue[i].sleepTill == x.ms + d;
    assert SleepsTill(z, x.current, x.ms + d);
    SchedLeavesAsleep(z, y, x.current, x.ms + d);
  }

  /** If it wraps, the task does not sleep at all: its own sched() finds it due. */
  lemma SleepTooLong(x: Sys, d: nat, y: Sys, i: nat)
    requires Ok(x) && SleepStep(x, d, y) && d <= WORD && x.ms < WORD <= x.ms + d
    requires i < |x.s.queue| && x.s.queue[i].id == x.current
    ensures i < |y.s.queue|
    ensures y.s.queue[i].state == Runnable || (y.s.queue[i].state == Stopping && x.s.queue[i].overflow)
  {
    PositionIs(x, i);
    var z := x.(s := x.s.(queue := x.s.queue[i := x.s.queue[i].(state := Sleeping, sleepTill := (x.ms + d) % WORD)]));
    assert (x.ms + d) % WORD <= x.ms;
    FinalFate(z.s, z.ms, i);
  }

  /** If the step is something the tasks do, it does not touch the sleeper me. */
  ghost predicate LeftAsleep(x: Sys, y: Sys, me: nat, till: nat) {
    (OthersAct(x, y) || Reaped(x, y)) && SleepsTill(x, me, till) ==> SleepsTill(y, me, till)
  }

  /**
   However the others run, block, wake, or exit: a task that is asleep is not dispatched before
   its time, as long as nobody else changes its state.
   */
  lemma {:induction false} SleepsAtLeast(run: seq<Sys>, timers: seq<bool>, me: nat, till: nat, k: nat)
    requires IsRun(run, timers) && k < |run| && me != run[0].idle
    requires SleepsTill(run[0], me, till) && run[0].current != me && run[k].ms < till
    requires forall j :: 0 <= j < |timers| ==> LeftAsleep(run[j], run[j + 1], me, till)
    ensures SleepsTill(run[k], me, till) && run[k].current != me && run[k].idle == run[0].idle
    decreases k
  {
    if k > 0 {
      var x, y := run[k - 1], run[k];
      assert Ok(x) && Step(x, timers[k - 1], y) && LeftAsleep(x, y, me, till);
      StepForward(x, timers[k - 1], y);
      SleepsAtLeast(run, timers, me, till, k - 1);
      if timers[k - 1] {
        TimerLeavesAsleep(x, y, me, till);
      } else if SchedStep(x, y) {
        SchedLeavesAsleep(x, y, me, till);
      }
    }
  }

  /** Each interrupt advances the clock, and nothing sets it back. */
  lemma {:induction false} ClockAdvances(run: seq<Sys>, timers: seq<bool>, k: nat)
    requires IsRun(run, timers) && k <= |timers|
    ensures run[k].ms >= run[0].ms + Interrupts(timers[..k])
    decreases k
  {
    if k > 0 {
      ClockAdvances(run, timers, k - 1);
      assert timers[..k][..k - 1] == timers[..k - 1];
      assert Ok(run[k - 1]) && Step(run[k - 1], timers[k - 1], run[k]);
      StepForward(run[k - 1], timers[k - 1], run[k]);
    }
  }

  /** A task does not oversleep: after as many interrupts as it has milliseconds to sleep, sched() wakes it. */
  lemma SleepEnds(run: seq<Sys>, timers: seq<bool>, me: nat, till: nat, k: nat, i: nat)
    requires IsRun(run, timers) && k < |timers| && run[0].ms + Interrupts(timers[..k]) >= till
    requires i < |run[k].s.queue| && run[k].s.queue[i].id == me && run[k].s.queue[i].state == Sleeping
    requires run[k].s.queue[i].sleepTill == till && SchedStep(run[k], run[k + 1])
    ensures i < |run[k + 1].s.queue|
    ensures var t := run[k + 1].s.queue[i];
      t.id == me && (t.state == Runnable || (t.state == Stopping && t.overflow))
  {
    ClockAdvances(run, timers, k);
    FinalFate(run[k].s, run[k].ms, i);
  }

  lemma StepForward(x: Sys, timer: bool, y: Sys)
    requires Ok(x) && Step(x, timer, y)
    ensures y.ms >= (if timer then x.ms + 1 else x.ms) && y.idle == x.idle
  {
  }

  lemma TimerLeavesAsleep(x: Sys, y: Sys, me: nat, till: nat)
    requires Ok(x) && TimerStep(x, y) && SleepsTill(x, me, till) && y.ms < till && me != x.idle && x.current != me
    ensures SleepsTill(y, me, till) && y.current != me
  {
    var c := Position(x.s.queue, x.current);
    var i :| 0 <= i < |x.s.queue| && x.s.queue[i].id == me && x.s.queue[i].state == Sleeping && x.s.queue[i].sleepTill == till;
    var ms :| ms >= x.ms && var z := Ticked(x, c).(ms := ms);
      if x.s.queue[c].ticks - 1 > 0 then y == z else WellFormed(z.s) && SchedStep(z, y);
    var z := Ticked(x, c).(ms := ms);
    assert z.s.queue[i] == x.s.queue[i];
    assert SleepsTill(z, me, till);
    if x.s.queue[c].ticks - 1 <= 0 {
      SchedLeavesAsleep(z, y, me, till);
    }
  }
}
