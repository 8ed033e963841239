/**
 The scheduler's choice of the next task: tick credits, recharge when all are spent, and
 the one side effect of the scan, killing tasks whose stack overflowed and waking the reaper.
 */
module Scheduler {
  import opened Common
  import opened Counting

  datatype TaskState = Dead | Runnable | Wait | WaitTask | WaitSemaphore | Sleeping | Stopping

  /** overflow: the saved stack pointer is inside the redzone. */
  datatype Task = Task(id: nat, state: TaskState, ticks: int, priority: int, sleepTill: nat, overflow: bool)

  /** waiter: position of the reaper while it waits on the reaper_call semaphore. */
  datatype State = State(queue: seq<Task>, waiter: Option<nat>)

  function SetState(q: seq<Task>, i: nat, st: TaskState): seq<Task>
    requires i < |q|
  {
    q[i := q[i].(state := st)]
  }

  /** sem_post(&reaper_call), as far as the run queue is concerned. */
  function Post(s: State): (r: State)
    ensures |r.queue| == |s.queue|
  {
    if s.waiter.Some? && s.waiter.value < |s.queue|
    then State(SetState(s.queue, s.waiter.value, Runnable), None) else s
  }

  predicate Overflown(t: Task) {
    t.state == Runnable && t.overflow
  }

  predicate Due(t: Task, ms: nat) {
    t.state == Sleeping && ms >= t.sleepTill
  }

  /** update_task_state of the i-th task. */
  function UpdateTask(s: State, i: nat, ms: nat): (r: State)
    requires i < |s.queue|
    ensures |r.queue| == |s.queue|
  {
    var s1 := if Overflown(s.queue[i]) then Post(s.(queue := SetState(s.queue, i, Stopping))) else s;
    if Due(s1.queue[i], ms) then s1.(queue := SetState(s1.queue, i, Runnable)) else s1
  }

  function Recharged(t: Task): Task {
    if t.state == Runnable then t.(ticks := t.ticks / 2 + t.priority) else t
  }

  function Recharge(q: seq<Task>): (r: seq<Task>)
    ensures |r| == |q| && forall i :: 0 <= i < |q| ==> r[i] == Recharged(q[i])
  {
    seq(|q|, i requires 0 <= i < |q| => Recharged(q[i]))
  }

  // ---- What one scan does, position by position ----

  ghost predicate WellFormed(s: State) {
    && (s.waiter.Some? ==> s.waiter.value < |s.queue| && s.queue[s.waiter.value].state == WaitSemaphore)
    && forall i :: 0 <= i < |s.queue| ==> s.queue[i].ticks >= 0 && s.queue[i].priority >= 1
  }

  /** Some task before position n gets killed by the scan. */
  ghost predicate StopBefore(s: State, n: nat)
    requires n <= |s.queue|
  {
    exists k :: 0 <= k < n && Overflown(s.queue[k])
  }

  /** The task at j is runnable when the scan comes to it. */
  ghost predicate WillRun(s: State, ms: nat, j: nat)
    requires j < |s.queue|
  {
    var t := s.queue[j];
    || (t.state == Runnable && !t.overflow)
    || Due(t, ms)
    || (s.waiter == Some(j) && StopBefore(s, j) && !t.overflow)
  }

  /** The most ticks among the first n tasks that are runnable when visited; -1 if there is none. */
  ghost function TopTicks(s: State, ms: nat, n: nat): int
    requires n <= |s.queue|
  {
    if n == 0 then -1
    else
      var m := TopTicks(s, ms, n - 1);
      if WillRun(s, ms, n - 1) && s.queue[n - 1].ticks > m then s.queue[n - 1].ticks else m
  }

  /** State of the task at j once the scan has done positions 0 .. n - 1. */
  ghost function StateAfter(s: State, ms: nat, n: nat, j: nat): TaskState
    requires n <= |s.queue| && j < |s.queue|
  {
    var t := s.queue[j];
    if s.waiter == Some(j) then
      if !StopBefore(s, n) then t.state
      else if j < n && StopBefore(s, j) && t.overflow then Stopping
      else Runnable
    else if j < n && Overflown(t) then Stopping
    else if j < n && Due(t, ms) then Runnable
    else t.state
  }

  /** The run queue once the scan has done positions 0 .. n - 1. */
  ghost function Scanned(s: State, ms: nat, n: nat): (r: State)
    requires n <= |s.queue|
    ensures |r.queue| == |s.queue|
  {
    State(seq(|s.queue|, j requires 0 <= j < |s.queue| => s.queue[j].(state := StateAfter(s, ms, n, j))),
          if StopBefore(s, n) then None else s.waiter)
  }

  lemma ScannedStep(s: State, ms: nat, n: nat)
    requires WellFormed(s) && n < |s.queue|
    ensures UpdateTask(Scanned(s, ms, n), n, ms) == Scanned(s, ms, n + 1)
    ensures Scanned(s, ms, n + 1).queue[n].state == Runnable <==> WillRun(s, ms, n)
  {
    assert StopBefore(s, n + 1) <==> StopBefore(s, n) || Overflown(s.queue[n]);
    var r, r' := UpdateTask(Scanned(s, ms, n), n, ms), Scanned(s, ms, n + 1);
    forall j | 0 <= j < |s.queue|
      ensures r.queue[j] == r'.queue[j]
    {
    }
  }

  /** next is the first of the tasks with the most ticks, or -1 when none of the first n will run. */
  ghost predicate IsChoice(s: State, ms: nat, n: nat, next: int)
    requires n <= |s.queue|
  {
    var top := TopTicks(s, ms, n);
    if top == -1 then next == -1
    else
      && 0 <= next < n && WillRun(s, ms, next) && s.queue[next].ticks == top
      && forall j :: 0 <= j < next && WillRun(s, ms, j) ==> s.queue[j].ticks < top
  }

  lemma {:induction false} TopTicksIsMax(s: State, ms: nat, n: nat)
    requires n <= |s.queue| && WellFormed(s)
    ensures TopTicks(s, ms, n) >= -1
    ensures forall j :: 0 <= j < n && WillRun(s, ms, j) ==> s.queue[j].ticks <= TopTicks(s, ms, n)
    ensures TopTicks(s, ms, n) >= 0 ==>
              exists j :: 0 <= j < n && WillRun(s, ms, j) && s.queue[j].ticks == TopTicks(s, ms, n)
  {
    if n > 0 {
      TopTicksIsMax(s, ms, n - 1);
      if WillRun(s, ms, n - 1) {
        assert s.queue[n - 1].ticks >= 0;
      }
    }
  }

  lemma ChoiceStep(s: State, ms: nat, i: nat, next: int)
    requires WellFormed(s) && i < |s.queue| && IsChoice(s, ms, i, next)
    ensures IsChoice(s, ms, i + 1, if WillRun(s, ms, i) && s.queue[i].ticks > TopTicks(s, ms, i) then i else next)
  {
    TopTicksIsMax(s, ms, i);
  }

  // ---- Termination of the outer loop ----

  /** Overflowed and not stopped yet: the scan may still kill it. */
  predicate AtRisk(t: Task) {
    t.overflow && (t.state == Runnable || t.state == Sleeping)
  }

  /** Bounds how many tasks can still be killed. Killing one lowers it, nothing raises it. */
  ghost function Risk(s: State): nat {
    Count(s.queue, AtRisk) + if s.waiter.Some? then 1 else 0
  }

  /** All runnable tasks have ticks and no sleeper is due: the next scan finds one, or kills. */
  ghost predicate Charged(s: State, ms: nat) {
    forall i :: 0 <= i < |s.queue| ==>
      (s.queue[i].state == Runnable ==> s.queue[i].ticks >= 1) && !Due(s.queue[i], ms)
  }

  lemma UpdateRisk(s: State, i: nat, ms: nat)
    requires i < |s.queue|
    ensures Risk(UpdateTask(s, i, ms)) <= Risk(s) - (if Overflown(s.queue[i]) then 1 else 0)
  {
    if Overflown(s.queue[i]) {
      var s0 := s.(queue := SetState(s.queue, i, Stopping));
      CountUpdate(s.queue, i, s.queue[i].(state := Stopping), AtRisk);
      if s.waiter.Some? && s.waiter.value < |s.queue| {
        CountUpdate(s0.queue, s.waiter.value, s0.queue[s.waiter.value].(state := Runnable), AtRisk);
      }
    }
    var s1 := if Overflown(s.queue[i]) then Post(s.(queue := SetState(s.queue, i, Stopping))) else s;
    if Due(s1.queue[i], ms) {
      CountUpdate(s1.queue, i, s1.queue[i].(state := Runnable), AtRisk);
    }
  }

  lemma {:induction false} ScanRisk(s: State, ms: nat, n: nat)
    requires WellFormed(s) && n <= |s.queue|
    ensures Risk(Scanned(s, ms, n)) <= Risk(s) - (if StopBefore(s, n) then 1 else 0)
  {
    if n == 0 {
      assert Scanned(s, ms, 0).queue == s.queue;
    } else {
      ScanRisk(s, ms, n - 1);
      ScannedStep(s, ms, n - 1);
      UpdateRisk(Scanned(s, ms, n - 1), n - 1, ms);
      if StopBefore(s, n) && !StopBefore(s, n - 1) {
        assert Overflown(s.queue[n - 1]);
        assert Scanned(s, ms, n - 1).queue[n - 1] == s.queue[n - 1];
      }
    }
  }

  lemma {:induction false} CountSame<T>(s: seq<T>, s': seq<T>, f: T -> bool)
    requires |s'| == |s| && forall i :: 0 <= i < |s| ==> f(s'[i]) == f(s[i])
    ensures Count(s', f) == Count(s, f)
  {
    if s != [] {
      CountSame(s[1..], s'[1..], f);
    }
  }

  /** The state in which the next scan starts, after one that found only spent tasks. */
  ghost function NextRound(s: State, ms: nat): (r: State)
    ensures |r.queue| == |s.queue|
  {
    var s1 := Scanned(s, ms, |s.queue|);
    s1.(queue := Recharge(s1.queue))
  }

  /** Recharging twice in a row takes a task killed in between, and there are only so many. */
  lemma RoundProgress(s: State, ms: nat)
    requires WellFormed(s) && TopTicks(s, ms, |s.queue|) == 0
    ensures var r := NextRound(s, ms);
      && WellFormed(r) && Charged(r, ms) && Risk(r) <= Risk(s)
      && (Risk(r) == Risk(s) ==> !Charged(s, ms))
  {
    var n := |s.queue|;
    var s1, r := Scanned(s, ms, n), NextRound(s, ms);
    ScanRisk(s, ms, n);
    CountSame(s1.queue, r.queue, AtRisk);
    TopTicksIsMax(s, ms, n);
    if r.waiter.Some? {
      assert StateAfter(s, ms, n, s.waiter.value) == WaitSemaphore;
    }
  }

  /** The state in which the scan that settles the choice starts. */
  ghost function LastRound(s: State, ms: nat): (r: State)
    requires WellFormed(s)
    ensures WellFormed(r) && |r.queue| == |s.queue| && TopTicks(r, ms, |r.queue|) != 0
    decreases Risk(s), if Charged(s, ms) then 0 else 1
  {
    if TopTicks(s, ms, |s.queue|) != 0 then s
    else
      RoundProgress(s, ms);
      LastRound(NextRound(s, ms), ms)
  }

  // ---- What the choice means ----

  /** next is runnable with the most ticks, at least one; or there is nothing to run. */
  ghost predicate Best(q: seq<Task>, next: int) {
    if next == -1 then forall j :: 0 <= j < |q| ==> q[j].state != Runnable
    else
      && 0 <= next < |q| && q[next].state == Runnable && q[next].ticks >= 1
      && forall j :: 0 <= j < |q| && q[j].state == Runnable ==> q[j].ticks <= q[next].ticks
  }

  /** The scan wakes the reaper only after passing it. */
  ghost predicate WokenLate(s: State) {
    && s.waiter.Some? && s.waiter.value < |s.queue|
    && StopBefore(s, |s.queue|) && !StopBefore(s, s.waiter.value)
  }

  /** ... and the reaper has more ticks than any task the scan found runnable. */
  ghost predicate ReaperPassedOver(s: State, ms: nat) {
    && WokenLate(s)
    && forall j :: 0 <= j < |s.queue| && WillRun(s, ms, j) ==> s.queue[j].ticks < s.queue[s.waiter.value].ticks
  }

  // ---- The same, seen from the state on entry ----

  /** Some task will run, but none that will has a tick left: everybody is recharged first. */
  ghost predicate Spent(s: State, ms: nat) {
    && (exists j :: 0 <= j < |s.queue| && WillRun(s, ms, j))
    && forall j :: 0 <= j < |s.queue| && WillRun(s, ms, j) ==> s.queue[j].ticks == 0
  }

  /** Some task before position n is due to wake up, with an overflowed stack: the second scan kills it. */
  ghost predicate LateStopBefore(s: State, ms: nat, n: nat)
    requires n <= |s.queue|
  {
    exists k :: 0 <= k < n && Due(s.queue[k], ms) && s.queue[k].overflow
  }

  /**
   The reaper is woken behind a scan that decides: in the first one, or, when everybody is
   recharged first, in the second one, where the others have their priority as ticks.
   */
  ghost predicate ReaperMissed(s: State, ms: nat) {
    if !Spent(s, ms) then ReaperPassedOver(s, ms)
    else
      && s.waiter.Some? && s.waiter.value < |s.queue|
      && !StopBefore(s, |s.queue|) && LateStopBefore(s, ms, |s.queue|) && !LateStopBefore(s, ms, s.waiter.value)
      && forall j :: 0 <= j < |s.queue| && !s.queue[j].overflow && (s.queue[j].state == Runnable || Due(s.queue[j], ms)) ==>
           s.queue[j].priority < s.queue[s.waiter.value].ticks
  }

  lemma SpentIs(s: State, ms: nat)
    requires WellFormed(s)
    ensures Spent(s, ms) <==> TopTicks(s, ms, |s.queue|) == 0
  {
    TopTicksIsMax(s, ms, |s.queue|);
  }

  lemma {:induction false} WaiterGone(s: State, ms: nat)
    requires WellFormed(s) && s.waiter.None?
    ensures LastRound(s, ms).waiter.None?
    decreases Risk(s), if Charged(s, ms) then 0 else 1
  {
    if TopTicks(s, ms, |s.queue|) == 0 {
      RoundProgress(s, ms);
      WaiterGone(NextRound(s, ms), ms);
    }
  }

  /** The second round, when the first one found only spent tasks and killed none. */
  lemma SecondRound(s: State, ms: nat, j: nat)
    requires WellFormed(s) && Spent(s, ms) && !StopBefore(s, |s.queue|) && j < |s.queue|
    ensures var t, u := s.queue[j], NextRound(s, ms).queue[j];
      && u.overflow == t.overflow && !Due(u, ms)
      && (u.state == Runnable <==> t.state == Runnable || Due(t, ms))
      && (u.state == Runnable ==> u.ticks == t.priority)
      && (u.state != Runnable ==> u.ticks == t.ticks)
      && (Overflown(u) <==> Due(t, ms) && t.overflow)
  {
    assert !Overflown(s.queue[j]);
    if s.queue[j].state == Runnable || Due(s.queue[j], ms) {
      assert WillRun(s, ms, j);
    }
  }

  lemma SecondStops(s: State, ms: nat, n: nat)
    requires WellFormed(s) && Spent(s, ms) && !StopBefore(s, |s.queue|) && n <= |s.queue|
    ensures StopBefore(NextRound(s, ms), n) <==> LateStopBefore(s, ms, n)
  {
    forall j: nat | j < n
      ensures Overflown(NextRound(s, ms).queue[j]) <==> Due(s.queue[j], ms) && s.queue[j].overflow
    {
      SecondRound(s, ms, j);
    }
  }

  /** In the second round the reaper is passed over exactly as ReaperMissed says. */
  lemma SecondPassedOver(s: State, ms: nat)
    requires WellFormed(s) && Spent(s, ms) && !StopBefore(s, |s.queue|)
    ensures ReaperPassedOver(NextRound(s, ms), ms) <==> ReaperMissed(s, ms)
  {
    var r, n := NextRound(s, ms), |s.queue|;
    if r.waiter.Some? && r.waiter.value < n {
      var w := r.waiter.value;
      SecondStops(s, ms, n);
      SecondStops(s, ms, w);
      SecondRound(s, ms, w);
      if !StopBefore(r, w) {
        forall j: nat | j < n
          ensures WillRun(r, ms, j) <==> !s.queue[j].overflow && (s.queue[j].state == Runnable || Due(s.queue[j], ms))
          ensures WillRun(r, ms, j) ==> r.queue[j].ticks == s.queue[j].priority
        {
          SecondRound(s, ms, j);
        }
      }
    }
  }

  /** The second round is the last one, or wakes the reaper in time. */
  lemma SecondIsLast(s: State, ms: nat)
    requires WellFormed(s) && Spent(s, ms) && !StopBefore(s, |s.queue|)
    ensures var r := NextRound(s, ms);
      WellFormed(r) && (Spent(r, ms) ==> StopBefore(r, |r.queue|) && !ReaperPassedOver(r, ms))
  {
    var r := NextRound(s, ms);
    SpentIs(s, ms);
    RoundProgress(s, ms);
    if Spent(r, ms) {
      var j: nat :| j < |r.queue| && WillRun(r, ms, j);
      SecondRound(s, ms, j);
      assert r.queue[j].ticks == 0 && r.waiter == Some(j) && StopBefore(r, j);
    }
  }

  /** So the state on entry decides whether the scan that settles the choice passes over the reaper. */
  lemma MissedOnEntry(s: State, ms: nat)
    requires WellFormed(s)
    ensures ReaperPassedOver(LastRound(s, ms), ms) <==> ReaperMissed(s, ms)
  {
    SpentIs(s, ms);
    if Spent(s, ms) {
      var r := NextRound(s, ms);
      RoundProgress(s, ms);
      if StopBefore(s, |s.queue|) {
        WaiterGone(r, ms);
      } else {
        SecondPassedOver(s, ms);
        SecondIsLast(s, ms);
        SpentIs(r, ms);
        if Spent(r, ms) {
          RoundProgress(r, ms);
          WaiterGone(NextRound(r, ms), ms);
        }
      }
    }
  }

  lemma RunnableAfter(s: State, ms: nat, j: nat)
    requires WellFormed(s) && j < |s.queue|
    ensures Scanned(s, ms, |s.queue|).queue[j].state == Runnable <==>
              WillRun(s, ms, j) || (WokenLate(s) && s.waiter == Some(j))
  {
    assert StateAfter(s, ms, |s.queue|, j) == Scanned(s, ms, |s.queue|).queue[j].state;
  }

  /**
   find_next_runnable returns a runnable task of maximal ticks (at least one), or nothing when
   nothing is runnable, exactly when the deciding scan does not wake the reaper behind itself,
   which the state on entry determines. The scan kills a task only if its stack has overflowed.
   */
  lemma ChoiceBestIff(s: State, ms: nat, next: int)
    requires WellFormed(s) && IsChoice(LastRound(s, ms), ms, |s.queue|, next)
    ensures Best(Scanned(LastRound(s, ms), ms, |s.queue|).queue, next) <==> !ReaperMissed(s, ms)
  {
    MissedOnEntry(s, ms);
    LastChoiceBest(LastRound(s, ms), ms, next);
  }

  lemma LastChoiceBest(l: State, ms: nat, next: int)
    requires WellFormed(l) && TopTicks(l, ms, |l.queue|) != 0 && IsChoice(l, ms, |l.queue|, next)
    ensures Best(Scanned(l, ms, |l.queue|).queue, next) <==> !ReaperPassedOver(l, ms)
  {
    var n := |l.queue|;
    var q := Scanned(l, ms, n).queue;
    TopTicksIsMax(l, ms, n);
    forall j | 0 <= j < n
      ensures q[j].ticks == l.queue[j].ticks
      ensures q[j].state == Runnable <==> WillRun(l, ms, j) || (WokenLate(l) && l.waiter == Some(j))
    {
      RunnableAfter(l, ms, j);
    }
    if WokenLate(l) {
      assert q[l.waiter.value].state == Runnable;
      assert l.queue[l.waiter.value].ticks >= 0;
    }
  }

  /** Without a stack overflow anywhere the choice is always best. */
  lemma NoOverflowBest(s: State, ms: nat, next: int)
    requires WellFormed(s) && IsChoice(LastRound(s, ms), ms, |s.queue|, next)
    requires forall j :: 0 <= j < |s.queue| ==> !s.queue[j].overflow
    ensures Best(Scanned(LastRound(s, ms), ms, |s.queue|).queue, next)
  {
    ChoiceBestIff(s, ms, next);
  }

  /** The exception happens: the reaper waits in front of the one task, whose stack overflowed. */
  lemma ReaperOverlooked(ms: nat)
    ensures var reaper, bad := Task(1, WaitSemaphore, 20, 20, 0, false), Task(2, Runnable, 5, 20, 0, true);
      var s := State([reaper, bad], Some(0));
      && WellFormed(s) && LastRound(s, ms) == s && IsChoice(s, ms, 2, -1)
      && Scanned(s, ms, 2).queue[0].state == Runnable && ReaperMissed(s, ms)
  {
    var reaper, bad := Task(1, WaitSemaphore, 20, 20, 0, false), Task(2, Runnable, 5, 20, 0, true);
    var s := State([reaper, bad], Some(0));
    assert Overflown(s.queue[1]) && StopBefore(s, 2) && !StopBefore(s, 0);
    assert !WillRun(s, ms, 0) && !WillRun(s, ms, 1);
    assert TopTicks(s, ms, 1) == -1;
    assert TopTicks(s, ms, 2) == -1;
  }

  // ---- What becomes of each task ----

  /**
   From t to u over a call of find_next_runnable at time ms; waits: t is the reaper, waiting on its
   semaphore. A sleeper wakes exactly when its time has come. Only tasks with an overflowed stack
   are stopped, and the runnable ones among them always. Only the reaper is woken otherwise.
   */
  ghost predicate Fate(t: Task, u: Task, ms: nat, waits: bool) {
    && u.id == t.id && u.priority == t.priority && u.sleepTill == t.sleepTill && u.overflow == t.overflow
    && match t.state
       case Runnable => u.state == if t.overflow then Stopping else Runnable
       case Sleeping =>
         if ms < t.sleepTill then u.state == Sleeping
         else u.state == Runnable || (u.state == Stopping && t.overflow)
       case WaitSemaphore =>
         u.state == WaitSemaphore || (waits && (u.state == Runnable || (u.state == Stopping && t.overflow)))
       case _ => u.state == t.state
  }

  lemma FateTwice(t: Task, u: Task, v: Task, ms: nat, waits: bool, waits': bool)
    requires Fate(t, u, ms, waits) && Fate(u, v, ms, waits') && (waits' ==> waits)
    ensures Fate(t, v, ms, waits)
  {
  }

  lemma ScanFate(s: State, ms: nat, j: nat)
    requires WellFormed(s) && j < |s.queue|
    ensures Fate(s.queue[j], Scanned(s, ms, |s.queue|).queue[j], ms, s.waiter == Some(j))
    ensures Fate(s.queue[j], NextRound(s, ms).queue[j], ms, s.waiter == Some(j))
  {
    if Overflown(s.queue[j]) {
      assert StopBefore(s, |s.queue|);
    }
  }

  lemma {:induction false} FinalFate(s: State, ms: nat, j: nat)
    requires WellFormed(s) && j < |s.queue|
    ensures Fate(s.queue[j], Scanned(LastRound(s, ms), ms, |s.queue|).queue[j], ms, s.waiter == Some(j))
    decreases Risk(s), if Charged(s, ms) then 0 else 1
  {
    ScanFate(s, ms, j);
    if TopTicks(s, ms, |s.queue|) == 0 {
      RoundProgress(s, ms);
      var r := NextRound(s, ms);
      FinalFate(r, ms, j);
      FateTwice(s.queue[j], r.queue[j], Scanned(LastRound(s, ms), ms, |s.queue|).queue[j], ms,
                s.waiter == Some(j), r.waiter == Some(j));
    }
  }

  /** The choice is runnable once the call is over. */
  lemma ChoiceRunnable(s: State, ms: nat, next: int)
    requires WellFormed(s) && IsChoice(LastRound(s, ms), ms, |s.queue|, next) && next != -1
    ensures 0 <= next < |s.queue| && Scanned(LastRound(s, ms), ms, |s.queue|).queue[next].state == Runnable
  {
    var l := LastRound(s, ms);
    TopTicksIsMax(l, ms, |s.queue|);
    RunnableAfter(l, ms, next);
  }

  /** A sleeper is left asleep, and not chosen, as long as its time has not come; then it wakes. */
  lemma SleepersWake(s: State, ms: nat, next: int, j: nat)
    requires WellFormed(s) && IsChoice(LastRound(s, ms), ms, |s.queue|, next)
    requires j < |s.queue| && s.queue[j].state == Sleeping
    ensures var u := Scanned(LastRound(s, ms), ms, |s.queue|).queue[j];
      && (ms < s.queue[j].sleepTill ==> u.state == Sleeping && next != j)
      && (ms >= s.queue[j].sleepTill ==> u.state == Runnable || (u.state == Stopping && s.queue[j].overflow))
  {
    FinalFate(s, ms, j);
    if next == j {
      ChoiceRunnable(s, ms, next);
    }
  }

  // ---- The run queue updated in place ----

  class RunQueue {
    var queue: seq<Task>
    var waiter: Option<nat>

    ghost function St(): State
      reads this
    {
      State(queue, waiter)
    }

    constructor (queue: seq<Task>, waiter: Option<nat>)
      ensures St() == State(queue, waiter)
    {
      this.queue, this.waiter := queue, waiter;
    }

    method UpdateTaskState(i: nat, ms: nat)
      requires i < |queue|
      modifies this
      ensures St() == UpdateTask(old(St()), i, ms)
    {
      if queue[i].state == Runnable && queue[i].overflow {
        queue := SetState(queue, i, Stopping);
        if waiter.Some? && waiter.value < |queue| {
          queue := SetState(queue, waiter.value, Runnable);
          waiter := None;
        }
      }
      if queue[i].state == Sleeping && ms >= queue[i].sleepTill {
        queue := SetState(queue, i, Runnable);
      }
    }

    /** Position of the task to run next, or -1 for NULL. */
    method FindNextRunnable(ms: nat) returns (next: int)
      requires WellFormed(St())
      modifies this
      ensures var l := LastRound(old(St()), ms);
        St() == Scanned(l, ms, |l.queue|) && IsChoice(l, ms, |l.queue|, next)
      ensures |queue| == |old(queue)|
      ensures forall j :: 0 <= j < |queue| ==> Fate(old(queue)[j], queue[j], ms, old(waiter) == Some(j))
      ensures next != -1 ==> 0 <= next < |queue| && queue[next].state == Runnable
    {
      forall j: nat | j < |queue|
        ensures Fate(queue[j], Scanned(LastRound(St(), ms), ms, |queue|).queue[j], ms, waiter == Some(j))
      {
        FinalFate(St(), ms, j);
      }
      while true
        invariant WellFormed(St()) && LastRound(St(), ms) == LastRound(old(St()), ms)
        decreases Risk(St()), if Charged(St(), ms) then 0 else 1
      {
        ghost var s0 := St();
        var maxTicks;
        next, maxTicks := ScanOnce(ms);
        if maxTicks != 0 {
          if next != -1 {
            ChoiceRunnable(s0, ms, next);
          }
          return;
        }
        RoundProgress(s0, ms);
        RechargeAll();
      }
    }

    method ScanOnce(ms: nat) returns (next: int, maxTicks: int)
      requires WellFormed(St())
      modifies this
      ensures St() == Scanned(old(St()), ms, |old(queue)|)
      ensures maxTicks == TopTicks(old(St()), ms, |old(queue)|) && IsChoice(old(St()), ms, |old(queue)|, next)
    {
      next, maxTicks := -1, -1;
      assert Scanned(St(), ms, 0) == St();
      for i := 0 to |queue|
        invariant |queue| == |old(queue)| && St() == Scanned(old(St()), ms, i)
        invariant maxTicks == TopTicks(old(St()), ms, i) && IsChoice(old(St()), ms, i, next)
      {
        ScannedStep(old(St()), ms, i);
        ChoiceStep(old(St()), ms, i, next);
        UpdateTaskState(i, ms);
        assert queue[i].ticks == old(queue)[i].ticks;
        if queue[i].state == Runnable && queue[i].ticks > maxTicks {
          next := i;
          maxTicks := queue[i].ticks;
        }
      }
    }

    method RechargeAll()
      modifies this`queue
      ensures queue == Recharge(old(queue))
      ensures |queue| == |old(queue)| && forall j :: 0 <= j < |queue| ==>
        queue[j] == if old(queue)[j].state == Runnable
                    then old(queue)[j].(ticks := old(queue)[j].ticks / 2 + old(queue)[j].priority) else old(queue)[j]
    {
      for i := 0 to |queue|
        invariant |queue| == |old(queue)|
        invariant forall j :: 0 <= j < i ==> queue[j] == Recharged(old(queue)[j])
        invariant forall j :: i <= j < |queue| ==> queue[j] == old(queue)[j]
      {
        if queue[i].state == Runnable {
          queue := queue[i := queue[i].(ticks := queue[i].ticks / 2 + queue[i].priority)];
        }
      }
    }
  }
}
