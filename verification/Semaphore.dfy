/**
 The counting semaphore as a step relation: one step is one shared load, one
 compare-and-exchange or one locked increment, interleaved arbitrarily over any number of tasks.
 */
module Semaphore {
  import opened Atomic
  import opened Counting

  const TRIES := 2

  /** Where a task is inside sem_pend; `val` is its possibly stale copy of the count. */
  datatype Pend = Try(t: nat) | Loaded(t: nat, val: int) | Asleep

  datatype Outcome = Going(p: Pend) | Acquired

  datatype PendResult = PendResult(count: int, out: Outcome)

  /** The next shared step of sem_pend. A sleeper may be woken at any time, by anyone. */
  function PendStep(count: int, p: Pend): PendResult {
    match p
    case Try(t) => PendResult(count, Going(Loaded(t, count)))
    case Loaded(t, val) =>
      if val == 0 then PendResult(count, Going(Again(t)))
      else
        var x := Cmpxchg(count, val, val - 1);
        PendResult(x.mem, if x.ret == val then Acquired else Going(Again(t)))
    case Asleep => PendResult(count, Going(Try(0)))
  }

  /** Another try, or sleep after TRIES of them. */
  function Again(t: nat): Pend {
    if t + 1 < TRIES then Try(t + 1) else Asleep
  }

  /** A step takes at most one unit, takes it exactly when it acquires, and never one that is not there. */
  lemma PendStepTakesOne(count: int, p: Pend)
    requires count >= 0
    ensures var r := PendStep(count, p);
      && r.count == (if r.out.Acquired? then count - 1 else count) && r.count >= 0
      && (r.out.Acquired? ==> p.Loaded? && p.val == count)
  {
  }

  /** A step acquires exactly when the copy is current and there is a unit. */
  lemma AcquiresIff(count: int, p: Pend)
    ensures PendStep(count, p).out.Acquired? <==> p.Loaded? && p.val == count && count != 0
  {
  }

  /** The next n steps of a task inside sem_pend, nobody else touching the count. */
  function Alone(count: int, p: Pend, n: nat): PendResult
    decreases n
  {
    if n == 0 then PendResult(count, Going(p))
    else
      var r := PendStep(count, p);
      if r.out.Acquired? then r else Alone(r.count, r.out.p, n - 1)
  }

  /**
   Undisturbed, sem_pend takes a unit in two steps if there is one, and so does a sleeper once it
   has been woken; if there is none it goes to sleep after two tries, every time.
   */
  lemma AloneOutcome(count: nat)
    ensures count > 0 ==> forall t :: Alone(count, Try(t), 2) == PendResult(count - 1, Acquired)
    ensures count > 0 ==> Alone(count, Asleep, 3) == PendResult(count - 1, Acquired)
    ensures count == 0 ==> Alone(0, Try(0), 4) == Alone(0, Asleep, 5) == PendResult(0, Going(Asleep))
  {
    if count > 0 {
      forall t
        ensures Alone(count, Try(t), 2) == PendResult(count - 1, Acquired)
      {
        assert PendStep(count, Try(t)) == PendResult(count, Going(Loaded(t, count)));
        assert PendStep(count, Loaded(t, count)) == PendResult(count - 1, Acquired);
        assert Alone(count, Loaded(t, count), 1) == PendResult(count - 1, Acquired);
      }
      assert Alone(count, Asleep, 3) == Alone(count, Try(0), 2);
    } else {
      assert Alone(0, Loaded(1, 0), 1) == PendResult(0, Going(Asleep));
      assert Alone(0, Try(1), 2) == Alone(0, Loaded(1, 0), 1);
      assert Alone(0, Loaded(0, 0), 3) == Alone(0, Try(1), 2);
      assert Alone(0, Asleep, 5) == Alone(0, Try(0), 4);
    }
  }

  // ---- Any use of one semaphore ----

  datatype Pc = Idle | Pending(p: Pend)

  /** posts and pends count the completed calls so far. */
  datatype State = State(count: int, tasks: seq<Pc>, posts: nat, pends: nat)

  ghost predicate TaskStep(s: State, i: nat, s': State)
    requires i < |s.tasks|
  {
    match s.tasks[i]
    case Idle =>
      || s' == s.(tasks := s.tasks[i := Pending(Try(0))])
      || s' == s.(count := s.count + 1, posts := s.posts + 1)
    case Pending(p) =>
      var r := PendStep(s.count, p);
      match r.out
      case Going(q) => s' == s.(count := r.count, tasks := s.tasks[i := Pending(q)])
      case Acquired => s' == s.(count := r.count, tasks := s.tasks[i := Idle], pends := s.pends + 1)
  }

  ghost predicate Step(s: State, s': State) {
    exists i: nat :: i < |s.tasks| && TaskStep(s, i, s')
  }

  ghost predicate IsRun(value: int, run: seq<State>) {
    && run != []
    && run[0] == State(value, run[0].tasks, 0, 0)
    && (forall i :: 0 <= i < |run[0].tasks| ==> run[0].tasks[i] == Idle)
    && forall k :: 0 <= k < |run| - 1 ==> Step(run[k], run[k + 1])
  }

  /** count = initial + posts - completed pends, never below zero, in every interleaving. */
  lemma {:induction false} CountConserved(value: nat, run: seq<State>, k: nat)
    requires IsRun(value, run) && k < |run|
    ensures run[k].count == value + run[k].posts - run[k].pends
    ensures run[k].count >= 0 && run[k].pends <= value + run[k].posts
    decreases k
  {
    if k > 0 {
      CountConserved(value, run, k - 1);
      assert Step(run[k - 1], run[k]);
    }
  }

  // ---- Paired use: a lock ----

  datatype LockPc = Outside | Entering(p: Pend) | Inside

  datatype LockState = LockState(count: int, tasks: seq<LockPc>)

  predicate IsInside(pc: LockPc) {
    pc.Inside?
  }

  ghost predicate LockTaskStep(s: LockState, i: nat, s': LockState)
    requires i < |s.tasks|
  {
    match s.tasks[i]
    case Outside => s' == s.(tasks := s.tasks[i := Entering(Try(0))])
    case Entering(p) =>
      var r := PendStep(s.count, p);
      s' == LockState(r.count, s.tasks[i := if r.out.Acquired? then Inside else Entering(r.out.p)])
    case Inside => s' == LockState(s.count + 1, s.tasks[i := Outside])
  }

  ghost predicate LockStep(s: LockState, s': LockState) {
    exists i: nat :: i < |s.tasks| && LockTaskStep(s, i, s')
  }

  ghost predicate IsLockRun(value: int, run: seq<LockState>) {
    && run != []
    && run[0].count == value && (forall i :: 0 <= i < |run[0].tasks| ==> run[0].tasks[i] == Outside)
    && forall k :: 0 <= k < |run| - 1 ==> LockStep(run[k], run[k + 1])
  }

  lemma {:induction false} UnitsConserved(value: nat, run: seq<LockState>, k: nat)
    requires IsLockRun(value, run) && k < |run|
    ensures run[k].count >= 0 && run[k].count + Count(run[k].tasks, IsInside) == value
    decreases k
  {
    if k == 0 {
      CountNone(run[0].tasks, IsInside);
    } else {
      UnitsConserved(value, run, k - 1);
      assert LockStep(run[k - 1], run[k]);
      StepConserves(run[k - 1], run[k]);
    }
  }

  lemma StepConserves(s: LockState, s': LockState)
    requires LockStep(s, s') && s.count >= 0
    ensures s'.count >= 0 && s'.count + Count(s'.tasks, IsInside) == s.count + Count(s.tasks, IsInside)
  {
    var i: nat :| i < |s.tasks| && LockTaskStep(s, i, s');
    assert s'.tasks == s.tasks[i := s'.tasks[i]];
    CountUpdate(s.tasks, i, s'.tasks[i], IsInside);
  }

  /** With initial value 1 no two tasks are ever between sem_pend and sem_post. */
  lemma MutualExclusion(run: seq<LockState>, k: nat, i: nat, j: nat)
    requires IsLockRun(1, run) && k < |run| && i < j < |run[k].tasks|
    ensures !(run[k].tasks[i].Inside? && run[k].tasks[j].Inside?)
  {
    UnitsConserved(1, run, k);
    if run[k].tasks[i].Inside? && run[k].tasks[j].Inside? {
      CountTwo(run[k].tasks, i, j, IsInside);
    }
  }
}
