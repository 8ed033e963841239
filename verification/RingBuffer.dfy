/**
 The bounded buffer built on three semaphores, as a step relation over any number of
 writers and readers of one-byte items. Each step is one shared access.
 */
module RingBuffer {
  import opened Arith
  import opened Counting
  import opened Semaphore
  import opened Machine

  // ---- The index mask ----

  function And(a: nat, b: nat): nat {
    if a == 0 || b == 0 then 0 else (if a % 2 == 1 && b % 2 == 1 then 1 else 0) + 2 * And(a / 2, b / 2)
  }

  /** For a power of two, `& (cap - 1)` is reduction modulo cap. */
  lemma MaskIsMod(x: nat, cap: nat)
    requires IsPow2(cap)
    ensures And(x, cap - 1) == x % cap
  {
    DivIdentity(x, cap);
    DivNonNegative(x, cap);
    Masked(x, cap, x / cap, x % cap);
  }

  lemma {:induction false} Masked(x: nat, cap: nat, q: nat, r: nat)
    requires IsPow2(cap) && x == q * cap + r && r < cap
    ensures And(x, cap - 1) == r
    decreases cap
  {
    if cap > 1 {
      var h := cap / 2;
      Halves(q, h, r);
      Masked(x / 2, h, q, r / 2);
      AndOdd(x, h - 1);
    }
  }

  lemma Halves(q: nat, h: nat, r: nat)
    ensures var x := q * (2 * h) + r;
      x >= r && x / 2 == q * h + r / 2 && x % 2 == r % 2
  {
    MulNonNegative(q, h);
    assert q * (2 * h) == 2 * (q * h);
  }

  lemma AndOdd(x: nat, m: nat)
    ensures And(x, 2 * m + 1) == if x == 0 then 0 else x % 2 + 2 * And(x / 2, m)
  {
    assert (2 * m + 1) % 2 == 1 && (2 * m + 1) / 2 == m;
  }

  lemma {:induction false} AndSelf(n: nat)
    ensures And(n, n) == n
  {
    if n > 0 {
      AndSelf(n / 2);
      assert n % 2 == 0 || n % 2 == 1;
    }
  }

  lemma {:induction false} ZeroMaskIsPow2(cap: nat)
    requires cap > 0 && And(cap, cap - 1) == 0
    ensures IsPow2(cap)
  {
    if cap > 1 {
      if cap % 2 == 1 {
        assert (cap - 1) / 2 == cap / 2;
        AndSelf(cap / 2);
      } else {
        assert (cap - 1) / 2 == cap / 2 - 1;
        ZeroMaskIsPow2(cap / 2);
      }
    }
  }

  /** The capacities for which the mask wraps indices correctly are exactly the powers of two. */
  lemma MaskWrapsIffPow2(cap: nat)
    requires cap > 0
    ensures (forall x: nat :: And(x, cap - 1) == x % cap) <==> IsPow2(cap)
  {
    if IsPow2(cap) {
      forall x: nat
        ensures And(x, cap - 1) == x % cap
      {
        MaskIsMod(x, cap);
      }
    } else if And(cap, cap - 1) == cap % cap {
      ZeroMaskIsPow2(cap);
    }
  }

  // ---- Tasks ----

  /**
   Program points of _rb_write (w) and _rb_read (!w); x is the byte being moved.
   First:  in sem_pend on n_free (w) or n_used (!w)
   Queue:  in sem_pend on queue
   Slot:   about to load head or tail for the slot number
   Copy:   about to copy the byte to or from that slot
   Load, Store: about to advance head or tail
   Unlock: about to sem_post queue
   Last:   about to sem_post n_used (w) or n_free (!w)
   */
  datatype Pc =
    | Idle
    | First(w: bool, x: nat, p: Pend)
    | Queue(w: bool, x: nat, p: Pend)
    | Slot(w: bool, x: nat)
    | Copy(w: bool, x: nat, slot: nat)
    | Load(w: bool, x: nat)
    | Store(w: bool, x: nat, idx: nat)
    | Unlock(w: bool, x: nat)
    | Last(w: bool, x: nat)

  /**
   sent and got record the bytes in the order head and tail were advanced, sentBy and gotBy the
   tasks that advanced them; asked[i] are the bytes task i has called _rb_write with, returned[i]
   the bytes its calls of _rb_read have handed back.
   */
  datatype State = State(
    cap: nat, buf: seq<nat>, head: nat, tail: nat,
    queue: int, nFree: int, nUsed: int,
    tasks: seq<Pc>, sent: seq<nat>, got: seq<nat>,
    sentBy: seq<nat>, gotBy: seq<nat>, asked: seq<seq<nat>>, returned: seq<seq<nat>>)

  function At(s: State, i: nat, pc: Pc): State
    requires i < |s.tasks|
  {
    s.(tasks := s.tasks[i := pc])
  }

  /** l with x appended to its i-th list. */
  function Noted(l: seq<seq<nat>>, i: nat, x: nat): seq<seq<nat>> {
    if i < |l| then l[i := l[i] + [x]] else l
  }

  /** Task i calls _rb_write with byte x, or _rb_read with a destination that holds x. */
  function Begin(s: State, i: nat, w: bool, x: nat): State
    requires i < |s.tasks|
  {
    At(if w then s.(asked := Noted(s.asked, i, x)) else s, i, First(w, x, Try(0)))
  }

  /** The next shared access of task i inside a call. */
  function Advance(s: State, i: nat): State
    requires i < |s.tasks| && |s.buf| == s.cap > 0
  {
    match s.tasks[i]
    case Idle => s
    case First(w, x, p) =>
      var r := PendStep(if w then s.nFree else s.nUsed, p);
      var t := if w then s.(nFree := r.count) else s.(nUsed := r.count);
      At(t, i, if r.out.Acquired? then Queue(w, x, Try(0)) else First(w, x, r.out.p))
    case Queue(w, x, p) =>
      var r := PendStep(s.queue, p);
      At(s.(queue := r.count), i, if r.out.Acquired? then Slot(w, x) else Queue(w, x, r.out.p))
    case Slot(w, x) =>
      At(s, i, Copy(w, x, And((if w then s.head else s.tail) + 1, s.cap - 1)))
    case Copy(w, x, slot) =>
      if slot >= s.cap then s
      else if w then At(s.(buf := s.buf[slot := x]), i, Load(w, x))
      else At(s, i, Load(w, s.buf[slot]))
    case Load(w, x) =>
      At(s, i, Store(w, x, if w then s.head else s.tail))
    case Store(w, x, idx) =>
      var v := And(idx + 1, s.cap - 1);
      if w then At(s.(head := v, sent := s.sent + [x], sentBy := s.sentBy + [i]), i, Unlock(w, x))
      else At(s.(tail := v, got := s.got + [x], gotBy := s.gotBy + [i]), i, Unlock(w, x))
    case Unlock(w, x) =>
      At(s.(queue := s.queue + 1), i, Last(w, x))
    case Last(w, x) =>
      At(if w then s.(nUsed := s.nUsed + 1)
         else s.(nFree := s.nFree + 1, returned := Noted(s.returned, i, x)), i, Pc.Idle)
  }

  ghost predicate TaskStep(s: State, i: nat, s': State)
    requires i < |s.tasks| && |s.buf| == s.cap > 0
  {
    match s.tasks[i]
    case Idle => exists w, x :: s' == Begin(s, i, w, x)
    case Copy(_, _, slot) => slot < s.cap && s' == Advance(s, i)
    case _ => s' == Advance(s, i)
  }

  ghost predicate Step(s: State, s': State) {
    |s.buf| == s.cap > 0 && exists i: nat :: i < |s.tasks| && TaskStep(s, i, s')
  }

  /** rb_initialize on a zeroed struct. */
  ghost predicate Init(s: State) {
    && IsPow2(s.cap) && |s.buf| == s.cap && s.head == s.tail == 0
    && s.queue == 1 && s.nFree == s.cap && s.nUsed == 0
    && (forall i :: 0 <= i < |s.tasks| ==> s.tasks[i] == Pc.Idle)
    && s.sent == s.got == s.sentBy == s.gotBy == []
    && |s.asked| == |s.returned| == |s.tasks|
    && forall i :: 0 <= i < |s.tasks| ==> s.asked[i] == s.returned[i] == []
  }

  ghost predicate IsRun(run: seq<State>) {
    && run != [] && Init(run[0])
    && forall k :: 0 <= k < |run| - 1 ==> Step(run[k], run[k + 1])
  }

  // ---- Invariant ----

  predicate InLock(pc: Pc) {
    pc.Slot? || pc.Copy? || pc.Load? || pc.Store? || pc.Unlock?
  }

  /** A writer that has a free slot and has not advanced head yet. */
  predicate Filling(pc: Pc) {
    (pc.Queue? || pc.Slot? || pc.Copy? || pc.Load? || pc.Store?) && pc.w
  }

  /** A writer that has advanced head and not announced it on n_used yet. */
  predicate Filled(pc: Pc) {
    (pc.Unlock? || pc.Last?) && pc.w
  }

  predicate Draining(pc: Pc) {
    (pc.Queue? || pc.Slot? || pc.Copy? || pc.Load? || pc.Store?) && !pc.w
  }

  predicate Drained(pc: Pc) {
    (pc.Unlock? || pc.Last?) && !pc.w
  }

  ghost predicate CountsOk(s: State) {
    && s.queue >= 0 && s.nFree >= 0 && s.nUsed >= 0
    && s.queue + Count(s.tasks, InLock) == 1
    && |s.sent| - |s.got| == s.nUsed + Count(s.tasks, Filled) + Count(s.tasks, Draining)
    && s.cap - (|s.sent| - |s.got|) == s.nFree + Count(s.tasks, Filling) + Count(s.tasks, Drained)
  }

  ghost predicate DataOk(s: State) {
    && IsPow2(s.cap) && |s.buf| == s.cap
    && |s.got| <= |s.sent| && s.got == s.sent[..|s.got|]
    && s.head == |s.sent| % s.cap && s.tail == |s.got| % s.cap
    && forall j :: |s.got| <= j < |s.sent| ==> s.buf[(j + 1) % s.cap] == s.sent[j]
  }

  /** What the task holding the queue lock knows at each point. */
  ghost predicate LocalOk(s: State, pc: Pc) {
    var next := if pc.Idle? || !pc.w then |s.got| else |s.sent|;
    match pc
    case Copy(w, x, slot) => s.cap > 0 && slot == (next + 1) % s.cap
    case Load(w, x) => Moved(s, w, x)
    case Store(w, x, idx) => Moved(s, w, x) && s.cap > 0 && idx == next % s.cap
    case _ => true
  }

  ghost predicate Moved(s: State, w: bool, x: nat) {
    if w then s.cap > 0 && |s.buf| == s.cap && s.buf[(|s.sent| + 1) % s.cap] == x
    else |s.got| < |s.sent| && x == s.sent[|s.got|]
  }

  ghost predicate Inv(s: State) {
    CountsOk(s) && DataOk(s) && forall i :: 0 <= i < |s.tasks| ==> LocalOk(s, s.tasks[i])
  }

  // ---- Preservation ----

  ghost function One(b: bool): int {
    if b then 1 else 0
  }

  lemma CountsUpdate(tasks: seq<Pc>, i: nat, pc: Pc)
    requires i < |tasks|
    ensures Count(tasks[i := pc], InLock) == Count(tasks, InLock) - One(InLock(tasks[i])) + One(InLock(pc))
    ensures Count(tasks[i := pc], Filling) == Count(tasks, Filling) - One(Filling(tasks[i])) + One(Filling(pc))
    ensures Count(tasks[i := pc], Filled) == Count(tasks, Filled) - One(Filled(tasks[i])) + One(Filled(pc))
    ensures Count(tasks[i := pc], Draining) == Count(tasks, Draining) - One(Draining(tasks[i])) + One(Draining(pc))
    ensures Count(tasks[i := pc], Drained) == Count(tasks, Drained) - One(Drained(tasks[i])) + One(Drained(pc))
  {
    CountUpdate(tasks, i, pc, InLock);
    CountUpdate(tasks, i, pc, Filling);
    CountUpdate(tasks, i, pc, Filled);
    CountUpdate(tasks, i, pc, Draining);
    CountUpdate(tasks, i, pc, Drained);
  }

  lemma CountsKept(s: State, i: nat, s': State)
    requires CountsOk(s) && i < |s.tasks| && |s.buf| == s.cap > 0 && TaskStep(s, i, s')
    ensures CountsOk(s')
  {
    assert s'.tasks == s.tasks[i := s'.tasks[i]];
    CountsUpdate(s.tasks, i, s'.tasks[i]);
    match s.tasks[i] {
      case First(w, x, p) => PendStepTakesOne(if w then s.nFree else s.nUsed, p);
      case Queue(w, x, p) => PendStepTakesOne(s.queue, p);
      case _ =>
    }
  }

  /** At most one task is at a point where it touches head, tail or the buffer. */
  lemma LockUnique(s: State, i: nat, j: nat)
    requires CountsOk(s) && i < |s.tasks| && j < |s.tasks| && i != j && InLock(s.tasks[i])
    ensures !InLock(s.tasks[j])
  {
    if InLock(s.tasks[j]) {
      if i < j {
        CountTwo(s.tasks, i, j, InLock);
      } else {
        CountTwo(s.tasks, j, i, InLock);
      }
    }
  }

  lemma ModDistinct(a: nat, b: nat, c: nat)
    requires a < b < a + c
    ensures a % c != b % c
  {
    if a % c == b % c {
      var q, q' := a / c, b / c;
      assert a == q * c + a % c && b == q' * c + b % c;
      if q < q' { MulLess(q, q', c); } else if q' < q { MulLess(q', q, c); }
    }
  }

  lemma ModSucc(n: nat, c: nat)
    requires c > 0
    ensures (n % c + 1) % c == (n + 1) % c
  {
    var q, r := n / c, n % c;
    assert n == q * c + r;
    if r + 1 < c {
      DivModUnique(n + 1, c, q, r + 1);
      DivModUnique(r + 1, c, 0, r + 1);
    } else {
      assert (q + 1) * c == q * c + c;
      DivModUnique(n + 1, c, q + 1, 0);
      DivModUnique(r + 1, c, 1, 0);
    }
  }

  /** A writer copying or later has a slot of its own, a reader an unread byte. */
  lemma RoomFor(s: State, i: nat)
    requires CountsOk(s) && i < |s.tasks|
    ensures Filling(s.tasks[i]) ==> |s.sent| - |s.got| < s.cap
    ensures Draining(s.tasks[i]) ==> |s.got| < |s.sent|
  {
    if Filling(s.tasks[i]) { CountSome(s.tasks, i, Filling); }
    if Draining(s.tasks[i]) { CountSome(s.tasks, i, Draining); }
  }

  /** Storing at the slot after the newest byte hits no unread slot. */
  lemma FreshSlot(s: State, j: nat)
    requires |s.got| <= j < |s.sent| && |s.sent| - |s.got| < s.cap
    ensures (j + 1) % s.cap != (|s.sent| + 1) % s.cap
  {
    ModDistinct(j + 1, |s.sent| + 1, s.cap);
  }

  lemma SlotStep(s: State, i: nat, s': State)
    requires DataOk(s) && i < |s.tasks| && s.cap > 0 && s.tasks[i].Slot? && TaskStep(s, i, s')
    ensures DataOk(s') && LocalOk(s', s'.tasks[i])
  {
    var idx := if s.tasks[i].w then |s.sent| else |s.got|;
    MaskIsMod(idx % s.cap + 1, s.cap);
    ModSucc(idx, s.cap);
  }

  lemma CopyStep(s: State, i: nat, s': State)
    requires DataOk(s) && i < |s.tasks| && s.cap > 0 && s.tasks[i].Copy? && TaskStep(s, i, s')
    requires LocalOk(s, s.tasks[i])
    requires if s.tasks[i].w then |s.sent| - |s.got| < s.cap else |s.got| < |s.sent|
    ensures DataOk(s') && LocalOk(s', s'.tasks[i])
  {
    if s.tasks[i].w {
      forall j | |s.got| <= j < |s.sent|
        ensures s'.buf[(j + 1) % s.cap] == s.sent[j]
      {
        FreshSlot(s, j);
      }
    }
  }

  lemma StoreStep(s: State, i: nat, s': State)
    requires DataOk(s) && i < |s.tasks| && s.cap > 0 && s.tasks[i].Store? && TaskStep(s, i, s')
    requires LocalOk(s, s.tasks[i])
    ensures DataOk(s') && LocalOk(s', s'.tasks[i])
  {
    var idx := if s.tasks[i].w then |s.sent| else |s.got|;
    MaskIsMod(idx % s.cap + 1, s.cap);
    ModSucc(idx, s.cap);
  }

  lemma DataKept(s: State, i: nat, s': State)
    requires Inv(s) && i < |s.tasks| && s.cap > 0 && TaskStep(s, i, s')
    ensures DataOk(s') && LocalOk(s', s'.tasks[i])
  {
    assert LocalOk(s, s.tasks[i]);
    RoomFor(s, i);
    match s.tasks[i] {
      case Slot(w, x) => SlotStep(s, i, s');
      case Copy(w, x, slot) => CopyStep(s, i, s');
      case Store(w, x, idx) => StoreStep(s, i, s');
      case Load(w, x) =>
      case _ =>
    }
  }

  lemma OthersKept(s: State, i: nat, s': State, j: nat)
    requires Inv(s) && i < |s.tasks| && |s.buf| == s.cap > 0 && TaskStep(s, i, s') && j < |s.tasks| && j != i
    ensures LocalOk(s', s'.tasks[j])
  {
    assert LocalOk(s, s.tasks[j]) && s'.tasks[j] == s.tasks[j];
    if InLock(s.tasks[i]) {
      LockUnique(s, i, j);
    }
  }

  lemma TaskStepKeepsInv(s: State, i: nat, s': State)
    requires Inv(s) && i < |s.tasks| && |s.buf| == s.cap > 0 && TaskStep(s, i, s')
    ensures Inv(s')
  {
    CountsKept(s, i, s');
    DataKept(s, i, s');
    assert |s'.tasks| == |s.tasks|;
    forall j | 0 <= j < |s'.tasks|
      ensures LocalOk(s', s'.tasks[j])
    {
      if j != i { OthersKept(s, i, s', j); }
    }
  }

  lemma StepKeepsInv(s: State, s': State)
    requires Inv(s) && Step(s, s')
    ensures Inv(s')
  {
    var i: nat :| i < |s.tasks| && TaskStep(s, i, s');
    TaskStepKeepsInv(s, i, s');
  }

  lemma InitInv(s: State)
    requires Init(s)
    ensures Inv(s)
  {
    CountNone(s.tasks, InLock);
    CountNone(s.tasks, Filling);
    CountNone(s.tasks, Filled);
    CountNone(s.tasks, Draining);
    CountNone(s.tasks, Drained);
  }

  lemma {:induction false} RunInv(run: seq<State>, k: nat)
    requires IsRun(run) && k < |run|
    ensures Inv(run[k])
    decreases k
  {
    if k == 0 {
      InitInv(run[0]);
    } else {
      RunInv(run, k - 1);
      StepKeepsInv(run[k - 1], run[k]);
    }
  }

  // ---- Every interleaving ----

  /** The bytes taken out are a prefix of the bytes put in, in order. */
  lemma FifoOrder(run: seq<State>, k: nat)
    requires IsRun(run) && k < |run|
    ensures run[k].got <= run[k].sent
  {
    RunInv(run, k);
  }

  /** n_free + n_used + writers in flight + readers in flight = capacity, at every step. */
  lemma SlotsConserved(run: seq<State>, k: nat)
    requires IsRun(run) && k < |run|
    ensures var s := run[k];
      && s.nFree >= 0 && s.nUsed >= 0
      && s.nFree + s.nUsed + Count(s.tasks, Filling) + Count(s.tasks, Filled)
           + Count(s.tasks, Draining) + Count(s.tasks, Drained) == run[0].cap
  {
    RunInv(run, k);
    CapFixed(run, k);
  }

  lemma {:induction false} CapFixed(run: seq<State>, k: nat)
    requires IsRun(run) && k < |run|
    ensures run[k].cap == run[0].cap
    decreases k
  {
    if k > 0 {
      CapFixed(run, k - 1);
      assert Step(run[k - 1], run[k]);
    }
  }

  /** Where the j-th byte ever sent is kept. */
  ghost function SlotOf(cap: nat, j: int): int
    requires cap > 0
  {
    (j + 1) % cap
  }

  /**
   Every copy is in bounds; a writer's copy overwrites no unread byte, and a reader's copy
   takes the oldest unread one.
   */
  lemma CopySafe(run: seq<State>, k: nat, i: nat)
    requires IsRun(run) && k < |run| && i < |run[k].tasks| && run[k].tasks[i].Copy?
    ensures var s, pc := run[k], run[k].tasks[i];
      && pc.slot < s.cap == |s.buf|
      && (pc.w ==> forall j :: |s.got| <= j < |s.sent| ==> pc.slot != SlotOf(s.cap, j))
      && (!pc.w ==> |s.got| < |s.sent| && s.buf[pc.slot] == s.sent[|s.got|])
  {
    RunInv(run, k);
    var s, pc := run[k], run[k].tasks[i];
    assert LocalOk(s, pc);
    RoomFor(s, i);
    if pc.w {
      forall j | |s.got| <= j < |s.sent|
        ensures pc.slot != SlotOf(s.cap, j)
      {
        FreshSlot(s, j);
      }
    }
  }

  /** No two tasks are between sem_pend and sem_post of the queue semaphore. */
  lemma QueueExclusive(run: seq<State>, k: nat, i: nat, j: nat)
    requires IsRun(run) && k < |run| && i < j < |run[k].tasks|
    ensures !(InLock(run[k].tasks[i]) && InLock(run[k].tasks[j]))
  {
    RunInv(run, k);
    if InLock(run[k].tasks[i]) {
      LockUnique(run[k], i, j);
    }
  }

  // ---- What the calls of each task come to ----

  /** The bytes in xs that are task i's, in order. */
  ghost function By(xs: seq<nat>, who: seq<nat>, i: nat): seq<nat>
    requires |xs| == |who|
  {
    if xs == [] then []
    else By(xs[..|xs| - 1], who[..|who| - 1], i) + if who[|who| - 1] == i then [xs[|xs| - 1]] else []
  }

  lemma ByAppend(xs: seq<nat>, who: seq<nat>, x: nat, j: nat, i: nat)
    requires |xs| == |who|
    ensures By(xs + [x], who + [j], i) == By(xs, who, i) + if j == i then [x] else []
  {
    assert (xs + [x])[..|xs|] == xs && (who + [j])[..|who|] == who;
  }

  /** The byte of a write that has not been sent yet. */
  ghost function Unsent(pc: Pc): seq<nat> {
    if (pc.First? || Filling(pc)) && pc.w then [pc.x] else []
  }

  /** The byte of a read that has been taken and not handed back yet. */
  ghost function Owed(pc: Pc): seq<nat> {
    if Drained(pc) then [pc.x] else []
  }

  ghost predicate CallsAt(s: State, i: nat)
    requires i < |s.tasks| && CallsSized(s)
  {
    && s.asked[i] == By(s.sent, s.sentBy, i) + Unsent(s.tasks[i])
    && By(s.got, s.gotBy, i) == s.returned[i] + Owed(s.tasks[i])
  }

  ghost predicate CallsSized(s: State) {
    |s.asked| == |s.returned| == |s.tasks| && |s.sentBy| == |s.sent| && |s.gotBy| == |s.got|
  }

  ghost predicate CallsOk(s: State) {
    && CallsSized(s)
    && forall i :: 0 <= i < |s.tasks| ==> CallsAt(s, i)
  }

  /** A step that neither starts, ends nor commits a call. */
  lemma CallsSame(s: State, i: nat, s': State)
    requires CallsOk(s) && i < |s.tasks| == |s'.tasks| && s'.tasks == s.tasks[i := s'.tasks[i]]
    requires s'.asked == s.asked && s'.returned == s.returned
    requires s'.sent == s.sent && s'.sentBy == s.sentBy && s'.got == s.got && s'.gotBy == s.gotBy
    requires Unsent(s'.tasks[i]) == Unsent(s.tasks[i]) && Owed(s'.tasks[i]) == Owed(s.tasks[i])
    ensures CallsOk(s')
  {
    forall j | 0 <= j < |s'.tasks|
      ensures CallsAt(s', j)
    {
      assert CallsAt(s, j);
    }
  }

  /** A byte passes from the second part of an account to the end of the first. */
  lemma Passes(total: seq<nat>, done: seq<nat>, x: nat, done': seq<nat>)
    requires total == done + [x] && done' == done + [x]
    ensures total == done' + []
  {
  }

  /** A task's writes and reads are accounted for as before if nothing of them changed. */
  lemma CallsAtSame(s: State, s': State, j: nat)
    requires CallsOk(s) && CallsSized(s') && j < |s.tasks| == |s'.tasks|
    requires s'.asked[j] == s.asked[j] && s'.returned[j] == s.returned[j]
    requires Unsent(s'.tasks[j]) == Unsent(s.tasks[j]) && Owed(s'.tasks[j]) == Owed(s.tasks[j])
    requires By(s'.sent, s'.sentBy, j) == By(s.sent, s.sentBy, j) && By(s'.got, s'.gotBy, j) == By(s.got, s.gotBy, j)
    ensures CallsAt(s', j)
  {
    assert CallsAt(s, j);
  }

  lemma CallsSent(s: State, i: nat, s': State, x: nat, h: nat)
    requires CallsOk(s) && i < |s.tasks| && s.tasks[i] == Store(true, x, h)
    requires s' == At(s, i, Unlock(true, x)).(head := s'.head, sent := s.sent + [x], sentBy := s.sentBy + [i])
    ensures CallsOk(s')
  {
    forall j | 0 <= j < |s'.tasks|
      ensures CallsAt(s', j)
    {
      ByAppend(s.sent, s.sentBy, x, i, j);
      if j == i {
        assert CallsAt(s, i);
        Passes(s.asked[i], By(s.sent, s.sentBy, i), x, By(s'.sent, s'.sentBy, i));
      } else {
        CallsAtSame(s, s', j);
      }
    }
  }

  lemma CallsGot(s: State, i: nat, s': State, x: nat, h: nat)
    requires CallsOk(s) && i < |s.tasks| && s.tasks[i] == Store(false, x, h)
    requires s' == At(s, i, Unlock(false, x)).(tail := s'.tail, got := s.got + [x], gotBy := s.gotBy + [i])
    ensures CallsOk(s')
  {
    forall j | 0 <= j < |s'.tasks|
      ensures CallsAt(s', j)
    {
      ByAppend(s.got, s.gotBy, x, i, j);
      if j == i {
        assert CallsAt(s, i);
      } else {
        CallsAtSame(s, s', j);
      }
    }
  }

  lemma CallsBegin(s: State, i: nat, w: bool, x: nat)
    requires CallsOk(s) && i < |s.tasks| && s.tasks[i].Idle?
    ensures CallsOk(Begin(s, i, w, x))
  {
    forall j | 0 <= j < |s.tasks|
      ensures CallsAt(Begin(s, i, w, x), j)
    {
      assert CallsAt(s, j);
    }
  }

  lemma CallsEnd(s: State, i: nat, s': State, x: nat, w: bool)
    requires CallsOk(s) && i < |s.tasks| && s.tasks[i] == Last(w, x) && s'.tasks == s.tasks[i := Pc.Idle]
    requires s'.asked == s.asked && s'.returned == if w then s.returned else Noted(s.returned, i, x)
    requires s'.sent == s.sent && s'.sentBy == s.sentBy && s'.got == s.got && s'.gotBy == s.gotBy
    ensures CallsOk(s')
  {
    forall j | 0 <= j < |s'.tasks|
      ensures CallsAt(s', j)
    {
      assert CallsAt(s, j);
    }
  }

  lemma CallsKept(s: State, i: nat, s': State)
    requires CallsOk(s) && i < |s.tasks| && |s.buf| == s.cap > 0 && TaskStep(s, i, s')
    ensures CallsOk(s')
  {
    if s.tasks[i].Idle? {
      var w, x :| s' == Begin(s, i, w, x);
      CallsBegin(s, i, w, x);
    } else if s.tasks[i].Last? {
      CallsEnd(s, i, s', s.tasks[i].x, s.tasks[i].w);
    } else if s.tasks[i].Store? {
      var Store(w, x, idx) := s.tasks[i];
      if w {
        CallsSent(s, i, s', x, idx);
      } else {
        CallsGot(s, i, s', x, idx);
      }
    } else {
      CallsSame(s, i, s');
    }
  }

  /**
   In every interleaving, task by task: the bytes sent are exactly the bytes its writes were called
   with, each once and in order, but for the write still on its way; and the bytes taken are exactly
   the bytes its reads have handed back, but for the read about to return.
   */
  lemma {:induction false} CallsAccounted(run: seq<State>, k: nat)
    requires IsRun(run) && k < |run|
    ensures CallsOk(run[k])
    decreases k
  {
    if k > 0 {
      CallsAccounted(run, k - 1);
      var s, s' := run[k - 1], run[k];
      assert Step(s, s');
      var i: nat :| i < |s.tasks| && TaskStep(s, i, s');
      CallsKept(s, i, s');
    }
  }

  // ---- A call that runs alone ----

  /** A stretch of a run, from s to s'. */
  ghost predicate Leads(run: seq<State>, s: State, s': State) {
    && run != [] && run[0] == s && run[|run| - 1] == s'
    && forall k :: 0 <= k < |run| - 1 ==> Step(run[k], run[k + 1])
  }

  lemma Go(run: seq<State>, s: State, s1: State, i: nat, s2: State) returns (run': seq<State>)
    requires Leads(run, s, s1) && i < |s1.tasks| && |s1.buf| == s1.cap > 0 && TaskStep(s1, i, s2)
    ensures Leads(run', s, s2)
  {
    run' := run + [s2];
    forall k | 0 <= k < |run'| - 1
      ensures Step(run'[k], run'[k + 1])
    {
      if k < |run| - 1 { assert Step(run[k], run[k + 1]); }
    }
  }

  ghost function Pended(s: State, w: bool): State {
    if w then s.(nFree := s.nFree - 1, queue := 0) else s.(nUsed := s.nUsed - 1, queue := 0)
  }

  /** Both sem_pends, when there is a unit to take. */
  lemma PendBoth(run: seq<State>, first: State, s: State, i: nat, w: bool, x: nat) returns (run': seq<State>)
    requires i < |s.tasks| && |s.buf| == s.cap > 0 && Leads(run, first, At(s, i, First(w, x, Try(0))))
    requires s.queue == 1 && (if w then s.nFree else s.nUsed) > 0
    ensures Leads(run', first, At(Pended(s, w), i, Slot(w, x)))
  {
    var n := if w then s.nFree else s.nUsed;
    var c0, c1 := At(s, i, First(w, x, Try(0))), At(s, i, First(w, x, Loaded(0, n)));
    assert Advance(c0, i) == c1;
    run' := Go(run, first, c0, i, c1);
    var t := if w then s.(nFree := n - 1) else s.(nUsed := n - 1);
    var c2, c3 := At(t, i, Queue(w, x, Try(0))), At(t, i, Queue(w, x, Loaded(0, 1)));
    assert Advance(c1, i) == c2;
    run' := Go(run', first, c1, i, c2);
    assert Advance(c2, i) == c3;
    run' := Go(run', first, c2, i, c3);
    assert Advance(c3, i) == At(Pended(s, w), i, Slot(w, x));
    run' := Go(run', first, c3, i, At(Pended(s, w), i, Slot(w, x)));
  }

  /** The copy and the advance of head or tail, in one go. */
  ghost function Transferred(s: State, i: nat, w: bool, x: nat): State
    requires |s.buf| == s.cap > 0
  {
    var v := And((if w then s.head else s.tail) + 1, s.cap - 1);
    if v >= s.cap then s
    else if w then s.(buf := s.buf[v := x], head := v, sent := s.sent + [x], sentBy := s.sentBy + [i])
    else s.(tail := v, got := s.got + [s.buf[v]], gotBy := s.gotBy + [i])
  }

  lemma CopyOne(run: seq<State>, first: State, s: State, i: nat, w: bool, x: nat, v: nat) returns (run': seq<State>)
    requires i < |s.tasks| && |s.buf| == s.cap > 0 && Leads(run, first, At(s, i, Slot(w, x)))
    requires v == And((if w then s.head else s.tail) + 1, s.cap - 1) < s.cap
    ensures Leads(run', first, if w then At(s.(buf := s.buf[v := x]), i, Load(w, x)) else At(s, i, Load(w, s.buf[v])))
  {
    var c0, c1 := At(s, i, Slot(w, x)), At(s, i, Copy(w, x, v));
    assert Advance(c0, i) == c1;
    run' := Go(run, first, c0, i, c1);
    var c2 := if w then At(s.(buf := s.buf[v := x]), i, Load(w, x)) else At(s, i, Load(w, s.buf[v]));
    assert Advance(c1, i) == c2;
    run' := Go(run', first, c1, i, c2);
  }

  lemma Transfer(run: seq<State>, first: State, s: State, i: nat, w: bool, x: nat) returns (run': seq<State>, y: nat)
    requires i < |s.tasks| && |s.buf| == s.cap > 0 && Leads(run, first, At(s, i, Slot(w, x)))
    requires And((if w then s.head else s.tail) + 1, s.cap - 1) < s.cap
    ensures y == if w then x else s.buf[And(s.tail + 1, s.cap - 1)]
    ensures Leads(run', first, At(Transferred(s, i, w, x), i, Unlock(w, y)))
  {
    var h := if w then s.head else s.tail;
    var v := And(h + 1, s.cap - 1);
    y := if w then x else s.buf[v];
    run' := CopyOne(run, first, s, i, w, x, v);
    var t := if w then s.(buf := s.buf[v := x]) else s;
    run' := MoveIndex(run', first, t, i, w, y, h);
    StoreMoves(s, i, w, x, t, v);
  }

  /** The load of head or tail, and the store of the next one. */
  lemma MoveIndex(run: seq<State>, first: State, t: State, i: nat, w: bool, y: nat, h: nat) returns (run': seq<State>)
    requires i < |t.tasks| && |t.buf| == t.cap > 0 && Leads(run, first, At(t, i, Load(w, y)))
    requires h == (if w then t.head else t.tail)
    ensures Leads(run', first, Advance(At(t, i, Store(w, y, h)), i))
  {
    var c0, c1 := At(t, i, Load(w, y)), At(t, i, Store(w, y, h));
    assert Advance(c0, i) == c1;
    run' := Go(run, first, c0, i, c1);
    run' := Go(run', first, c1, i, Advance(c1, i));
  }

  lemma StoreMoves(s: State, i: nat, w: bool, x: nat, t: State, v: nat)
    requires i < |s.tasks| && |s.buf| == s.cap > 0
    requires v == And((if w then s.head else s.tail) + 1, s.cap - 1) < s.cap
    requires t == if w then s.(buf := s.buf[v := x]) else s
    ensures var y := if w then x else s.buf[v];
      Advance(At(t, i, Store(w, y, if w then s.head else s.tail)), i) == At(Transferred(s, i, w, x), i, Unlock(w, y))
  {
    if w {
    } else {
    }
  }

  ghost function Posted(s: State, i: nat, w: bool, y: nat): State {
    if w then s.(queue := s.queue + 1, nUsed := s.nUsed + 1)
    else s.(queue := s.queue + 1, nFree := s.nFree + 1, returned := Noted(s.returned, i, y))
  }

  lemma PostBoth(run: seq<State>, first: State, s: State, i: nat, w: bool, y: nat) returns (run': seq<State>)
    requires i < |s.tasks| && |s.buf| == s.cap > 0 && Leads(run, first, At(s, i, Unlock(w, y)))
    ensures Leads(run', first, At(Posted(s, i, w, y), i, Pc.Idle))
  {
    var c0, c1 := At(s, i, Unlock(w, y)), At(s.(queue := s.queue + 1), i, Last(w, y));
    assert Advance(c0, i) == c1;
    run' := Go(run, first, c0, i, c1);
    assert Advance(c1, i) == At(Posted(s, i, w, y), i, Pc.Idle);
    run' := Go(run', first, c1, i, At(Posted(s, i, w, y), i, Pc.Idle));
  }

  /** What is true of a state still is along a stretch of a run. */
  lemma {:induction false} LeadsKeeps(run: seq<State>, s: State, s': State)
    requires Leads(run, s, s') && Inv(s) && CallsOk(s)
    ensures Inv(s') && CallsOk(s')
    decreases |run|
  {
    if |run| > 1 {
      var n := |run| - 2;
      assert Step(run[n], run[n + 1]);
      LeadsKeeps(run[..n + 1], s, run[n]);
      var i: nat :| i < |run[n].tasks| && TaskStep(run[n], i, run[n + 1]);
      StepKeepsInv(run[n], run[n + 1]);
      CallsKept(run[n], i, run[n + 1]);
    }
  }

  /** Nobody is inside a call, and task i can start one. */
  ghost predicate Quiet(s: State, i: nat) {
    Inv(s) && CallsOk(s) && i < |s.tasks| && s.tasks[i] == Pc.Idle && s.queue == 1 && s.cap > 0
  }

  /** Both semaphores, the copy, and both semaphores again, in one go. */
  lemma CallAlone(s: State, i: nat, w: bool, x: nat) returns (run: seq<State>, y: nat)
    requires i < |s.tasks| && |s.buf| == s.cap > 0 && s.queue == 1 && (if w then s.nFree else s.nUsed) > 0
    requires s.tasks[i].Idle? && And((if w then s.head else s.tail) + 1, s.cap - 1) < s.cap
    ensures y == if w then x else s.buf[And(s.tail + 1, s.cap - 1)]
    ensures var s0 := if w then s.(asked := Noted(s.asked, i, x)) else s;
      Leads(run, s, At(Posted(Transferred(Pended(s0, w), i, w, x), i, w, y), i, Pc.Idle))
  {
    var s0 := if w then s.(asked := Noted(s.asked, i, x)) else s;
    run := Go([s], s, s, i, Begin(s, i, w, x));
    run := PendBoth(run, s, s0, i, w, x);
    run, y := Transfer(run, s, Pended(s0, w), i, w, x);
    run := PostBoth(run, s, Transferred(Pended(s0, w), i, w, x), i, w, y);
  }

  /** A write by a task that runs alone, with a slot free, completes and appends its byte. */
  lemma WriteAlone(s: State, i: nat, x: nat) returns (run: seq<State>, s': State)
    requires Quiet(s, i) && s.nFree > 0
    ensures Leads(run, s, s') && Quiet(s', i) && s'.tasks == s.tasks && s'.cap == s.cap
    ensures s'.sent == s.sent + [x] && s'.got == s.got && s'.returned == s.returned
    ensures s'.nUsed == s.nUsed + 1 && s'.nFree == s.nFree - 1
  {
    MaskIsMod(s.head + 1, s.cap);
    var y;
    run, y := CallAlone(s, i, true, x);
    s' := run[|run| - 1];
    LeadsKeeps(run, s, s');
  }

  /** A read by a task that runs alone, with a byte there, completes and hands back the oldest one. */
  lemma ReadAlone(s: State, i: nat) returns (run: seq<State>, s': State)
    requires Quiet(s, i) && s.nUsed > 0
    ensures Leads(run, s, s') && Quiet(s', i) && s'.tasks == s.tasks && s'.cap == s.cap
    ensures s'.sent == s.sent && |s.got| < |s.sent| && s'.got == s.got + [s.sent[|s.got|]]
    ensures s'.returned == s.returned[i := s.returned[i] + [s.sent[|s.got|]]]
    ensures s'.nUsed == s.nUsed - 1 && s'.nFree == s.nFree + 1
  {
    MaskIsMod(s.tail + 1, s.cap);
    var y;
    run, y := CallAlone(s, i, false, 0);
    s' := run[|run| - 1];
    LeadsKeeps(run, s, s');
    assert s'.got[|s.got|] == s'.sent[|s.got|];
  }

  /** The sequential law: a byte written to an empty buffer is what the next read hands back. */
  lemma WriteThenRead(s: State, i: nat, j: nat, x: nat) returns (write: seq<State>, middle: State, read: seq<State>, s': State)
    requires Quiet(s, i) && Quiet(s, j) && s.sent == s.got && s.nFree > 0
    ensures Leads(write, s, middle) && Leads(read, middle, s')
    ensures s'.returned == s.returned[j := s.returned[j] + [x]] && s'.sent == s'.got == s.sent + [x]
  {
    write, middle := WriteAlone(s, i, x);
    assert CountsOk(s) by { assert Inv(s); }
    read, s' := ReadAlone(middle, j);
  }

  /** In particular right after rb_initialize, whatever the capacity. */
  lemma FirstWriteThenRead(s: State, i: nat, j: nat, x: nat) returns (write: seq<State>, middle: State, read: seq<State>, s': State)
    requires Init(s) && i < |s.tasks| && j < |s.tasks|
    ensures IsRun(write) && write[0] == s && Leads(read, middle, s') && write[|write| - 1] == middle
    ensures s'.returned == s.returned[j := [x]] && s'.sent == s'.got == [x]
  {
    InitInv(s);
    InitCalls(s);
    assert s.returned[j] + [x] == [x] && s.sent + [x] == [x];
    write, middle, read, s' := WriteThenRead(s, i, j, x);
  }

  lemma InitCalls(s: State)
    requires Init(s)
    ensures CallsOk(s)
  {
  }
}
