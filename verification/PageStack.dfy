/**
 The lock-free page frame stack as a step relation: one step is one shared load, one
 shared store or one compare-and-exchange, interleaved over any number of tasks. The
 frames' own first words are the links, so a holder of a frame may scribble over them.
 */
module PageStack {
  import opened Common
  import opened Atomic

  /**
   Check, Load, Next, Pop: the accesses of pf_alloc, `old_` and `new_` being its locals
   Read, Link, Reread, Push: the accesses of pf_free of frame f
   Fault: dereferenced NULL
   */
  datatype Pc =
    | Idle
    | Check | Load | Next(old_: nat) | Pop(old_: nat, new_: nat)
    | Read(f: nat) | Link(f: nat, top: nat) | Reread(f: nat) | Push(f: nat, old_: nat)
    | Fault

  /** held: the frames each task has been given and not passed on or begun to free. */
  datatype State = State(head: nat, next: map<nat, nat>, tasks: seq<Pc>, held: seq<set<nat>>)

  function Word(next: map<nat, nat>, f: nat): nat {
    if f in next then next[f] else 0
  }

  function At(s: State, i: nat, pc: Pc): State
    requires i < |s.tasks|
  {
    s.(tasks := s.tasks[i := pc])
  }

  /** What a task between calls may do: allocate, free, hand a frame over, write to a frame. */
  ghost predicate Client(s: State, i: nat, s': State)
    requires i < |s.tasks| == |s.held|
  {
    || s' == At(s, i, Check)
    || (exists f :: f in s.held[i] && s' == Freeing(s, i, f))
    || (exists f, v :: f in s.held[i] && s' == Scribbled(s, f, v))
    || (exists f, j :: f in s.held[i] && 0 <= j < |s.held| && j != i && s' == Handed(s, i, j, f))
  }

  ghost function Freeing(s: State, i: nat, f: nat): State
    requires i < |s.tasks| == |s.held|
  {
    At(s, i, Read(f)).(held := s.held[i := s.held[i] - {f}])
  }

  ghost function Scribbled(s: State, f: nat, v: nat): State {
    s.(next := s.next[f := v])
  }

  ghost function Handed(s: State, i: nat, j: nat, f: nat): State
    requires i < |s.held| && j < |s.held| && i != j
  {
    s.(held := s.held[i := s.held[i] - {f}][j := s.held[j] + {f}])
  }

  ghost predicate TaskStep(s: State, i: nat, s': State)
    requires i < |s.tasks| == |s.held|
  {
    match s.tasks[i]
    case Idle => Client(s, i, s')
    case Check => s' == At(s, i, if s.head == 0 then Idle else Load)
    case Load => s' == At(s, i, Next(s.head))
    case Next(old_) => s' == At(s, i, if old_ == 0 then Fault else Pop(old_, Word(s.next, old_)))
    case Pop(old_, new_) =>
      var x := Cmpxchg(s.head, old_, new_);
      if x.ret == old_
      then s' == At(s, i, Idle).(head := new_, held := s.held[i := s.held[i] + {old_}])
      else s' == At(s, i, Load)
    case Read(f) => s' == At(s, i, Link(f, s.head))
    case Link(f, top) => s' == At(s.(next := s.next[f := top]), i, Reread(f))
    case Reread(f) => s' == At(s, i, Push(f, Word(s.next, f)))
    case Push(f, old_) =>
      var x := Cmpxchg(s.head, old_, f);
      if x.ret == old_ then s' == At(s, i, Idle).(head := f) else s' == At(s, i, Read(f))
    case Fault => s' == s
  }

  // ---- What can go wrong, as conditions on a step about to be taken ----

  /** Task i's exchange is about to succeed with a link of the head that is no longer its link. */
  ghost predicate PopsStale(s: State, i: nat)
    requires i < |s.tasks|
  {
    s.tasks[i].Pop? && s.head == s.tasks[i].old_ && s.tasks[i].new_ != Word(s.next, s.head)
  }

  /** Task i is about to dereference NULL. */
  ghost predicate Faults(s: State, i: nat)
    requires i < |s.tasks|
  {
    s.tasks[i] == Next(0)
  }

  ghost predicate BadStep(s: State, i: nat)
    requires i < |s.tasks|
  {
    PopsStale(s, i) || Faults(s, i)
  }

  // ---- The ideal stack ----

  ghost predicate Linked(head: nat, next: map<nat, nat>, stack: seq<nat>)
    decreases stack
  {
    if stack == [] then head == 0
    else head == stack[0] && head != 0 && Linked(Word(next, head), next, stack[1..])
  }

  /** The frames that task i has, in use or on their way back. */
  ghost function Owned(s: State, i: nat): set<nat>
    requires i < |s.tasks| == |s.held|
  {
    s.held[i] + InFlight(s.tasks[i])
  }

  ghost function InFlight(pc: Pc): set<nat> {
    match pc
    case Read(f) => {f} case Link(f, _) => {f} case Reread(f) => {f} case Push(f, _) => {f}
    case _ => {}
  }

  ghost predicate PcOk(s: State, pc: Pc) {
    match pc
    case Pop(old_, _) => old_ != 0
    case Push(f, old_) => Word(s.next, f) == old_
    case Fault => false
    case _ => true
  }

  ghost predicate OwnersOk(s: State, stack: seq<nat>, frames: set<nat>) {
    && 0 !in frames && |s.tasks| == |s.held|
    && (forall f :: f in stack ==> f in frames)
    && (forall i :: 0 <= i < |s.tasks| ==> Owned(s, i) <= frames && s.held[i] !! InFlight(s.tasks[i]))
    && (forall i, f :: 0 <= i < |s.tasks| && f in Owned(s, i) ==> f !in stack)
    && (forall i, j :: 0 <= i < j < |s.tasks| ==> Owned(s, i) !! Owned(s, j))
    && (forall f :: f in frames && f !in stack ==> exists i :: 0 <= i < |s.tasks| && f in Owned(s, i))
  }

  ghost predicate Inv(s: State, stack: seq<nat>, frames: set<nat>) {
    && Linked(s.head, s.next, stack) && Distinct(stack)
    && OwnersOk(s, stack, frames)
    && forall i :: 0 <= i < |s.tasks| ==> PcOk(s, s.tasks[i])
  }

  /** What the step means for the ideal stack: an atomic pop, an atomic push, or nothing. */
  ghost function After(s: State, i: nat, stack: seq<nat>): seq<nat>
    requires i < |s.tasks|
  {
    match s.tasks[i]
    case Pop(old_, _) => if s.head == old_ && stack != [] then stack[1..] else stack
    case Push(f, old_) => if s.head == old_ then [f] + stack else stack
    case _ => stack
  }

  // ---- Links ----

  lemma {:induction false} LinkedFrame(head: nat, next: map<nat, nat>, next': map<nat, nat>, stack: seq<nat>)
    requires Linked(head, next, stack) && forall f :: f in stack ==> Word(next', f) == Word(next, f)
    ensures Linked(head, next', stack)
    decreases stack
  {
    if stack != [] {
      assert stack[0] in stack;
      LinkedFrame(Word(next, head), next, next', stack[1..]);
    }
  }

  /** The head of a linked stack is determined by the stack. */
  lemma LinkedHead(head: nat, next: map<nat, nat>, stack: seq<nat>)
    requires Linked(head, next, stack)
    ensures head == (if stack == [] then 0 else stack[0])
  {
  }

  // ---- Preservation, by kind of step ----

  /** A successful exchange of pf_alloc pops the ideal stack exactly when it installs the head's own link. */
  lemma PopKeepsInvIff(s: State, i: nat, s': State, stack: seq<nat>, frames: set<nat>)
    requires Inv(s, stack, frames) && i < |s.tasks| && TaskStep(s, i, s')
    requires s.tasks[i].Pop? && s.head == s.tasks[i].old_
    ensures stack != [] && stack[0] == s.tasks[i].old_
    ensures Inv(s', stack[1..], frames) <==> !PopsStale(s, i)
  {
    var old_ := s.tasks[i].old_;
    assert PcOk(s, s.tasks[i]);
    LinkedHead(s.head, s.next, stack);
    LinkedHead(Word(s.next, s.head), s.next, stack[1..]);
    if PopsStale(s, i) {
      if Linked(s'.head, s'.next, stack[1..]) {
        LinkedHead(s'.head, s'.next, stack[1..]);
      }
    } else {
      assert stack == [old_] + stack[1..] && old_ !in stack[1..];
      PopOwners(s, i, s', stack, frames);
      OthersOk(s, i, s');
    }
  }

  /** Tasks that did not move, their frames' words unchanged, stay where they may be. */
  lemma OthersOk(s: State, i: nat, s': State)
    requires i < |s.tasks| && s'.next == s.next && s'.tasks == s.tasks[i := Idle]
    requires forall j :: 0 <= j < |s.tasks| ==> PcOk(s, s.tasks[j])
    ensures forall j :: 0 <= j < |s'.tasks| ==> PcOk(s', s'.tasks[j])
  {
    forall j | 0 <= j < |s'.tasks|
      ensures PcOk(s', s'.tasks[j])
    {
      if j != i { assert PcOk(s, s.tasks[j]); }
    }
  }

  lemma PopOwners(s: State, i: nat, s': State, stack: seq<nat>, frames: set<nat>)
    requires OwnersOk(s, stack, frames) && i < |s.tasks| && stack != [] && stack[0] !in stack[1..]
    requires s.tasks[i].Pop? && s'.tasks == s.tasks[i := Idle] && s'.held == s.held[i := s.held[i] + {stack[0]}]
    ensures OwnersOk(s', stack[1..], frames)
  {
    var f0 := stack[0];
    assert stack == [f0] + stack[1..] && f0 in stack;
    forall j | 0 <= j < |s.tasks|
      ensures Owned(s', j) == if j == i then Owned(s, i) + {f0} else Owned(s, j)
      ensures f0 !in Owned(s, j)
    {
    }
    forall j, k | 0 <= j < k < |s'.tasks|
      ensures Owned(s', j) !! Owned(s', k)
    {
      assert Owned(s, j) !! Owned(s, k);
    }
    forall f | f in frames && f !in stack[1..]
      ensures exists j :: 0 <= j < |s'.tasks| && f in Owned(s', j)
    {
      if f == f0 {
        assert f in Owned(s', i);
      } else {
        var j :| 0 <= j < |s.tasks| && f in Owned(s, j);
        assert f in Owned(s', j);
      }
    }
  }

  lemma PushOwners(s: State, i: nat, s': State, stack: seq<nat>, frames: set<nat>)
    requires OwnersOk(s, stack, frames) && i < |s.tasks| && s.tasks[i].Push?
    requires s'.tasks == s.tasks[i := Idle] && s'.held == s.held
    ensures OwnersOk(s', [s.tasks[i].f] + stack, frames)
  {
    var f0 := s.tasks[i].f;
    assert f0 in Owned(s, i);
    forall j | 0 <= j < |s.tasks|
      ensures Owned(s', j) == Owned(s, j) - {f0}
    {
      if j < i { assert Owned(s, j) !! Owned(s, i); } else if i < j { assert Owned(s, i) !! Owned(s, j); }
    }
    forall f | f in frames && f !in [f0] + stack
      ensures exists j :: 0 <= j < |s'.tasks| && f in Owned(s', j)
    {
      var j :| 0 <= j < |s.tasks| && f in Owned(s, j);
      assert f in Owned(s', j);
    }
  }

  /** A successful exchange of pf_free pushes, whatever anybody has seen before. */
  lemma PushKeepsInv(s: State, i: nat, s': State, stack: seq<nat>, frames: set<nat>)
    requires Inv(s, stack, frames) && i < |s.tasks| && TaskStep(s, i, s')
    requires s.tasks[i].Push? && s.head == s.tasks[i].old_
    ensures Inv(s', [s.tasks[i].f] + stack, frames)
  {
    var f := s.tasks[i].f;
    var stack' := [f] + stack;
    assert PcOk(s, s.tasks[i]);
    assert f in Owned(s, i);
    PushOwners(s, i, s', stack, frames);
    assert stack'[1..] == stack;
    assert Linked(f, s.next, stack');
    ConsDistinct(f, stack);
    OthersOk(s, i, s');
  }

  /** Who owns what is unchanged when a task moves within one call. */
  lemma SameOwners(s: State, s': State, stack: seq<nat>, frames: set<nat>)
    requires OwnersOk(s, stack, frames) && |s'.tasks| == |s'.held| == |s.tasks|
    requires forall i :: 0 <= i < |s.tasks| ==> Owned(s', i) == Owned(s, i) && s'.held[i] !! InFlight(s'.tasks[i])
    ensures OwnersOk(s', stack, frames)
  {
    forall f | f in frames && f !in stack
      ensures exists i :: 0 <= i < |s'.tasks| && f in Owned(s', i)
    {
      var i :| 0 <= i < |s.tasks| && f in Owned(s, i);
      assert f in Owned(s', i);
    }
  }

  lemma HandedOwned(s: State, i: nat, j: nat, f: nat, stack: seq<nat>, frames: set<nat>, k: nat)
    requires OwnersOk(s, stack, frames) && i < |s.tasks| && j < |s.tasks| && i != j && k < |s.tasks|
    requires f in s.held[i] && s.tasks[i] == Idle
    ensures Owned(Handed(s, i, j, f), k)
              == if k == i then Owned(s, i) - {f} else if k == j then Owned(s, j) + {f} else Owned(s, k)
    ensures f in Owned(s, k) <==> k == i
    ensures Handed(s, i, j, f).held[k] !! InFlight(s.tasks[k])
  {
    assert f in Owned(s, i);
    if k < i { assert Owned(s, k) !! Owned(s, i); } else if i < k { assert Owned(s, i) !! Owned(s, k); }
  }

  lemma HandedApart(s: State, i: nat, j: nat, f: nat, stack: seq<nat>, frames: set<nat>, k: nat, l: nat)
    requires OwnersOk(s, stack, frames) && i < |s.tasks| && j < |s.tasks| && i != j && k < l < |s.tasks|
    requires f in s.held[i] && s.tasks[i] == Idle
    ensures Owned(Handed(s, i, j, f), k) !! Owned(Handed(s, i, j, f), l)
  {
    HandedOwned(s, i, j, f, stack, frames, k);
    HandedOwned(s, i, j, f, stack, frames, l);
    assert Owned(s, k) !! Owned(s, l);
  }

  lemma HandedOwner(s: State, i: nat, j: nat, f: nat, stack: seq<nat>, frames: set<nat>, g: nat) returns (k: nat)
    requires OwnersOk(s, stack, frames) && i < |s.tasks| && j < |s.tasks| && i != j
    requires f in s.held[i] && s.tasks[i] == Idle && g in frames && g !in stack
    ensures k < |s.tasks| && g in Owned(Handed(s, i, j, f), k)
  {
    k :| 0 <= k < |s.tasks| && g in Owned(s, k);
    HandedOwned(s, i, j, f, stack, frames, k);
    HandedOwned(s, i, j, f, stack, frames, j);
    k := if g == f then j else k;
  }

  lemma HandOwners(s: State, i: nat, j: nat, f: nat, stack: seq<nat>, frames: set<nat>)
    requires OwnersOk(s, stack, frames) && i < |s.tasks| && j < |s.tasks| && i != j
    requires f in s.held[i] && s.tasks[i] == Idle
    ensures OwnersOk(Handed(s, i, j, f), stack, frames)
  {
    var s' := Handed(s, i, j, f);
    assert f in Owned(s, i);
    forall k | 0 <= k < |s.tasks|
      ensures Owned(s', k) <= frames && s'.held[k] !! InFlight(s'.tasks[k])
      ensures forall g :: g in Owned(s', k) ==> g !in stack
    {
      HandedOwned(s, i, j, f, stack, frames, k);
    }
    forall k, l | 0 <= k < l < |s.tasks|
      ensures Owned(s', k) !! Owned(s', l)
    {
      HandedApart(s, i, j, f, stack, frames, k, l);
    }
    forall g | g in frames && g !in stack
      ensures exists k :: 0 <= k < |s'.tasks| && g in Owned(s', k)
    {
      var k := HandedOwner(s, i, j, f, stack, frames, g);
    }
  }

  /** A store into a frame that task i owns disturbs no link of the stack and no other task. */
  lemma StoreDisturbsNone(s: State, i: nat, f: nat, v: nat, stack: seq<nat>, frames: set<nat>)
    requires Inv(s, stack, frames) && i < |s.tasks| && f in Owned(s, i)
    ensures Linked(s.head, s.next[f := v], stack)
    ensures forall j :: 0 <= j < |s.tasks| && j != i ==> PcOk(s.(next := s.next[f := v]), s.tasks[j])
  {
    LinkedFrame(s.head, s.next, s.next[f := v], stack);
    forall j | 0 <= j < |s.tasks| && j != i
      ensures PcOk(s.(next := s.next[f := v]), s.tasks[j])
    {
      assert PcOk(s, s.tasks[j]);
      if j < i { assert Owned(s, j) !! Owned(s, i); } else { assert Owned(s, i) !! Owned(s, j); }
      if s.tasks[j].Push? { assert s.tasks[j].f in Owned(s, j); }
    }
  }

  lemma ScribbleKeepsInv(s: State, i: nat, f: nat, v: nat, stack: seq<nat>, frames: set<nat>)
    requires Inv(s, stack, frames) && i < |s.tasks| && s.tasks[i] == Idle && f in s.held[i]
    ensures Inv(Scribbled(s, f, v), stack, frames)
  {
    StoreDisturbsNone(s, i, f, v, stack, frames);
    SameOwners(s, Scribbled(s, f, v), stack, frames);
  }

  /** A step that leaves memory and ownership alone, and takes task i to a point where it may be. */
  lemma MoveKeepsInv(s: State, i: nat, s': State, stack: seq<nat>, frames: set<nat>)
    requires Inv(s, stack, frames) && i < |s.tasks|
    requires s'.head == s.head && s'.next == s.next && OwnersOk(s', stack, frames)
    requires |s'.tasks| == |s.tasks| && s'.tasks == s.tasks[i := s'.tasks[i]] && PcOk(s', s'.tasks[i])
    ensures Inv(s', stack, frames)
  {
    forall j | 0 <= j < |s.tasks|
      ensures PcOk(s', s'.tasks[j])
    {
      assert PcOk(s, s.tasks[j]);
    }
  }

  lemma AllocStarts(s: State, i: nat, stack: seq<nat>, frames: set<nat>)
    requires Inv(s, stack, frames) && i < |s.tasks| && s.tasks[i] == Idle
    ensures Inv(At(s, i, Check), stack, frames)
  {
    SameOwners(s, At(s, i, Check), stack, frames);
    MoveKeepsInv(s, i, At(s, i, Check), stack, frames);
  }

  lemma FreeStarts(s: State, i: nat, f: nat, stack: seq<nat>, frames: set<nat>)
    requires Inv(s, stack, frames) && i < |s.tasks| && s.tasks[i] == Idle && f in s.held[i]
    ensures Inv(Freeing(s, i, f), stack, frames)
  {
    SameOwners(s, Freeing(s, i, f), stack, frames);
    MoveKeepsInv(s, i, Freeing(s, i, f), stack, frames);
  }

  lemma HandKeepsInv(s: State, i: nat, j: nat, f: nat, stack: seq<nat>, frames: set<nat>)
    requires Inv(s, stack, frames) && i < |s.tasks| && s.tasks[i] == Idle && f in s.held[i] && j < |s.held| && j != i
    ensures Inv(Handed(s, i, j, f), stack, frames)
  {
    HandOwners(s, i, j, f, stack, frames);
    MoveKeepsInv(s, i, Handed(s, i, j, f), stack, frames);
  }

  lemma ClientKeepsInv(s: State, i: nat, s': State, stack: seq<nat>, frames: set<nat>)
    requires Inv(s, stack, frames) && i < |s.tasks| && s.tasks[i] == Idle && Client(s, i, s')
    ensures Inv(s', stack, frames)
  {
    if s' == At(s, i, Check) {
      AllocStarts(s, i, stack, frames);
    } else if f :| f in s.held[i] && s' == Freeing(s, i, f) {
      FreeStarts(s, i, f, stack, frames);
    } else if f, v :| f in s.held[i] && s' == Scribbled(s, f, v) {
      ScribbleKeepsInv(s, i, f, v, stack, frames);
    } else {
      var f, j :| f in s.held[i] && 0 <= j < |s.held| && j != i && s' == Handed(s, i, j, f);
      HandKeepsInv(s, i, j, f, stack, frames);
    }
  }

  lemma LinkKeepsInv(s: State, i: nat, s': State, stack: seq<nat>, frames: set<nat>)
    requires Inv(s, stack, frames) && i < |s.tasks| && s.tasks[i].Link? && TaskStep(s, i, s')
    ensures Inv(s', stack, frames)
  {
    var f, top := s.tasks[i].f, s.tasks[i].top;
    SameOwners(s, s', stack, frames);
    StoreDisturbsNone(s, i, f, top, stack, frames);
    forall j | 0 <= j < |s.tasks|
      ensures PcOk(s', s'.tasks[j])
    {
      if j != i { assert PcOk(s.(next := s.next[f := top]), s.tasks[j]); }
    }
  }

  /** Steps that leave the ideal stack as it is: all but a dereference of NULL keep the invariant. */
  lemma QuietKeepsInvIff(s: State, i: nat, s': State, stack: seq<nat>, frames: set<nat>)
    requires Inv(s, stack, frames) && i < |s.tasks| && TaskStep(s, i, s')
    requires !((s.tasks[i].Pop? || s.tasks[i].Push?) && s.head == s.tasks[i].old_)
    ensures Inv(s', stack, frames) <==> !Faults(s, i)
  {
    assert PcOk(s, s.tasks[i]);
    if s.tasks[i].Idle? {
      ClientKeepsInv(s, i, s', stack, frames);
    } else if Faults(s, i) {
      assert !PcOk(s', s'.tasks[i]);
    } else if s.tasks[i].Link? {
      LinkKeepsInv(s, i, s', stack, frames);
    } else {
      SameOwners(s, s', stack, frames);
      MoveKeepsInv(s, i, s', stack, frames);
    }
  }

  /** Each step is a pop, a push or nothing on the ideal stack, exactly unless it pops stale or faults. */
  lemma StepRefinesIff(s: State, i: nat, s': State, stack: seq<nat>, frames: set<nat>)
    requires Inv(s, stack, frames) && i < |s.tasks| && TaskStep(s, i, s')
    ensures Inv(s', After(s, i, stack), frames) <==> !BadStep(s, i)
    ensures s.tasks[i].Pop? && s.head == s.tasks[i].old_ ==> stack != [] && stack[0] == s.tasks[i].old_
  {
    if s.tasks[i].Pop? && s.head == s.tasks[i].old_ {
      PopKeepsInvIff(s, i, s', stack, frames);
    } else if s.tasks[i].Push? && s.head == s.tasks[i].old_ {
      PushKeepsInv(s, i, s', stack, frames);
    } else {
      QuietKeepsInvIff(s, i, s', stack, frames);
    }
  }

  // ---- What a call comes to ----

  predicate InAlloc(pc: Pc) {
    pc.Check? || pc.Load? || pc.Next? || pc.Pop?
  }

  /**
   A pf_alloc goes on, without touching what the task holds, until its check sees an empty head, it
   dereferences NULL, or its exchange succeeds; then the task holds the frame that was the head, and
   did not before.
   */
  lemma AllocEnds(s: State, i: nat, s': State, stack: seq<nat>, frames: set<nat>)
    requires Inv(s, stack, frames) && i < |s.tasks| && InAlloc(s.tasks[i]) && TaskStep(s, i, s')
    ensures if s.tasks[i].Pop? && s.tasks[i].old_ == s.head
            then s'.tasks[i] == Idle && s.head !in s.held[i] && s'.held[i] == s.held[i] + {s.head}
            else
              && s'.held == s.held
              && (s'.tasks[i] == Idle <==> s.tasks[i] == Check && s.head == 0)
              && (s'.tasks[i] == Fault <==> s.tasks[i] == Next(0))
              && (s'.tasks[i] != Idle && s'.tasks[i] != Fault ==> InAlloc(s'.tasks[i]))
  {
    assert PcOk(s, s.tasks[i]);
    LinkedHead(s.head, s.next, stack);
    assert forall f :: f in s.held[i] ==> f in Owned(s, i);
    assert s.head != 0 ==> s.head in stack;
  }

  /** A pf_free goes on with its frame until its exchange succeeds; then the frame is the head. */
  lemma FreeEnds(s: State, i: nat, s': State)
    requires i < |s.tasks| == |s.held| && InFlight(s.tasks[i]) != {} && TaskStep(s, i, s')
    ensures s'.held == s.held
    ensures if s.tasks[i].Push? && s.tasks[i].old_ == s.head then s'.tasks[i] == Idle && InFlight(s.tasks[i]) == {s'.head}
            else InFlight(s'.tasks[i]) == InFlight(s.tasks[i]) && s'.head == s.head
  {
  }

  // ---- Runs ----

  /** who[k] takes the k-th step. */
  ghost predicate IsRun(run: seq<State>, who: seq<nat>) {
    && |run| == |who| + 1
    && forall k :: 0 <= k < |who| ==>
         who[k] < |run[k].tasks| == |run[k].held| && TaskStep(run[k], who[k], run[k + 1])
  }

  /** No step of the run pops through a stale link or dereferences NULL. */
  ghost predicate Sound(run: seq<State>, who: seq<nat>)
    requires IsRun(run, who)
  {
    forall k :: 0 <= k < |who| ==> !BadStep(run[k], who[k])
  }

  /** The ideal stack alongside the first n steps of a run: stacks[k] goes with run[k]. */
  ghost predicate Mirrors(stacks: seq<seq<nat>>, run: seq<State>, who: seq<nat>, n: nat, frames: set<nat>)
    requires IsRun(run, who) && n <= |who|
  {
    && |stacks| == n + 1
    && (forall k :: 0 <= k <= n ==> Inv(run[k], stacks[k], frames))
    && (forall k :: 0 <= k < n ==> stacks[k + 1] == After(run[k], who[k], stacks[k]))
  }

  /**
   An interleaving of pf_alloc and pf_free acts as atomic pops and pushes of one stack, every
   frame at each point on the stack or owned by exactly one task, exactly when it is sound.
   */
  lemma AtomicIffSound(run: seq<State>, who: seq<nat>, stack: seq<nat>, frames: set<nat>)
    requires IsRun(run, who) && Inv(run[0], stack, frames)
    ensures (exists stacks :: Mirrors(stacks, run, who, |who|, frames) && stacks[0] == stack) <==> Sound(run, who)
  {
    if Sound(run, who) {
      var stacks := SoundRunsAreAtomic(run, who, |who|, stack, frames);
    }
    if stacks :| Mirrors(stacks, run, who, |who|, frames) && stacks[0] == stack {
      forall k | 0 <= k < |who|
        ensures !BadStep(run[k], who[k])
      {
        MirroredStep(stacks, run, who, k, frames);
      }
    }
  }

  lemma MirroredStep(stacks: seq<seq<nat>>, run: seq<State>, who: seq<nat>, k: nat, frames: set<nat>)
    requires IsRun(run, who) && Mirrors(stacks, run, who, |who|, frames) && k < |who|
    ensures !BadStep(run[k], who[k])
  {
    assert Inv(run[k], stacks[k], frames) && Inv(run[k + 1], stacks[k + 1], frames);
    StepRefinesIff(run[k], who[k], run[k + 1], stacks[k], frames);
  }

  lemma {:induction false} SoundRunsAreAtomic(run: seq<State>, who: seq<nat>, n: nat, stack: seq<nat>, frames: set<nat>)
    returns (stacks: seq<seq<nat>>)
    requires IsRun(run, who) && Sound(run, who) && n <= |who| && Inv(run[0], stack, frames)
    ensures Mirrors(stacks, run, who, n, frames) && stacks[0] == stack
    decreases n
  {
    if n == 0 {
      stacks := [stack];
    } else {
      stacks := SoundRunsAreAtomic(run, who, n - 1, stack, frames);
      stacks := Extended(run, who, n - 1, frames, stacks);
    }
  }

  lemma Extended(run: seq<State>, who: seq<nat>, n: nat, frames: set<nat>, before: seq<seq<nat>>)
    returns (stacks: seq<seq<nat>>)
    requires IsRun(run, who) && Sound(run, who) && n < |who| && Mirrors(before, run, who, n, frames)
    ensures Mirrors(stacks, run, who, n + 1, frames) && stacks[0] == before[0]
  {
    assert Inv(run[n], before[n], frames);
    StepRefinesIff(run[n], who[n], run[n + 1], before[n], frames);
    stacks := Appended(before, After(run[n], who[n], before[n]));
    forall k | 0 <= k < n
      ensures stacks[k + 1] == After(run[k], who[k], stacks[k])
    {
      assert before[k + 1] == After(run[k], who[k], before[k]);
    }
    forall k | 0 <= k <= n + 1
      ensures Inv(run[k], stacks[k], frames)
    {
      if k <= n { assert Inv(run[k], before[k], frames); }
    }
  }

  lemma Appended(before: seq<seq<nat>>, last: seq<nat>) returns (stacks: seq<seq<nat>>)
    ensures |stacks| == |before| + 1 && stacks[|before|] == last
    ensures forall k :: 0 <= k < |before| ==> stacks[k] == before[k]
  {
    stacks := before + [last];
  }

  /** No frame is held twice, none is lost, and no task faults, at any point of a sound run. */
  lemma SoundRunsConserveFrames(run: seq<State>, who: seq<nat>, stack: seq<nat>, frames: set<nat>, k: nat, f: nat)
    requires IsRun(run, who) && Sound(run, who) && Inv(run[0], stack, frames) && k < |run| && f in frames
    ensures |run[k].tasks| == |run[k].held|
    ensures forall i, j :: 0 <= i < j < |run[k].tasks| ==> !(f in Owned(run[k], i) && f in Owned(run[k], j))
    ensures forall i :: 0 <= i < |run[k].tasks| ==> !run[k].tasks[i].Fault?
    ensures exists free: seq<nat> :: Linked(run[k].head, run[k].next, free) && Distinct(free)
              && (f in free <==> forall i :: 0 <= i < |run[k].tasks| ==> f !in Owned(run[k], i))
  {
    var stacks := SoundRunsAreAtomic(run, who, |who|, stack, frames);
    var s := run[k];
    assert Inv(s, stacks[k], frames);
    forall i | 0 <= i < |s.tasks|
      ensures !s.tasks[i].Fault?
    {
      assert PcOk(s, s.tasks[i]);
    }
  }

  // ---- A condition on the calls that makes a run sound ----

  /** A pending pf_alloc has read a link of f that is no longer its link. */
  ghost predicate StaleView(s: State, f: nat) {
    exists j :: 0 <= j < |s.tasks| && s.tasks[j].Pop? && s.tasks[j].old_ == f && s.tasks[j].new_ != Word(s.next, f)
  }

  /** Task i is about to put back a frame of which somebody has a stale view. */
  ghost predicate PushesStale(s: State, i: nat)
    requires i < |s.tasks|
  {
    s.tasks[i].Push? && s.head == s.tasks[i].old_ && StaleView(s, s.tasks[i].f)
  }

  /** Task i found the stack non-empty, and is about to load an empty head. */
  ghost predicate LoadsNull(s: State, i: nat)
    requires i < |s.tasks|
  {
    s.tasks[i].Load? && s.head == 0
  }

  /** No step of the run puts back a frame under a stale view, or loads an empty head. */
  ghost predicate Calm(run: seq<State>, who: seq<nat>)
    requires IsRun(run, who)
  {
    forall k :: 0 <= k < |who| ==> !PushesStale(run[k], who[k]) && !LoadsNull(run[k], who[k])
  }

  /** Nobody has a stale view of a frame on the stack, and nobody has loaded NULL. */
  ghost predicate FreshAt(s: State, stack: seq<nat>, j: nat)
    requires j < |s.tasks|
  {
    && (s.tasks[j].Pop? && s.tasks[j].old_ in stack ==> s.tasks[j].new_ == Word(s.next, s.tasks[j].old_))
    && s.tasks[j] != Next(0)
  }

  ghost predicate Fresh(s: State, stack: seq<nat>) {
    forall j :: 0 <= j < |s.tasks| ==> FreshAt(s, stack, j)
  }

  lemma FreshIsGood(s: State, i: nat, stack: seq<nat>, frames: set<nat>)
    requires Inv(s, stack, frames) && Fresh(s, stack) && i < |s.tasks|
    ensures !BadStep(s, i)
  {
    assert FreshAt(s, stack, i) && PcOk(s, s.tasks[i]);
    LinkedHead(s.head, s.next, stack);
  }

  lemma FreshKept(s: State, i: nat, s': State, stack: seq<nat>, frames: set<nat>)
    requires Inv(s, stack, frames) && Fresh(s, stack) && i < |s.tasks| && TaskStep(s, i, s')
    requires !PushesStale(s, i) && !LoadsNull(s, i)
    ensures Fresh(s', After(s, i, stack))
  {
    WordsOnStackKept(s, i, s', stack, frames);
    forall j | 0 <= j < |s'.tasks|
      ensures FreshAt(s', After(s, i, stack), j)
    {
      assert FreshAt(s, stack, j) && FreshAt(s, stack, i);
    }
  }

  /** Only words of frames off the stack are written. */
  lemma WordsOnStackKept(s: State, i: nat, s': State, stack: seq<nat>, frames: set<nat>)
    requires Inv(s, stack, frames) && i < |s.tasks| && TaskStep(s, i, s')
    ensures forall f :: f in stack ==> Word(s'.next, f) == Word(s.next, f)
    ensures s.tasks[i].Push? ==> s'.next == s.next
  {
    if s.tasks[i].Link? {
      assert s.tasks[i].f in Owned(s, i);
    } else if s.tasks[i].Idle? {
      if f, v :| f in s.held[i] && s' == Scribbled(s, f, v) {
        assert f in Owned(s, i);
      }
    }
  }

  /** If no frame is put back under a stale view and no empty head is loaded, the run is sound. */
  lemma CalmRunsAreSound(run: seq<State>, who: seq<nat>, stack: seq<nat>, frames: set<nat>)
    requires IsRun(run, who) && Calm(run, who) && Inv(run[0], stack, frames) && Fresh(run[0], stack)
    ensures Sound(run, who)
  {
    forall k | 0 <= k < |who|
      ensures !BadStep(run[k], who[k])
    {
      var here := CalmUpTo(run, who, k, stack, frames);
      FreshIsGood(run[k], who[k], here, frames);
    }
  }

  lemma {:induction false} CalmUpTo(run: seq<State>, who: seq<nat>, n: nat, stack: seq<nat>, frames: set<nat>)
    returns (here: seq<nat>)
    requires IsRun(run, who) && Calm(run, who) && n <= |who| && Inv(run[0], stack, frames) && Fresh(run[0], stack)
    ensures Inv(run[n], here, frames) && Fresh(run[n], here)
    decreases n
  {
    here := stack;
    if n > 0 {
      var s, i, s' := run[n - 1], who[n - 1], run[n];
      var before := CalmUpTo(run, who, n - 1, stack, frames);
      FreshIsGood(s, i, before, frames);
      StepRefinesIff(s, i, s', before, frames);
      FreshKept(s, i, s', before, frames);
      here := After(s, i, before);
    }
  }

  // ---- A run that is not sound ----

  ghost predicate Leads(run: seq<State>, who: seq<nat>, first: State, last: State) {
    IsRun(run, who) && run[0] == first && run[|who|] == last
  }

  lemma Go(run: seq<State>, who: seq<nat>, first: State, last: State, i: nat, s': State)
    returns (run': seq<State>, who': seq<nat>)
    requires Leads(run, who, first, last) && i < |last.tasks| == |last.held| && TaskStep(last, i, s')
    ensures Leads(run', who', first, s')
  {
    run', who' := run + [s'], who + [i];
    forall k | 0 <= k < |who'|
      ensures who'[k] < |run'[k].tasks| == |run'[k].held| && TaskStep(run'[k], who'[k], run'[k + 1])
    {
      if k < |who| { assert TaskStep(run[k], who[k], run[k + 1]); }
    }
  }

  /** Task i runs pf_alloc up to its compare-and-exchange, with head h linking to n. */
  lemma ToPop(run: seq<State>, who: seq<nat>, first: State, s: State, i: nat)
    returns (run': seq<State>, who': seq<nat>)
    requires Leads(run, who, first, s) && i < |s.tasks| == |s.held| && s.tasks[i] == Idle && s.head != 0
    ensures Leads(run', who', first, At(s, i, Pop(s.head, Word(s.next, s.head))))
  {
    run', who' := Go(run, who, first, s, i, At(s, i, Check));
    run', who' := Go(run', who', first, At(s, i, Check), i, At(s, i, Load));
    run', who' := Go(run', who', first, At(s, i, Load), i, At(s, i, Next(s.head)));
    run', who' := Go(run', who', first, At(s, i, Next(s.head)), i, At(s, i, Pop(s.head, Word(s.next, s.head))));
  }

  lemma Allocate(run: seq<State>, who: seq<nat>, first: State, s: State, i: nat)
    returns (run': seq<State>, who': seq<nat>)
    requires Leads(run, who, first, s) && i < |s.tasks| == |s.held| && s.tasks[i] == Idle && s.head != 0
    ensures Leads(run', who', first, s.(head := Word(s.next, s.head), held := s.held[i := s.held[i] + {s.head}]))
  {
    run', who' := ToPop(run, who, first, s, i);
    var s1 := At(s, i, Pop(s.head, Word(s.next, s.head)));
    var s2 := s.(head := Word(s.next, s.head), held := s.held[i := s.held[i] + {s.head}]);
    assert s2 == At(s1, i, Idle).(head := Word(s.next, s.head), held := s1.held[i := s1.held[i] + {s.head}]);
    run', who' := Go(run', who', first, s1, i, s2);
  }

  lemma Release(run: seq<State>, who: seq<nat>, first: State, s: State, i: nat, f: nat)
    returns (run': seq<State>, who': seq<nat>)
    requires Leads(run, who, first, s) && i < |s.tasks| == |s.held| && s.tasks[i] == Idle && f in s.held[i]
    ensures Leads(run', who', first, s.(head := f, next := s.next[f := s.head], held := s.held[i := s.held[i] - {f}]))
  {
    var t := s.(held := s.held[i := s.held[i] - {f}]);
    assert Freeing(s, i, f) == At(t, i, Read(f));
    run', who' := Go(run, who, first, s, i, At(t, i, Read(f)));
    run', who' := Go(run', who', first, At(t, i, Read(f)), i, At(t, i, Link(f, s.head)));
    var u := t.(next := s.next[f := s.head]);
    assert At(u, i, Reread(f)) == At(At(t, i, Link(f, s.head)).(next := s.next[f := s.head]), i, Reread(f));
    run', who' := Go(run', who', first, At(t, i, Link(f, s.head)), i, At(u, i, Reread(f)));
    run', who' := Go(run', who', first, At(u, i, Reread(f)), i, At(u, i, Push(f, s.head)));
    var v := u.(head := f);
    assert v == At(At(u, i, Push(f, s.head)), i, Idle).(head := f);
    run', who' := Go(run', who', first, At(u, i, Push(f, s.head)), i, v);
  }

  /** A run that goes on with a bad step is not sound. */
  lemma GoBadly(run: seq<State>, who: seq<nat>, first: State, last: State, i: nat, s': State)
    returns (run': seq<State>, who': seq<nat>)
    requires Leads(run, who, first, last) && i < |last.tasks| == |last.held| && TaskStep(last, i, s') && BadStep(last, i)
    ensures Leads(run', who', first, s') && !Sound(run', who')
  {
    run', who' := run + [s'], who + [i];
    forall k | 0 <= k < |who'|
      ensures who'[k] < |run'[k].tasks| == |run'[k].held| && TaskStep(run'[k], who'[k], run'[k + 1])
    {
      if k < |who| { assert TaskStep(run[k], who[k], run[k + 1]); }
    }
    assert BadStep(run'[|who|], who'[|who|]);
  }

  ghost function TwoFrames(): State {
    State(1, map[1 := 2, 2 := 0], [Idle, Idle], [{}, {}])
  }

  lemma TwoFramesInv()
    ensures Inv(TwoFrames(), [1, 2], {1, 2}) && Fresh(TwoFrames(), [1, 2])
  {
    var s0 := TwoFrames();
    assert Linked(0, s0.next, []) && Linked(2, s0.next, [2]);
    assert [1, 2][1..] == [2] && [2][1..] == [];
    assert forall i :: 0 <= i < 2 ==> Owned(s0, i) == {};
  }

  /**
   The condition is needed. Two tasks, two frames: task 0 is about to pop frame 1 when task 1
   takes frames 1 and 2 and puts 1 back; task 0's exchange succeeds, and frame 2, which
   task 1 holds, becomes the head of the free stack.
   */
  lemma HeldFrameBecomesFree() returns (run: seq<State>, who: seq<nat>)
    ensures IsRun(run, who) && Inv(run[0], [1, 2], {1, 2}) && Fresh(run[0], [1, 2]) && !Sound(run, who)
    ensures var s := run[|who|]; s.head == 2 && |s.held| == 2 && 2 in s.held[1]
  {
    var s0 := TwoFrames();
    TwoFramesInv();
    run, who := [s0], [];
    run, who := ToPop(run, who, s0, s0, 0);
    var s1 := At(s0, 0, Pop(1, 2));
    run, who := Allocate(run, who, s0, s1, 1);
    var s2 := s1.(head := 2, held := s1.held[1 := s1.held[1] + {1}]);
    run, who := Allocate(run, who, s0, s2, 1);
    var s3 := s2.(head := 0, held := s2.held[1 := s2.held[1] + {2}]);
    run, who := Release(run, who, s0, s3, 1, 1);
    var s4 := s3.(head := 1, next := s3.next[1 := 0], held := s3.held[1 := s3.held[1] - {1}]);
    assert s4.tasks[0] == Pop(1, 2);
    var s5 := At(s4, 0, Idle).(head := 2, held := s4.held[0 := s4.held[0] + {1}]);
    run, who := GoBadly(run, who, s0, s4, 0, s5);
  }
}
