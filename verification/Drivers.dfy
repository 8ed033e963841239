/**
 Driver loading by queue rotation. The loop always visits the front of the queue of
 pending drivers; a driver that cannot load yet goes to the back. Because the loop
 remembers the front's successor beforehand, it ends after visiting a queue of one.
 */
module Drivers {
  import opened Common

  /** Names are numbered. deps: each driver's dependencies; good: the drivers whose probe succeeds. */
  datatype Config = Config(deps: map<nat, seq<nat>>, good: set<nat>)

  datatype State = State(queue: seq<nat>, onDemand: set<nat>, loaded: seq<nat>, failed: seq<nat>)

  function Deps(c: Config, d: nat): seq<nat> {
    if d in c.deps then c.deps[d] else []
  }

  /** The first dependency that is not loaded. */
  function Missing(deps: seq<nat>, loaded: seq<nat>): (r: Option<nat>)
    ensures r.None? <==> forall e :: e in deps ==> e in loaded
    ensures r.Some? ==> r.value in deps && r.value !in loaded
  {
    if deps == [] then None
    else if deps[0] !in loaded then Some(deps[0])
    else Missing(deps[1..], loaded)
  }

  /** Crash: `find` returned NULL for a dependency that is neither loaded nor pending. */
  datatype Outcome = Running(s: State) | Done(s: State) | Crash

  /** Postpone the front driver; the loop goes on unless it was alone. */
  function Postpone(s: State): Outcome
    requires s.queue != []
  {
    var r := s.(queue := s.queue[1..] + [s.queue[0]]);
    if |s.queue| == 1 then Done(r) else Running(r)
  }

  function Visit(c: Config, s: State): Outcome
    requires s.queue != []
  {
    var d, rest := s.queue[0], s.queue[1..];
    if d in s.onDemand then Postpone(s)
    else match Missing(Deps(c, d), s.loaded)
      case Some(e) =>
        if e in rest then Postpone(s.(onDemand := s.onDemand - {e})) else Crash
      case None =>
        var r := if d in c.good then s.(queue := rest, loaded := s.loaded + [d])
                 else s.(queue := rest, failed := s.failed + [d]);
        if |s.queue| == 1 then Done(r) else Running(r)
  }

  /** The first n visits of driver_init's loop. */
  function Iter(c: Config, s: State, n: nat): Outcome
    decreases n
  {
    if n == 0 then Running(s)
    else if s.queue == [] then Done(s)
    else match Visit(c, s)
      case Running(r) => Iter(c, r, n - 1)
      case o => o
  }

  // ---- What is needed ----

  ghost predicate Closed(c: Config, x: set<nat>) {
    forall d, e :: d in x && e in Deps(c, d) ==> e in x
  }

  /** The drivers that are not on demand, and whatever they need, transitively. */
  ghost predicate IsNeeded(c: Config, roots: set<nat>, needed: set<nat>) {
    && roots <= needed && Closed(c, needed)
    && forall x: set<nat> :: roots <= x && Closed(c, x) ==> needed <= x
  }

  /** Dependencies are registered and acyclic. */
  ghost predicate Sane(c: Config, all: set<nat>, rank: map<nat, nat>) {
    && rank.Keys == all
    && forall d, e :: d in all && e in Deps(c, d) ==> e in all && rank[e] < rank[d]
  }

  /** Some needed driver depends on one whose probe fails. */
  ghost predicate Doomed(c: Config, needed: set<nat>) {
    exists d, e :: d in needed && e in Deps(c, d) && e !in c.good
  }

  /** Every driver comes after all its dependencies. */
  ghost predicate DepsFirst(c: Config, l: seq<nat>) {
    forall i, e :: 0 <= i < |l| && e in Deps(c, l[i]) ==> e in l[..i]
  }

  // ---- Invariant ----

  ghost predicate Facts(c: Config, s: State, all: set<nat>, roots: set<nat>, needed: set<nat>) {
    && Distinct(s.queue)
    && (forall d :: d in all <==> d in s.queue || d in s.loaded || d in s.failed)
    && (forall d :: d in s.queue ==> d !in s.loaded && d !in s.failed)
    && (forall d :: d in s.loaded ==> d in needed && d in c.good)
    && (forall d :: d in s.failed ==> d in needed && d !in c.good)
    && (forall d, e :: (d in s.loaded || d in s.failed) && e in Deps(c, d) ==> e in s.loaded)
    && (forall d :: d in s.onDemand ==> d in s.queue)
    && roots !! s.onDemand
    && (forall d :: d in s.queue && d !in s.onDemand ==> d in needed)
    && DepsFirst(c, s.loaded)
  }

  datatype Key = Key

  ghost predicate Unlock(key: Key, c: Config, s: State, all: set<nat>, roots: set<nat>, needed: set<nat>) {
    Facts(c, s, all, roots, needed)
  }

  /** The facts above, unfolded only where a proof asks for them with Open. */
  ghost predicate Inv(c: Config, s: State, all: set<nat>, roots: set<nat>, needed: set<nat>) {
    forall key {:trigger Unlock(key, c, s, all, roots, needed)} :: Unlock(key, c, s, all, roots, needed)
  }

  lemma Open(c: Config, s: State, all: set<nat>, roots: set<nat>, needed: set<nat>)
    requires Inv(c, s, all, roots, needed)
    ensures Facts(c, s, all, roots, needed)
  {
    assert Unlock(Key, c, s, all, roots, needed);
  }

  lemma Close(c: Config, s: State, all: set<nat>, roots: set<nat>, needed: set<nat>)
    requires Facts(c, s, all, roots, needed)
    ensures Inv(c, s, all, roots, needed)
  {
  }

  /** driver_init's start: everything is queued, and the roots are those not on demand. */
  ghost predicate Start(s: State, all: set<nat>, roots: set<nat>) {
    && Distinct(s.queue) && Elems(s.queue) == all && s.onDemand <= all && roots == all - s.onDemand
    && s.loaded == [] && s.failed == []
  }

  lemma RotateElems(q: seq<nat>)
    requires q != []
    ensures forall d :: d in q[1..] + [q[0]] <==> d in q
    ensures Distinct(q) ==> Distinct(q[1..] + [q[0]])
  {
    assert q == [q[0]] + q[1..];
  }

  /** Rotating, with the flag of e cleared. */
  lemma PostponeKeepsFacts(c: Config, s: State, all: set<nat>, roots: set<nat>, needed: set<nat>, e: nat)
    requires Facts(c, s, all, roots, needed) && s.queue != [] && (e in s.onDemand ==> e in needed)
    ensures Facts(c, Postpone(s.(onDemand := s.onDemand - {e})).s, all, roots, needed)
  {
    RotateElems(s.queue);
  }

  lemma ProbeKeepsFacts(c: Config, s: State, all: set<nat>, roots: set<nat>, needed: set<nat>)
    requires Facts(c, s, all, roots, needed) && s.queue != [] && s.queue[0] !in s.onDemand
    requires Missing(Deps(c, s.queue[0]), s.loaded).None?
    ensures !Visit(c, s).Crash? && Facts(c, Visit(c, s).s, all, roots, needed)
  {
    var d := s.queue[0];
    assert s.queue == [d] + s.queue[1..] && d in s.queue;
    assert forall x :: x in s.queue <==> x == d || x in s.queue[1..];
    if d in c.good {
      LoadKeepsOrder(c, s.loaded, d);
    }
  }

  lemma VisitKeepsFacts(c: Config, s: State, all: set<nat>, roots: set<nat>, needed: set<nat>)
    requires Facts(c, s, all, roots, needed) && Closed(c, needed) && s.queue != []
    ensures var o := Visit(c, s); !o.Crash? ==> Facts(c, o.s, all, roots, needed)
  {
    var d := s.queue[0];
    assert d in s.queue;
    if d in s.onDemand {
      RotateElems(s.queue);
    } else {
      var m := Missing(Deps(c, d), s.loaded);
      if m.Some? {
        PostponeKeepsFacts(c, s, all, roots, needed, m.value);
      } else {
        ProbeKeepsFacts(c, s, all, roots, needed);
      }
    }
  }

  lemma VisitKeepsInv(c: Config, s: State, all: set<nat>, roots: set<nat>, needed: set<nat>)
    requires Inv(c, s, all, roots, needed) && Closed(c, needed) && s.queue != []
    ensures var o := Visit(c, s); !o.Crash? ==> Inv(c, o.s, all, roots, needed)
  {
    Open(c, s, all, roots, needed);
    VisitKeepsFacts(c, s, all, roots, needed);
    if !Visit(c, s).Crash? {
      Close(c, Visit(c, s).s, all, roots, needed);
    }
  }

  lemma LoadKeepsOrder(c: Config, l: seq<nat>, d: nat)
    requires DepsFirst(c, l) && forall e :: e in Deps(c, d) ==> e in l
    ensures DepsFirst(c, l + [d])
  {
    var r := l + [d];
    forall i, e | 0 <= i < |r| && e in Deps(c, r[i])
      ensures e in r[..i]
    {
      if i < |l| {
        assert r[..i] == l[..i];
      } else {
        assert r[..i] == l;
      }
    }
  }

  // ---- Progress ----

  /** A visit to d probes it, clears a flag, or crashes: anything but a plain rotation. */
  ghost predicate Moves(c: Config, s: State, d: nat) {
    d !in s.onDemand &&
    var m := Missing(Deps(c, d), s.loaded);
    m.Some? ==> m.value in s.onDemand || m.value !in s.queue
  }

  /** From any pending driver that is not on demand, its missing dependencies lead to one that moves. */
  lemma {:induction false} SomeoneMoves(c: Config, s: State, all: set<nat>, roots: set<nat>, needed: set<nat>,
                                        rank: map<nat, nat>, d: nat) returns (x: nat)
    requires Facts(c, s, all, roots, needed) && Sane(c, all, rank) && d in s.queue && d !in s.onDemand
    ensures x in s.queue && Moves(c, s, x)
    decreases if d in rank then rank[d] else 0
  {
    x := d;
    if !Moves(c, s, d) {
      var e := Missing(Deps(c, d), s.loaded).value;
      assert d in all && e in Deps(c, d);
      x := SomeoneMoves(c, s, all, roots, needed, rank, e);
    }
  }

  /** While a needed driver is pending, one that is not on demand is. */
  lemma PendingNeeded(c: Config, s: State, all: set<nat>, roots: set<nat>, needed: set<nat>, d: nat) returns (x: nat)
    requires Facts(c, s, all, roots, needed) && IsNeeded(c, roots, needed) && roots <= all && d in needed && d in s.queue
    ensures x in s.queue && x !in s.onDemand
  {
    var settled := Elems(s.loaded) + Elems(s.failed);
    assert Closed(c, settled);
    assert d !in settled;
    assert !(roots <= settled);
    x :| x in roots && x !in settled;
  }

  /** Rotations until the front of the queue moves. */
  ghost function Distance(c: Config, s: State, q: seq<nat>): nat {
    if q == [] || Moves(c, s, q[0]) then 0 else 1 + Distance(c, s, q[1..])
  }

  lemma {:induction false} DistanceRotates(c: Config, s: State, q: seq<nat>, d: nat, x: nat)
    requires x in q && Moves(c, s, x)
    ensures Distance(c, s, q + [d]) == Distance(c, s, q)
  {
    if !Moves(c, s, q[0]) {
      assert (q + [d])[1..] == q[1..] + [d];
      assert q == [q[0]] + q[1..];
      DistanceRotates(c, s, q[1..], d, x);
    }
  }

  /** Moves looks at the queue only as a set. */
  lemma {:induction false} DistanceSame(c: Config, s: State, r: State, q: seq<nat>)
    requires r.onDemand == s.onDemand && r.loaded == s.loaded && forall d :: d in r.queue <==> d in s.queue
    ensures Distance(c, r, q) == Distance(c, s, q)
  {
    if q != [] {
      DistanceSame(c, s, r, q[1..]);
    }
  }

  ghost function Pending(s: State, needed: set<nat>): set<nat> {
    Elems(s.queue) * needed
  }

  /** A visit to a front that does not move brings the next mover one nearer. */
  lemma RotationNearer(c: Config, s: State, x: nat)
    requires s.queue != [] && !Moves(c, s, s.queue[0]) && x in s.queue && Moves(c, s, x)
    requires s.queue[0] !in Deps(c, s.queue[0])
    ensures var o := Visit(c, s);
      && !o.Crash? && o.s == s.(queue := s.queue[1..] + [s.queue[0]])
      && Distance(c, o.s, o.s.queue) < Distance(c, s, s.queue)
  {
    var d, rest := s.queue[0], s.queue[1..];
    assert s.queue == [d] + rest;
    var r := s.(queue := rest + [d]);
    if d !in s.onDemand {
      var e := Missing(Deps(c, d), s.loaded).value;
      assert e in rest && s.onDemand - {e} == s.onDemand;
    }
    RotateElems(s.queue);
    DistanceSame(c, s, r, r.queue);
    DistanceRotates(c, s, rest, d, x);
  }

  /** A visit to a front that moves crashes, settles a needed driver, or takes one off demand. */
  lemma MoveCounts(c: Config, s: State, all: set<nat>, roots: set<nat>, needed: set<nat>)
    requires Facts(c, s, all, roots, needed) && s.queue != [] && Moves(c, s, s.queue[0])
    requires s.queue[0] !in Deps(c, s.queue[0])
    ensures var o := Visit(c, s);
      || o.Crash?
      || Pending(o.s, needed) < Pending(s, needed)
      || (Pending(o.s, needed) == Pending(s, needed) && o.s.onDemand < s.onDemand)
  {
    var d, rest := s.queue[0], s.queue[1..];
    assert s.queue == [d] + rest && d in s.queue && d !in rest;
    RotateElems(s.queue);
    var m := Missing(Deps(c, d), s.loaded);
    if m.None? {
      assert d in Pending(s, needed) && d !in Pending(Visit(c, s).s, needed);
    } else if m.value in rest {
      var o := Visit(c, s);
      assert m.value in s.onDemand && m.value !in o.s.onDemand;
      assert Elems(o.s.queue) == Elems(s.queue);
    }
  }

  // ---- How it ends ----

  ghost predicate Setting(c: Config, all: set<nat>, roots: set<nat>, needed: set<nat>, rank: map<nat, nat>) {
    IsNeeded(c, roots, needed) && Sane(c, all, rank) && roots <= all && needed <= all
  }

  /** One visit while a needed driver is pending lowers the measure of the loop, or ends it. */
  lemma VisitProgress(c: Config, s: State, all: set<nat>, roots: set<nat>, needed: set<nat>, rank: map<nat, nat>)
    requires Inv(c, s, all, roots, needed) && Setting(c, all, roots, needed, rank) && Pending(s, needed) != {}
    ensures s.queue != []
    ensures var o := Visit(c, s);
      && (o.Running? ==> Lower(c, o.s, s, needed))
      && (o.Done? ==> o.s.queue == [])
      && (!o.Crash? ==> Inv(c, o.s, all, roots, needed))
  {
    Open(c, s, all, roots, needed);
    var d0 :| d0 in Pending(s, needed);
    var y := PendingNeeded(c, s, all, roots, needed, d0);
    var x := SomeoneMoves(c, s, all, roots, needed, rank, y);
    var d := s.queue[0];
    assert d in s.queue && d !in Deps(c, d);
    VisitKeepsInv(c, s, all, roots, needed);
    if Visit(c, s).Done? {
      AloneIsProbed(c, s, x);
    } else if Moves(c, s, d) {
      MoveCounts(c, s, all, roots, needed);
      if !Visit(c, s).Crash? {
        DecreaseSets(Pending(Visit(c, s).s, needed), Pending(s, needed));
        DecreaseSets(Visit(c, s).s.onDemand, s.onDemand);
      }
    } else {
      RotationLowers(c, s, needed, x);
    }
  }

  lemma RotationLowers(c: Config, s: State, needed: set<nat>, x: nat)
    requires Distinct(s.queue) && s.queue != [] && x in s.queue && Moves(c, s, x)
    requires !Moves(c, s, s.queue[0]) && Visit(c, s).Running? && s.queue[0] !in Deps(c, s.queue[0])
    ensures Lower(c, Visit(c, s).s, s, needed)
  {
    RotationNearer(c, s, x);
    RotateElems(s.queue);
    assert Elems(Visit(c, s).s.queue) == Elems(s.queue);
  }

  /** The loop's measure: needed drivers pending, drivers on demand, rotations to the next move. */
  ghost predicate Lower(c: Config, r: State, s: State, needed: set<nat>) {
    || |Pending(r, needed)| < |Pending(s, needed)|
    || (|Pending(r, needed)| == |Pending(s, needed)| && |r.onDemand| < |s.onDemand|)
    || (|Pending(r, needed)| == |Pending(s, needed)| && |r.onDemand| == |s.onDemand|
        && Distance(c, r, r.queue) < Distance(c, s, s.queue))
  }

  lemma IterNext(c: Config, s: State, n: nat)
    requires s.queue != [] && Visit(c, s).Running?
    ensures Iter(c, s, n + 1) == Iter(c, Visit(c, s).s, n)
  {
  }

  /** The loop goes on until it has crashed or every needed driver has been probed. */
  lemma {:induction false} Settle(c: Config, s: State, all: set<nat>, roots: set<nat>, needed: set<nat>, rank: map<nat, nat>)
    returns (n: nat, o: Outcome)
    requires Inv(c, s, all, roots, needed) && Setting(c, all, roots, needed, rank)
    ensures o == Iter(c, s, n)
    ensures o.Crash? || (Inv(c, o.s, all, roots, needed) && Pending(o.s, needed) == {} && (o.Done? ==> o.s.queue == []))
    decreases |Pending(s, needed)|, |s.onDemand|, Distance(c, s, s.queue)
  {
    if Pending(s, needed) == {} {
      n, o := 0, Running(s);
    } else {
      VisitProgress(c, s, all, roots, needed, rank);
      o := Visit(c, s);
      if o.Running? {
        n, o := Settle(c, o.s, all, roots, needed, rank);
        IterNext(c, s, n);
        n := n + 1;
      } else {
        n := 1;
        if o.Done? {
          Emptied(o.s, needed);
        }
      }
    }
  }

  lemma Emptied(s: State, needed: set<nat>)
    requires s.queue == []
    ensures Pending(s, needed) == {}
  {
  }

  lemma DecreaseSets(a: set<nat>, b: set<nat>)
    ensures a < b ==> |a| < |b|
  {
    if a < b {
      SubsetCardinality(a, b);
    }
  }

  /** A queue of one whose driver moves does not survive the visit. */
  lemma AloneIsProbed(c: Config, s: State, x: nat)
    requires s.queue != [] && x in s.queue && Moves(c, s, x) && Visit(c, s).Done? && s.queue[0] !in Deps(c, s.queue[0])
    ensures Visit(c, s).s.queue == []
  {
    assert |s.queue| == 1 && s.queue == [x];
  }

  lemma {:induction false} IterMore(c: Config, s: State, n: nat, m: nat)
    requires Iter(c, s, n).Running?
    ensures Iter(c, s, n + m) == Iter(c, Iter(c, s, n).s, m)
    decreases n
  {
    if n > 0 {
      IterMore(c, Visit(c, s).s, n - 1, m);
    }
  }

  lemma StartInv(c: Config, s: State, all: set<nat>, roots: set<nat>, needed: set<nat>)
    requires Start(s, all, roots) && IsNeeded(c, roots, needed)
    ensures Inv(c, s, all, roots, needed)
  {
    assert forall d :: d in s.queue <==> d in Elems(s.queue);
    Close(c, s, all, roots, needed);
  }

  /** A visit crashes only on a needed driver that depends on one that failed. */
  lemma CrashMeansDoomed(c: Config, s: State, all: set<nat>, roots: set<nat>, needed: set<nat>, rank: map<nat, nat>)
    requires Facts(c, s, all, roots, needed) && Sane(c, all, rank) && s.queue != [] && Visit(c, s).Crash?
    ensures Doomed(c, needed)
  {
    var d := s.queue[0];
    assert d in s.queue && s.queue == [d] + s.queue[1..];
    var e := Missing(Deps(c, d), s.loaded).value;
    assert e in all && e !in s.queue[1..] && e != d;
    assert e !in s.queue && e in s.failed;
  }

  /** A visit in a configuration that is not doomed. */
  lemma VisitSafe(c: Config, s: State, all: set<nat>, roots: set<nat>, needed: set<nat>, rank: map<nat, nat>)
    requires Inv(c, s, all, roots, needed) && Setting(c, all, roots, needed, rank) && !Doomed(c, needed) && s.queue != []
    ensures !Visit(c, s).Crash? && Inv(c, Visit(c, s).s, all, roots, needed)
  {
    if Visit(c, s).Crash? {
      Open(c, s, all, roots, needed);
      CrashMeansDoomed(c, s, all, roots, needed, rank);
    }
    VisitKeepsInv(c, s, all, roots, needed);
  }

  lemma {:induction false} NoCrash(c: Config, s: State, all: set<nat>, roots: set<nat>, needed: set<nat>,
                                   rank: map<nat, nat>, n: nat)
    requires Inv(c, s, all, roots, needed) && Setting(c, all, roots, needed, rank) && !Doomed(c, needed)
    ensures !Iter(c, s, n).Crash?
    decreases n
  {
    if n > 0 && s.queue != [] {
      VisitSafe(c, s, all, roots, needed, rank);
      if Visit(c, s).Running? {
        NoCrash(c, Visit(c, s).s, all, roots, needed, rank, n - 1);
        IterNext(c, s, n - 1);
      }
    }
  }

  /** A needed driver that was probed had all its dependencies loaded. */
  lemma SettledNotDoomed(c: Config, s: State, all: set<nat>, roots: set<nat>, needed: set<nat>)
    requires Inv(c, s, all, roots, needed) && needed <= all && Pending(s, needed) == {}
    ensures !Doomed(c, needed)
  {
    Open(c, s, all, roots, needed);
    forall d, e | d in needed && e in Deps(c, d)
      ensures e in c.good
    {
      assert d !in Pending(s, needed);
    }
  }

  /** With registered, acyclic dependencies, driver_init dereferences NULL exactly when a needed
      driver depends on one whose probe fails. */
  lemma CrashesIff(c: Config, s: State, all: set<nat>, roots: set<nat>, needed: set<nat>, rank: map<nat, nat>)
    requires Start(s, all, roots) && Setting(c, all, roots, needed, rank)
    ensures (exists n: nat :: Iter(c, s, n).Crash?) <==> Doomed(c, needed)
  {
    StartInv(c, s, all, roots, needed);
    if Doomed(c, needed) {
      var n := CrashesAt(c, s, all, roots, needed, rank);
    } else {
      NeverCrashes(c, s, all, roots, needed, rank);
    }
  }

  lemma CrashesAt(c: Config, s: State, all: set<nat>, roots: set<nat>, needed: set<nat>, rank: map<nat, nat>)
    returns (n: nat)
    requires Inv(c, s, all, roots, needed) && Setting(c, all, roots, needed, rank) && Doomed(c, needed)
    ensures Iter(c, s, n).Crash?
  {
    var o: Outcome;
    n, o := Settle(c, s, all, roots, needed, rank);
    if !o.Crash? {
      SettledNotDoomed(c, o.s, all, roots, needed);
    }
  }

  lemma NeverCrashes(c: Config, s: State, all: set<nat>, roots: set<nat>, needed: set<nat>, rank: map<nat, nat>)
    requires Inv(c, s, all, roots, needed) && Setting(c, all, roots, needed, rank) && !Doomed(c, needed)
    ensures forall n: nat :: !Iter(c, s, n).Crash?
  {
    forall n: nat
      ensures !Iter(c, s, n).Crash?
    {
      NoCrash(c, s, all, roots, needed, rank, n);
    }
  }

  /** At most one driver is not needed: the loop ends with exactly the needed ones settled. */
  lemma LoadsAllNeeded(c: Config, s: State, all: set<nat>, roots: set<nat>, needed: set<nat>, rank: map<nat, nat>)
    returns (n: nat, end: State)
    requires Start(s, all, roots) && Setting(c, all, roots, needed, rank) && !Doomed(c, needed)
    requires |all - needed| <= 1
    ensures Iter(c, s, n) == Done(end) && DepsFirst(c, end.loaded)
    ensures Elems(end.loaded) == needed * c.good && Elems(end.failed) == needed - c.good
    ensures Elems(end.queue) == all - needed && end.onDemand == all - needed
  {
    StartInv(c, s, all, roots, needed);
    var o: Outcome;
    n, o := SettleSafely(c, s, all, roots, needed, rank);
    end := o.s;
    SettledState(c, end, all, roots, needed);
    n := OneMore(c, s, n, o);
  }

  lemma SettleSafely(c: Config, s: State, all: set<nat>, roots: set<nat>, needed: set<nat>, rank: map<nat, nat>)
    returns (n: nat, o: Outcome)
    requires Inv(c, s, all, roots, needed) && Setting(c, all, roots, needed, rank) && !Doomed(c, needed)
    ensures o == Iter(c, s, n) && !o.Crash? && Inv(c, o.s, all, roots, needed) && Pending(o.s, needed) == {}
  {
    n, o := Settle(c, s, all, roots, needed, rank);
    NoCrash(c, s, all, roots, needed, rank, n);
  }

  lemma OneMore(c: Config, s: State, n: nat, o: Outcome) returns (n': nat)
    requires o == Iter(c, s, n) && !o.Crash? && |o.s.queue| <= 1 && forall d :: d in o.s.queue ==> d in o.s.onDemand
    ensures Iter(c, s, n') == Done(o.s)
  {
    n' := n;
    if o.Running? {
      IterMore(c, s, n, 1);
      LastVisit(c, o.s);
      n' := n + 1;
    }
  }

  lemma SettledState(c: Config, s: State, all: set<nat>, roots: set<nat>, needed: set<nat>)
    requires Inv(c, s, all, roots, needed) && needed <= all && Pending(s, needed) == {} && |all - needed| <= 1
    ensures |s.queue| <= 1 && (forall d :: d in s.queue ==> d in s.onDemand) && DepsFirst(c, s.loaded)
    ensures Elems(s.loaded) == needed * c.good && Elems(s.failed) == needed - c.good
    ensures Elems(s.queue) == all - needed && s.onDemand == all - needed
  {
    Open(c, s, all, roots, needed);
    Leftover(c, s, all, roots, needed);
    AtMostOneLeft(s.queue, all - needed);
    forall d | d in s.queue ensures d in s.onDemand { assert d in Elems(s.queue); }
  }

  /** An empty queue, or a single driver still on demand, ends the loop as it is. */
  lemma LastVisit(c: Config, s: State)
    requires |s.queue| <= 1 && forall d :: d in s.queue ==> d in s.onDemand
    ensures Iter(c, s, 1) == Done(s)
  {
    if s.queue != [] {
      assert s.queue[1..] + [s.queue[0]] == s.queue && s.queue[0] in s.queue;
    }
  }

  /** When no needed driver is pending, exactly the others are, all still on demand. */
  lemma Leftover(c: Config, s: State, all: set<nat>, roots: set<nat>, needed: set<nat>)
    requires Facts(c, s, all, roots, needed) && needed <= all && Pending(s, needed) == {}
    ensures Elems(s.queue) == all - needed && s.onDemand == all - needed
    ensures Elems(s.loaded) == needed * c.good && Elems(s.failed) == needed - c.good
  {
    forall d | d in needed
      ensures d !in s.queue
    {
      assert d !in Pending(s, needed);
    }
  }

  lemma AtMostOneLeft(q: seq<nat>, x: set<nat>)
    requires Distinct(q) && Elems(q) == x && |x| <= 1
    ensures |q| <= 1
  {
    DistinctCardinality(q);
  }

  /** Two or more drivers are on demand and not needed: the loop rotates them for ever. */
  lemma {:induction false} RotatesForever(c: Config, s: State, all: set<nat>, roots: set<nat>, needed: set<nat>,
                                          rank: map<nat, nat>, n: nat)
    requires Inv(c, s, all, roots, needed) && Setting(c, all, roots, needed, rank) && !Doomed(c, needed)
    requires |all - needed| >= 2
    ensures Iter(c, s, n).Running?
    decreases n
  {
    if n > 0 {
      TwoPending(c, s, all, roots, needed);
      VisitSafe(c, s, all, roots, needed, rank);
      assert Visit(c, s).Running?;
      RotatesForever(c, Visit(c, s).s, all, roots, needed, rank, n - 1);
      IterNext(c, s, n - 1);
    }
  }

  /** Drivers that are not needed are never probed, so they stay queued. */
  lemma TwoPending(c: Config, s: State, all: set<nat>, roots: set<nat>, needed: set<nat>)
    requires Inv(c, s, all, roots, needed)
    ensures |s.queue| >= |all - needed|
  {
    Open(c, s, all, roots, needed);
    assert all - needed <= Elems(s.queue);
    SubsetCardinality(all - needed, Elems(s.queue));
    DistinctCardinality(s.queue);
  }

  /** With no doomed driver, driver_init returns exactly when at most one driver is not needed. */
  lemma ReturnsIff(c: Config, s: State, all: set<nat>, roots: set<nat>, needed: set<nat>, rank: map<nat, nat>)
    requires Start(s, all, roots) && Setting(c, all, roots, needed, rank) && !Doomed(c, needed)
    ensures (exists n: nat :: Iter(c, s, n).Done?) <==> |all - needed| <= 1
  {
    StartInv(c, s, all, roots, needed);
    if |all - needed| <= 1 {
      var n, end := LoadsAllNeeded(c, s, all, roots, needed, rank);
    } else {
      forall n: nat
        ensures !Iter(c, s, n).Done?
      {
        RotatesForever(c, s, all, roots, needed, rank, n);
      }
    }
  }

  // ---- Two configurations it does not handle ----

  /** Driver 1 needs driver 0, whose probe fails: the second visit dereferences NULL. */
  lemma FailedDependencyCrashes()
    ensures var c, s := Config(map[1 := [0]], {1}), State([0, 1], {}, [], []);
      && Start(s, {0, 1}, {0, 1}) && Setting(c, {0, 1}, {0, 1}, {0, 1}, map[0 := 0, 1 := 1])
      && Iter(c, s, 2) == Crash
  {
    var c, s := Config(map[1 := [0]], {1}), State([0, 1], {}, [], []);
    var s1 := State([1], {}, [], [0]);
    assert [0, 1][1..] == [1] && [0][1..] == [];
    assert Deps(c, 0) == [] && Deps(c, 1) == [0];
    assert Visit(c, s) == Running(s1);
    assert Missing([0], []) == Some(0);
    assert Visit(c, s1) == Crash;
    IterNext(c, s, 1);
    assert Iter(c, s1, 1) == Crash;
  }

  /** Two drivers that load fine, both on demand and needed by nobody: the loop never ends. */
  lemma IdleDriversRotate(n: nat)
    ensures var c, s := Config(map[], {0, 1}), State([0, 1], {0, 1}, [], []);
      && Start(s, {0, 1}, {}) && Setting(c, {0, 1}, {}, {}, map[0 := 0, 1 := 1])
      && Iter(c, s, n).Running?
  {
    var c, s := Config(map[], {0, 1}), State([0, 1], {0, 1}, [], []);
    StartInv(c, s, {0, 1}, {}, {});
    assert |{0, 1} - {}| == 2 by { assert {0, 1} - {} == {0, 1}; }
    RotatesForever(c, s, {0, 1}, {}, {}, map[0 := 0, 1 := 1], n);
  }
}
