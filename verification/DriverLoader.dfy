/** driver_init on its lists, for configurations that neither crash nor rotate for ever. */
module DriverLoader {
  import opened Common
  import opened Drivers

  class Loader {
    const config: Config
    var queue: seq<nat>
    var onDemand: set<nat>
    var loaded: seq<nat>
    var failed: seq<nat>

    ghost function St(): State
      reads this
    {
      State(queue, onDemand, loaded, failed)
    }

    constructor (config: Config, queue: seq<nat>, onDemand: set<nat>)
      ensures this.config == config && St() == State(queue, onDemand, [], [])
    {
      this.config, this.queue, this.onDemand := config, queue, onDemand;
      loaded, failed := [], [];
    }

    /** deps_loaded, d having been taken off the queue: clears the flag of the first missing one. */
    method DepsLoaded(d: nat) returns (ok: bool)
      requires var m := Missing(Deps(config, d), loaded); m.Some? ==> m.value in queue
      modifies this`onDemand
      ensures var m := Missing(Deps(config, d), loaded);
        ok == m.None? && onDemand == if m.Some? then old(onDemand) - {m.value} else old(onDemand)
    {
      var deps := Deps(config, d);
      var idx := 0;
      while idx < |deps|
        invariant 0 <= idx <= |deps| && onDemand == old(onDemand)
        invariant Missing(deps[idx..], loaded) == Missing(deps, loaded)
      {
        var dep := deps[idx];
        assert deps[idx..][0] == dep && deps[idx..][1..] == deps[idx + 1..];
        if dep !in loaded {
          onDemand := onDemand - {dep};
          return false;
        }
        idx := idx + 1;
      }
      ok := true;
    }

    /** The loop body: what Visit says, and whether the front driver was the only one. */
    method VisitFront() returns (last: bool)
      requires queue != [] && !Visit(config, St()).Crash?
      modifies this
      ensures last == (|old(queue)| == 1)
      ensures Visit(config, old(St())) == if last then Done(St()) else Running(St())
    {
      last := |queue| == 1;
      var d := queue[0];
      queue := queue[1..];
      var postpone := d in onDemand;
      if !postpone {
        var ok := DepsLoaded(d);
        postpone := !ok;
      }
      if postpone {
        queue := queue + [d];
      } else if d in config.good {
        loaded := loaded + [d];
      } else {
        failed := failed + [d];
      }
    }

    method DriverInit(ghost all: set<nat>, ghost roots: set<nat>, ghost needed: set<nat>, ghost rank: map<nat, nat>)
      requires Start(St(), all, roots) && Setting(config, all, roots, needed, rank)
      requires !Doomed(config, needed) && |all - needed| <= 1
      modifies this
      ensures queue == [] && DepsFirst(config, loaded)
      ensures Elems(loaded) == needed * config.good && Elems(failed) == needed - config.good
    {
      StartInv(config, St(), all, roots, needed);
      LoadLoop(all, roots, needed, rank);
      SettledState(config, St(), all, roots, needed);
      NoRejects(queue, onDemand);
      GiveUp();
    }

    /** The first loop: rotate until every needed driver has been probed. */
    method LoadLoop(ghost all: set<nat>, ghost roots: set<nat>, ghost needed: set<nat>, ghost rank: map<nat, nat>)
      requires Inv(config, St(), all, roots, needed) && Setting(config, all, roots, needed, rank)
      requires !Doomed(config, needed) && |all - needed| <= 1
      modifies this
      ensures Inv(config, St(), all, roots, needed) && Pending(St(), needed) == {}
    {
      while queue != []
        invariant Inv(config, St(), all, roots, needed)
        decreases |Pending(St(), needed)|, |onDemand|, Distance(config, St(), queue)
      {
        ghost var s := St();
        VisitSafe(config, s, all, roots, needed, rank);
        if Pending(s, needed) != {} {
          VisitProgress(config, s, all, roots, needed, rank);
        } else {
          SettledState(config, s, all, roots, needed);
          LastVisit(config, s);
        }
        var last := VisitFront();
        if last {
          Emptied(State([], {}, [], []), needed);
          break;
        }
      }
    }

    /** The second loop: drivers still on demand are dropped, any other has failed. */
    method GiveUp()
      modifies this`queue, this`failed
      ensures queue == [] && failed == old(failed) + Rejects(old(queue), onDemand)
    {
      while queue != []
        invariant failed + Rejects(queue, onDemand) == old(failed) + Rejects(old(queue), onDemand)
        decreases |queue|
      {
        var d := queue[0];
        RejectsHead(failed, queue, onDemand);
        queue := queue[1..];
        if d !in onDemand {
          failed := failed + [d];
        }
      }
    }
  }

  lemma RejectsHead(failed: seq<nat>, q: seq<nat>, onDemand: set<nat>)
    requires q != []
    ensures failed + Rejects(q, onDemand)
              == (if q[0] in onDemand then failed else failed + [q[0]]) + Rejects(q[1..], onDemand)
  {
  }

  function Rejects(q: seq<nat>, onDemand: set<nat>): seq<nat> {
    if q == [] then [] else (if q[0] in onDemand then [] else [q[0]]) + Rejects(q[1..], onDemand)
  }

  lemma {:induction false} NoRejects(q: seq<nat>, onDemand: set<nat>)
    requires forall d :: d in q ==> d in onDemand
    ensures Rejects(q, onDemand) == []
  {
    if q != [] {
      NoRejects(q[1..], onDemand);
    }
  }
}
