/**
 The address-space side of vmalloc: best-fit splitting, deferred frees and the
 sort-and-coalesce defragmenter, over three lists of areas.
 */
module VmArena {
  import opened Common
  import opened Machine

  /** struct vma: addresses and sizes in bytes. */
  datatype Area = Area(start: nat, size: nat) {
    function End(): nat {
      start + size
    }
  }

  // ---- Vocabulary ----

  ghost predicate Contains(a: Area, p: int) {
    a.start <= p < a.End()
  }

  /** How many areas of the list contain address p. */
  ghost function Hits(l: seq<Area>, p: int): nat {
    if l == [] then 0 else (if Contains(l[0], p) then 1 else 0) + Hits(l[1..], p)
  }

  ghost predicate AreaOk(a: Area) {
    a.size >= PAGE_SIZE && a.start % PAGE_SIZE == 0 && a.size % PAGE_SIZE == 0
  }

  ghost predicate AllOk(l: seq<Area>) {
    forall i :: 0 <= i < |l| ==> AreaOk(l[i])
  }

  /** In address order without overlap. */
  ghost predicate Sorted(l: seq<Area>) {
    forall i, j :: 0 <= i < j < |l| ==> l[i].End() <= l[j].start
  }

  /** In address order with a gap between any two: nothing left to merge. */
  ghost predicate Coalesced(l: seq<Area>) {
    forall i, j :: 0 <= i < j < |l| ==> l[i].End() < l[j].start
  }

  ghost predicate Apart(a: Area, b: Area) {
    a.End() <= b.start || b.End() <= a.start
  }

  lemma {:induction false} HitsConcat(l: seq<Area>, r: seq<Area>, p: int)
    ensures Hits(l + r, p) == Hits(l, p) + Hits(r, p)
  {
    if l == [] {
      assert l + r == r;
    } else {
      assert (l + r)[1..] == l[1..] + r;
      HitsConcat(l[1..], r, p);
    }
  }

  /** The contribution of one position of a list. */
  lemma HitsSplit(l: seq<Area>, i: nat, p: int)
    requires i < |l|
    ensures Hits(l, p) == Hits(l[..i], p) + (if Contains(l[i], p) then 1 else 0) + Hits(l[i + 1..], p)
  {
    assert l == l[..i] + ([l[i]] + l[i + 1..]);
    HitsConcat(l[..i], [l[i]] + l[i + 1..], p);
    HitsConcat([l[i]], l[i + 1..], p);
    assert Hits([l[i]], p) == if Contains(l[i], p) then 1 else 0;
  }

  lemma {:induction false} HitsNone(l: seq<Area>, p: int)
    requires forall i :: 0 <= i < |l| ==> !Contains(l[i], p)
    ensures Hits(l, p) == 0
  {
    if l != [] {
      HitsNone(l[1..], p);
    }
  }

  // ---- vma_cmp and v_ilist_insert ----

  /** None where the source returns an uninitialised value: overlapping areas. */
  function VmaCmp(l: Area, r: Area): (c: Option<int>)
    requires l.size > 0 && r.size > 0
    ensures c.Some? <==> Apart(l, r)
  {
    if l.start >= r.End() then Some(1)
    else if l.End() == r.start then Some(0)
    else if l.End() <= r.start then Some(-1)
    else None
  }

  ghost predicate InsertedAt(l: seq<Area>, a: Area, k: nat, r: seq<Area>) {
    k <= |l| && r == l[..k] + [a] + l[k..]
  }

  /** v_ilist_insert with vma_cmp, on a sorted list that a does not overlap. */
  method InsertSorted(a: Area, l: seq<Area>) returns (r: seq<Area>)
    requires a.size > 0 && AllOk(l) && Sorted(l) && forall i :: 0 <= i < |l| ==> Apart(a, l[i])
    ensures Sorted(r) && exists k :: InsertedAt(l, a, k, r)
  {
    var res, resPrev, pos := 0, 1, 0;
    while pos < |l|
      invariant 0 <= pos <= |l| && resPrev == 1 && (pos == 0 ==> res == 0) && (pos > 0 ==> res == 1)
      invariant forall i :: 0 <= i < pos ==> l[i].End() <= a.start
    {
      var c := VmaCmp(a, l[pos]);
      assert c.Some?; // never asked about overlapping areas
      res := c.value;
      if res == 0 || resPrev != res {
        res := if resPrev == res then 1 else 0;
        break;
      }
      resPrev := res;
      pos := pos + 1;
    }
    if res == -1 {
      r := [a] + l;
    } else if res == 0 {
      r := l[..pos] + [a] + l[pos..];
      assert InsertedAt(l, a, pos, r);
    } else {
      r := l + [a];
      assert InsertedAt(l, a, |l|, r);
    }
  }

  lemma InsertKeeps(l: seq<Area>, a: Area, k: nat, r: seq<Area>, p: int)
    requires InsertedAt(l, a, k, r)
    ensures Hits(r, p) == Hits(l, p) + (if Contains(a, p) then 1 else 0)
    ensures AllOk(l) && AreaOk(a) ==> AllOk(r)
  {
    assert r[..k] == l[..k] && r[k + 1..] == l[k..];
    HitsSplit(r, k, p);
    assert l == l[..k] + l[k..];
    HitsConcat(l[..k], l[k..], p);
  }

  // ---- vma_merge ----

  /** assert_invariants of the source. */
  predicate MergeAsserts(a: Area, b: Area) {
    && a.size >= PAGE_SIZE && b.size >= PAGE_SIZE
    && !(a.start >= b.start && a.start < b.End())
    && !(a.End() > b.start && a.End() < b.End())
  }

  datatype Merge = Merge(done: bool, into: Area)

  /** The merged area covers both; it is made exactly when they touch. */
  function VmaMerge(a: Area, into: Area): (m: Merge)
    requires MergeAsserts(a, into)
    ensures m.done <==> a.End() == into.start || into.End() == a.start
    ensures !m.done ==> m.into == into
    ensures m.done ==> forall p: int :: Contains(m.into, p) <==> Contains(a, p) || Contains(into, p)
    ensures AreaOk(a) && AreaOk(into) ==> AreaOk(m.into)
  {
    if a.End() == into.start then Merge(true, Area(a.start, into.size + a.size))
    else if a.start == into.End() then Merge(true, Area(into.start, into.size + a.size))
    else Merge(false, into)
  }

  /** Replacing neighbours k and k + 1 by one area that covers both. */
  lemma MergePair(l: seq<Area>, k: nat, m: Area)
    requires k + 1 < |l| && Sorted(l) && AllOk(l) && AreaOk(m) && l[k].End() == l[k + 1].start
    requires m.start == l[k].start && m.End() == l[k + 1].End()
    ensures var r := l[..k] + [m] + l[k + 2..]; Sorted(r) && AllOk(r) && forall p :: Hits(r, p) == Hits(l, p)
  {
    var r := l[..k] + [m] + l[k + 2..];
    forall i | 0 <= i < |r|
      ensures r[i] == if i < k then l[i] else if i == k then m else l[i + 1]
    {
    }
    forall p
      ensures Hits(r, p) == Hits(l, p)
    {
      HitsSplit(l, k, p);
      HitsSplit(l[k + 1..], 0, p);
      HitsSplit(r, k, p);
      assert l[k + 1..][1..] == l[k + 2..] && r[..k] == l[..k] && r[k + 1..] == l[k + 2..];
      assert l[k + 1..][..0] == [];
    }
  }

  /** The second loop of do_defrag. */
  method Coalesce(l: seq<Area>) returns (r: seq<Area>)
    requires Sorted(l) && AllOk(l)
    ensures Coalesced(r) && AllOk(r) && forall p :: Hits(r, p) == Hits(l, p)
  {
    r := l;
    var k := 0;
    while k < |r|
      invariant 0 <= k <= |r| && Sorted(r) && AllOk(r)
      invariant forall p :: Hits(r, p) == Hits(l, p)
      invariant forall i, j :: 0 <= i < j < k ==> r[i].End() < r[j].start
      decreases |r| - k
    {
      if k > 0 {
        assert MergeAsserts(r[k], r[k - 1]); // vma_merge's assertions hold
        var m := VmaMerge(r[k], r[k - 1]);
        if m.done {
          MergePair(r, k - 1, m.into);
          r := r[..k - 1] + [m.into] + r[k + 1..];
          continue;
        }
      }
      if k + 1 < |r| {
        assert MergeAsserts(r[k], r[k + 1]);
        var m := VmaMerge(r[k], r[k + 1]);
        if m.done {
          MergePair(r, k, m.into);
          r := r[..k] + [m.into] + r[k + 2..];
          continue;
        }
      }
      k := k + 1;
    }
  }

  lemma HitsSome(l: seq<Area>, i: nat, p: int)
    requires i < |l| && Contains(l[i], p)
    ensures Hits(l, p) >= 1
  {
    HitsSplit(l, i, p);
  }

  /**
   Sorted, merged lists are canonical: two of them that cover the same addresses are equal,
   so the result of a defragmentation is determined by what was free.
   */
  lemma {:induction false} CoalescedUnique(l: seq<Area>, m: seq<Area>)
    requires Coalesced(l) && Coalesced(m) && AllOk(l) && AllOk(m) && forall p: int :: Hits(l, p) == Hits(m, p)
    ensures l == m
  {
    if l == [] || m == [] {
      if l != [] { HitsSome(l, 0, l[0].start); }
      if m != [] { HitsSome(m, 0, m[0].start); }
    } else {
      FirstBelow(l, m);
      FirstBelow(m, l);
      assert l[0] == m[0];
      forall p: int
        ensures Hits(l[1..], p) == Hits(m[1..], p)
      {
        assert Hits(l, p) == Hits(m, p);
      }
      CoalescedUnique(l[1..], m[1..]);
    }
  }

  /** The first areas of lists covering the same addresses start and end alike (one half). */
  lemma FirstBelow(l: seq<Area>, m: seq<Area>)
    requires Coalesced(l) && Coalesced(m) && AllOk(l) && AllOk(m) && l != [] && m != []
    requires forall p: int :: Hits(l, p) == Hits(m, p)
    ensures m[0].start <= l[0].start
    ensures m[0].start == l[0].start ==> l[0].End() <= m[0].End()
  {
    var s, e := l[0].start, m[0].End();
    if s < m[0].start {
      HitsSome(l, 0, s);
      HitsNone(m, s);
    }
    if m[0].start == s && e < l[0].End() {
      HitsSome(l, 0, e);
      HitsNone(m, e);
    }
  }

  // ---- The three lists and what moves between them ----

  datatype Lists = Lists(free: seq<Area>, used: seq<Area>, queue: seq<Area>)

  ghost function Cover(s: Lists, p: int): nat {
    Hits(s.free, p) + Hits(s.used, p) + Hits(s.queue, p)
  }

  /** Every address of [lo, hi) is in exactly one area of exactly one list; free is in order. */
  ghost predicate Inv(s: Lists, lo: int, hi: int) {
    && AllOk(s.free) && AllOk(s.used) && AllOk(s.queue) && Sorted(s.free)
    && forall p: int :: Cover(s, p) == if lo <= p < hi then 1 else 0
  }

  /** The first of the smallest areas that are large enough. */
  ghost predicate BestFit(free: seq<Area>, bytes: nat, i: nat) {
    && i < |free| && free[i].size >= bytes
    && (forall j :: 0 <= j < |free| && free[j].size >= bytes ==> free[i].size <= free[j].size)
    && (forall j :: 0 <= j < i && free[j].size >= bytes ==> free[i].size < free[j].size)
  }

  ghost predicate Alloc(s: Lists, bytes: nat, a: Area, s': Lists) {
    exists i :: BestFit(s.free, bytes, i) && AllocAt(s, bytes, i, a, s')
  }

  ghost predicate AllocAt(s: Lists, bytes: nat, i: nat, a: Area, s': Lists)
    requires i < |s.free|
  {
    var fit := s.free[i];
    && fit.size >= bytes && a == Area(fit.start, bytes)
    && s'.free == (if fit.size > bytes then s.free[i := Area(fit.start + bytes, fit.size - bytes)]
                   else s.free[..i] + s.free[i + 1..])
    && s'.used == s.used + [a] && s'.queue == s.queue
  }

  ghost predicate FreeAt(s: Lists, ptr: nat, i: nat, a: Area, s': Lists) {
    && i < |s.used| && a == s.used[i] && a.start == ptr
    && s' == Lists(s.free, s.used[..i] + s.used[i + 1..], s.queue + [a])
  }

  ghost predicate Defrag(s: Lists, s': Lists) {
    && Coalesced(s'.free) && AllOk(s'.free) && s'.used == s.used && s'.queue == []
    && forall p: int :: Hits(s'.free, p) == Hits(s.free, p) + Hits(s.queue, p)
  }

  lemma AllocMoves(s: Lists, bytes: nat, i: nat, a: Area, s': Lists, p: int)
    requires bytes > 0 && i < |s.free| && AllocAt(s, bytes, i, a, s')
    ensures Hits(s'.used, p) == Hits(s.used, p) + (if Contains(a, p) then 1 else 0)
    ensures Hits(s'.free, p) == Hits(s.free, p) - (if Contains(a, p) then 1 else 0)
  {
    HitsConcat(s.used, [a], p);
    assert Hits([a], p) == if Contains(a, p) then 1 else 0;
    HitsSplit(s.free, i, p);
    if s.free[i].size > bytes {
      HitsSplit(s'.free, i, p);
      assert s'.free[..i] == s.free[..i] && s'.free[i + 1..] == s.free[i + 1..];
    } else {
      HitsConcat(s.free[..i], s.free[i + 1..], p);
    }
  }

  /** Taking from the front of an area, or taking it whole, keeps the free list in address order. */
  lemma AllocKeepsOrder(free: seq<Area>, bytes: nat, i: nat, free': seq<Area>)
    requires AllOk(free) && Sorted(free) && i < |free| && bytes % PAGE_SIZE == 0 && 0 < bytes <= free[i].size
    requires free' == (if free[i].size > bytes then free[i := Area(free[i].start + bytes, free[i].size - bytes)]
                       else free[..i] + free[i + 1..])
    ensures AllOk(free') && Sorted(free')
  {
    assert AreaOk(free[i]);
    if free[i].size == bytes {
      assert forall j :: 0 <= j < |free'| ==> free'[j] == free[if j < i then j else j + 1];
    }
  }

  lemma AllocKeepsInv(s: Lists, bytes: nat, i: nat, a: Area, s': Lists, lo: int, hi: int)
    requires Inv(s, lo, hi) && bytes > 0 && bytes % PAGE_SIZE == 0 && i < |s.free| && AllocAt(s, bytes, i, a, s')
    ensures Inv(s', lo, hi)
    ensures forall p: int :: Hits(s'.used, p) == Hits(s.used, p) + (if Contains(a, p) then 1 else 0)
  {
    AllocKeepsOrder(s.free, bytes, i, s'.free);
    assert AreaOk(s.free[i]) && AllOk(s'.used);
    forall p: int
      ensures Hits(s'.used, p) == Hits(s.used, p) + (if Contains(a, p) then 1 else 0)
      ensures Cover(s', p) == Cover(s, p)
    {
      AllocMoves(s, bytes, i, a, s', p);
    }
  }

  lemma FreeKeepsInv(s: Lists, ptr: nat, i: nat, a: Area, s': Lists, lo: int, hi: int)
    requires Inv(s, lo, hi) && FreeAt(s, ptr, i, a, s')
    ensures Inv(s', lo, hi)
    ensures forall p: int :: Hits(s'.used, p) == Hits(s.used, p) - (if Contains(a, p) then 1 else 0)
  {
    forall p: int
      ensures Hits(s'.used, p) == Hits(s.used, p) - (if Contains(a, p) then 1 else 0)
      ensures Cover(s', p) == Cover(s, p)
    {
      HitsConcat(s.queue, [a], p);
      HitsSplit(s.used, i, p);
      HitsConcat(s.used[..i], s.used[i + 1..], p);
    }
  }

  lemma DefragKeepsInv(s: Lists, s': Lists, lo: int, hi: int)
    requires Inv(s, lo, hi) && Defrag(s, s')
    ensures Inv(s', lo, hi)
  {
    forall p: int
      ensures Cover(s', p) == Cover(s, p)
    {
      assert Hits(s'.queue, p) == 0;
    }
  }

  /** Areas of lists that together cover no address twice do not overlap. */
  lemma ApartLists(l: seq<Area>, m: seq<Area>, i: nat, j: nat)
    requires i < |l| && j < |m| && AllOk(l) && AllOk(m) && forall p: int :: Hits(l, p) + Hits(m, p) <= 1
    ensures Apart(l[i], m[j])
  {
    if !Apart(l[i], m[j]) {
      var p := if l[i].start < m[j].start then m[j].start else l[i].start;
      assert Hits(l, p) + Hits(m, p) <= 1;
      HitsSome(l, i, p);
      HitsSome(m, j, p);
    }
  }

  /** Live allocations never overlap each other. */
  lemma UsedApart(s: Lists, lo: int, hi: int, i: nat, j: nat)
    requires Inv(s, lo, hi) && i < j < |s.used|
    ensures Apart(s.used[i], s.used[j])
  {
    if !Apart(s.used[i], s.used[j]) {
      var p := if s.used[i].start < s.used[j].start then s.used[j].start else s.used[i].start;
      assert Cover(s, p) <= 1;
      HitsSplit(s.used, i, p);
      HitsSome(s.used[i + 1..], j - i - 1, p);
    }
  }

  lemma InitialInv(lo: nat, hi: nat)
    requires lo + PAGE_SIZE <= hi && lo % PAGE_SIZE == 0 && hi % PAGE_SIZE == 0
    ensures Inv(Lists([Area(lo, hi - lo)], [], []), lo, hi)
  {
    var a := Area(lo, hi - lo);
    forall p: int
      ensures Cover(Lists([a], [], []), p) == if lo <= p < hi then 1 else 0
    {
      assert [a][1..] == [] && Hits([], p) == 0;
    }
  }

  // ---- The lists updated in place ----

  /** do_defrag leaves nothing to chance: what was free and queued determines the outcome. */
  lemma DefragDetermined(s: Lists, t: Lists, u: Lists)
    requires Defrag(s, t) && Defrag(s, u)
    ensures t == u
  {
    forall p: int
      ensures Hits(t.free, p) == Hits(u.free, p)
    {
    }
    CoalescedUnique(t.free, u.free);
  }

  class Arena {
    var free: seq<Area>
    var used: seq<Area>
    var queue: seq<Area>
    const lo: nat
    const hi: nat

    ghost function St(): Lists
      reads this
    {
      Lists(free, used, queue)
    }

    ghost predicate Valid()
      reads this
    {
      Inv(St(), lo, hi)
    }

    /** vma_init: one free area spanning the whole region. */
    constructor (lo: nat, hi: nat)
      requires lo + PAGE_SIZE <= hi && lo % PAGE_SIZE == 0 && hi % PAGE_SIZE == 0
      ensures Valid() && this.lo == lo && this.hi == hi && used == [] && queue == []
    {
      this.lo, this.hi := lo, hi;
      free, used, queue := [Area(lo, hi - lo)], [], [];
      new;
      InitialInv(lo, hi);
    }

    /** find_space. None where the source panics: no free area is large enough. */
    method FindSpace(pages: nat) returns (r: Option<Area>)
      requires Valid() && pages > 0
      modifies this`free, this`used
      ensures Valid()
      ensures r.None? ==> St() == old(St()) && forall j :: 0 <= j < |free| ==> free[j].size < pages * PAGE_SIZE
      ensures r.Some? ==> Alloc(old(St()), pages * PAGE_SIZE, r.value, St())
    {
      var bytes := pages * PAGE_SIZE;
      var fit := -1;
      for pos := 0 to |free|
        invariant -1 <= fit < pos
        invariant fit == -1 ==> forall j :: 0 <= j < pos ==> free[j].size < bytes
        invariant fit >= 0 ==>
          && free[fit].size >= bytes
          && (forall j :: 0 <= j < pos && free[j].size >= bytes ==> free[fit].size <= free[j].size)
          && (forall j :: 0 <= j < fit && free[j].size >= bytes ==> free[fit].size < free[j].size)
      {
        if fit == -1 && free[pos].size >= bytes {
          fit := pos;
        }
        if fit != -1 && free[pos].size < free[fit].size && free[pos].size >= bytes {
          fit := pos;
        }
      }
      if fit == -1 {
        return None;
      }
      assert BestFit(free, bytes, fit);
      var area := free[fit];
      if area.size > bytes {
        free := free[fit := Area(area.start + bytes, area.size - bytes)];
      } else {
        free := free[..fit] + free[fit + 1..];
      }
      var a := Area(area.start, bytes);
      used := used + [a];
      assert AllocAt(old(St()), bytes, fit, a, St());
      AllocKeepsInv(old(St()), bytes, fit, a, St(), lo, hi);
      r := Some(a);
    }

    /** The search of vmfree: the first live allocation at ptr, or -1. */
    method FindUsed(ptr: nat) returns (i: int)
      ensures -1 <= i < |used|
      ensures i == -1 ==> forall j :: 0 <= j < |used| ==> used[j].start != ptr
      ensures i >= 0 ==> used[i].start == ptr && forall j :: 0 <= j < i ==> used[j].start != ptr
    {
      for pos := 0 to |used|
        invariant forall j :: 0 <= j < pos ==> used[j].start != ptr
      {
        if used[pos].start == ptr {
          return pos;
        }
      }
      i := -1;
    }

    /** vmfree's last step: from the list of allocations to the end of the defrag queue. */
    method Retire(i: nat)
      requires Valid() && i < |used|
      modifies this`used, this`queue
      ensures Valid() && FreeAt(old(St()), old(used)[i].start, i, old(used)[i], St())
    {
      var a := used[i];
      used := used[..i] + used[i + 1..];
      queue := queue + [a];
      FreeKeepsInv(old(St()), a.start, i, a, St(), lo, hi);
    }

    /** do_defrag. */
    method DoDefrag()
      requires Valid()
      modifies this`free, this`queue
      ensures Valid() && Defrag(old(St()), St())
    {
      forall p: int
        ensures Hits(free, p) + Hits(queue, p) <= 1
      {
        assert Cover(St(), p) <= 1;
      }
      while queue != []
        invariant AllOk(free) && AllOk(queue) && Sorted(free) && used == old(used)
        invariant forall p: int :: Hits(free, p) + Hits(queue, p) == Hits(old(free), p) + Hits(old(queue), p)
        invariant forall p: int :: Hits(free, p) + Hits(queue, p) <= 1
        decreases |queue|
      {
        var a := queue[0];
        forall i | 0 <= i < |free|
          ensures Apart(a, free[i])
        {
          ApartLists(queue, free, 0, i);
        }
        ghost var free0, queue0 := free, queue;
        queue := queue[1..];
        free := InsertSorted(a, free);
        ghost var k :| InsertedAt(free0, a, k, free);
        forall p: int
          ensures Hits(free, p) + Hits(queue, p) == Hits(free0, p) + Hits(queue0, p)
        {
          InsertKeeps(free0, a, k, free, p);
        }
        InsertKeeps(free0, a, k, free, 0);
      }
      free := Coalesce(free);
      assert Defrag(old(St()), St());
      DefragKeepsInv(old(St()), St(), lo, hi);
    }
  }
}
