/**
 vmalloc and vmfree: the area lists and the page tables kept in step. Whatever the
 sequence of calls, exactly the pages of live allocations are backed by frames.
 */
module VirtualMemory {
  import opened Common
  import PageTables
  import AddressSpace
  import opened Areas = VmArena
  import opened Machine

  /** The addresses of page q are in the areas of the list. */
  ghost predicate PageIn(l: seq<Area>, q: int) {
    Hits(l, q * PAGE_SIZE) >= 1
  }

  /** A page of the region translates exactly when it belongs to a live allocation. */
  ghost predicate InStep(used: seq<Area>, s: PageTables.Space, lo: nat, hi: nat) {
    forall q: nat :: lo <= q < hi ==> (PageTables.Lookup(s, q).Some? <==> PageIn(used, q))
  }

  function PageRoundUp(x: nat): (r: nat)
    requires x + PAGE_SIZE - 1 < WORD
    ensures r % PAGE_SIZE == 0 && x <= r < x + PAGE_SIZE
  {
    (x + PAGE_SIZE - 1) / PAGE_SIZE * PAGE_SIZE
  }

  /** A page-aligned area contains the start of page q exactly when q is one of its pages. */
  lemma AreaPages(a: Area, q: nat)
    requires AreaOk(a)
    ensures Contains(a, q * PAGE_SIZE) <==> a.start / PAGE_SIZE <= q < a.start / PAGE_SIZE + a.size / PAGE_SIZE
    ensures a.End() / PAGE_SIZE == a.start / PAGE_SIZE + a.size / PAGE_SIZE
  {
  }

  /** The area find_space carves out was free, so none of its pages is mapped. */
  lemma AllocatedUnmapped(s: Lists, bytes: nat, i: nat, a: Area, s': Lists, t: PageTables.Space, lo: nat, hi: nat, q: nat)
    requires Inv(s, lo * PAGE_SIZE, hi * PAGE_SIZE) && InStep(s.used, t, lo, hi)
    requires bytes > 0 && bytes % PAGE_SIZE == 0 && i < |s.free| && AllocAt(s, bytes, i, a, s')
    requires a.start / PAGE_SIZE <= q < a.start / PAGE_SIZE + a.size / PAGE_SIZE
    ensures lo <= q < hi && PageTables.Lookup(t, q) == None
  {
    assert AreaOk(s.free[i]);
    AreaPages(a, q);
    var p := q * PAGE_SIZE;
    assert Contains(s.free[i], p);
    HitsSome(s.free, i, p);
    assert Cover(s, p) <= 1;
    assert !PageIn(s.used, q);
  }

  lemma AllocKeepsStep(s: Lists, bytes: nat, i: nat, a: Area, s': Lists,
                       t: PageTables.Space, own: map<nat, PageTables.Owner>,
                       t': PageTables.Space, own': map<nat, PageTables.Owner>, lo: nat, hi: nat)
    requires Inv(s, lo * PAGE_SIZE, hi * PAGE_SIZE) && InStep(s.used, t, lo, hi)
    requires bytes > 0 && bytes % PAGE_SIZE == 0 && i < |s.free| && AllocAt(s, bytes, i, a, s')
    requires PageTables.Mapped(t, own, a.start / PAGE_SIZE, a.size / PAGE_SIZE, t', own')
    ensures InStep(s'.used, t', lo, hi)
  {
    AllocKeepsInv(s, bytes, i, a, s', lo * PAGE_SIZE, hi * PAGE_SIZE);
    assert AreaOk(s.free[i]);
    forall q: nat | lo <= q < hi
      ensures PageTables.Lookup(t', q).Some? <==> PageIn(s'.used, q)
    {
      AreaPages(a, q);
      assert Hits(s'.used, q * PAGE_SIZE) == Hits(s.used, q * PAGE_SIZE) + (if Contains(a, q * PAGE_SIZE) then 1 else 0);
      assert PageTables.Lookup(t, q).Some? <==> PageIn(s.used, q);
      assert if Contains(a, q * PAGE_SIZE) then PageTables.MappedAt(t, own, q, t', own')
             else PageTables.SameEntry(t, q, t');
    }
  }

  lemma FreedIsMapped(s: Lists, i: nat, t: PageTables.Space, lo: nat, hi: nat, q: nat)
    requires Inv(s, lo * PAGE_SIZE, hi * PAGE_SIZE) && InStep(s.used, t, lo, hi) && i < |s.used|
    requires s.used[i].start / PAGE_SIZE <= q < s.used[i].start / PAGE_SIZE + s.used[i].size / PAGE_SIZE
    ensures lo <= q < hi && PageTables.Lookup(t, q).Some?
  {
    assert AreaOk(s.used[i]);
    AreaPages(s.used[i], q);
    HitsSome(s.used, i, q * PAGE_SIZE);
    assert Cover(s, q * PAGE_SIZE) >= 1 && PageIn(s.used, q);
  }

  lemma FreeKeepsStep(s: Lists, ptr: nat, i: nat, a: Area, s': Lists,
                      t: PageTables.Space, own: map<nat, PageTables.Owner>,
                      t': PageTables.Space, own': map<nat, PageTables.Owner>, lo: nat, hi: nat)
    requires Inv(s, lo * PAGE_SIZE, hi * PAGE_SIZE) && InStep(s.used, t, lo, hi) && FreeAt(s, ptr, i, a, s')
    requires PageTables.Unmapped(t, own, a.start / PAGE_SIZE, a.size / PAGE_SIZE, t', own')
    ensures InStep(s'.used, t', lo, hi)
  {
    FreeKeepsInv(s, ptr, i, a, s', lo * PAGE_SIZE, hi * PAGE_SIZE);
    assert AreaOk(a);
    forall q: nat | lo <= q < hi
      ensures PageTables.Lookup(t', q).Some? <==> PageIn(s'.used, q)
    {
      var p := q * PAGE_SIZE;
      AreaPages(a, q);
      assert Hits(s'.used, p) == Hits(s.used, p) - (if Contains(a, p) then 1 else 0);
      assert Hits(s.used, p) <= Cover(s, p) <= 1;
      assert PageTables.Lookup(t, q).Some? <==> PageIn(s.used, q);
    }
  }

  /** Any two pages of live allocations are backed, by different frames, neither of them free. */
  lemma BackedExclusively(s: Lists, t: PageTables.Space, own: map<nat, PageTables.Owner>, lo: nat, hi: nat, q: nat, r: nat)
    requires Inv(s, lo * PAGE_SIZE, hi * PAGE_SIZE) && InStep(s.used, t, lo, hi) && PageTables.Valid(t, own, lo, hi)
    requires q != r && PageIn(s.used, q) && PageIn(s.used, r)
    ensures var f, g := PageTables.Lookup(t, q), PageTables.Lookup(t, r);
      f.Some? && g.Some? && f != g && f.value !in t.pool && g.value !in t.pool
  {
    assert Cover(s, q * PAGE_SIZE) >= 1 && Cover(s, r * PAGE_SIZE) >= 1;
    PageTables.Open(t, own, lo, hi);
    assert PageTables.Lookup(t, q).Some? && PageTables.Lookup(t, r).Some?;
  }

  /**
   Any two bytes of live allocations have different physical addresses, on frames that are not
   free, at the same place within the page.
   */
  lemma BytesSeparate(s: Lists, t: PageTables.Space, own: map<nat, PageTables.Owner>, lo: nat, hi: nat, va: nat, vb: nat)
    requires Inv(s, lo * PAGE_SIZE, hi * PAGE_SIZE) && InStep(s.used, t, lo, hi) && PageTables.Valid(t, own, lo, hi)
    requires va != vb && PageIn(s.used, va / PAGE_SIZE) && PageIn(s.used, vb / PAGE_SIZE)
    ensures var x, y := PageTables.GetPhysicalAddress(t, va), PageTables.GetPhysicalAddress(t, vb);
      && x.Some? && y.Some? && x != y
      && x.value % PAGE_SIZE == va % PAGE_SIZE && x.value / PAGE_SIZE !in t.pool
  {
    var q, r := va / PAGE_SIZE, vb / PAGE_SIZE;
    LiveBacked(s, t, own, lo, hi, q);
    LiveBacked(s, t, own, lo, hi, r);
    PageTables.AddressIs(t, va);
    PageTables.AddressIs(t, vb);
    if q != r {
      BackedExclusively(s, t, own, lo, hi, q, r);
    }
  }

  lemma LiveBacked(s: Lists, t: PageTables.Space, own: map<nat, PageTables.Owner>, lo: nat, hi: nat, q: nat)
    requires Inv(s, lo * PAGE_SIZE, hi * PAGE_SIZE) && InStep(s.used, t, lo, hi) && PageTables.Valid(t, own, lo, hi)
    requires PageIn(s.used, q)
    ensures PageTables.Lookup(t, q).Some? && PageTables.Lookup(t, q).value !in t.pool
  {
    assert Cover(s, q * PAGE_SIZE) >= 1;
    PageTables.Open(t, own, lo, hi);
    assert PageTables.Lookup(t, q).Some?;
  }

  /** A stretch of directory entries lacks at most one table per entry. */
  lemma {:induction false} AbsentAtMost(pd: seq<nat>, d: nat, last: nat)
    requires d <= last <= |pd|
    ensures PageTables.Absent(pd, d, last) <= last - d
    decreases last - d
  {
    if d < last {
      AbsentAtMost(pd, d + 1, last);
    }
  }

  lemma {:induction false} AbsentPagesAtMost(s: PageTables.Space, p: nat, n: nat)
    ensures PageTables.AbsentPages(s, p, n) <= n
    decreases n
  {
    if n > 0 {
      AbsentPagesAtMost(s, p + 1, n - 1);
    }
  }

  // ---- What the allocations hold ----

  /** The word a load at va delivers, if va is mapped. */
  function ReadWord(t: PageTables.Space, va: nat): Option<nat> {
    match PageTables.Lookup(t, va / PAGE_SIZE)
    case None => None
    case Some(f) => Some(PageTables.Words(t.mem, f)[va % PAGE_SIZE / 4])
  }

  /** A new allocation reads as zero, and what was allocated before keeps its contents. */
  lemma AllocContents(s: Lists, bytes: nat, i: nat, a: Area, s': Lists,
                      t: PageTables.Space, own: map<nat, PageTables.Owner>,
                      t': PageTables.Space, own': map<nat, PageTables.Owner>, lo: nat, hi: nat, va: nat)
    requires Inv(s, lo * PAGE_SIZE, hi * PAGE_SIZE) && InStep(s.used, t, lo, hi) && PageTables.Valid(t, own, lo, hi)
    requires bytes > 0 && bytes % PAGE_SIZE == 0 && i < |s.free| && AllocAt(s, bytes, i, a, s')
    requires PageTables.Mapped(t, own, a.start / PAGE_SIZE, a.size / PAGE_SIZE, t', own')
    ensures Contains(a, va) ==> ReadWord(t', va) == Some(0)
    ensures PageIn(s.used, va / PAGE_SIZE) ==> ReadWord(t, va).Some? && ReadWord(t', va) == ReadWord(t, va)
  {
    var q := va / PAGE_SIZE;
    assert AreaOk(s.free[i]);
    if Contains(a, va) {
      PageOfByte(a, va);
      AllocatedUnmapped(s, bytes, i, a, s', t, lo, hi, q);
      assert PageTables.MappedAt(t, own, q, t', own');
    }
    if PageIn(s.used, q) {
      LiveData(s, t, own, lo, hi, q);
      AreaPages(a, q);
      assert PageTables.SameEntry(t, q, t');
      assert PageTables.KeptAt(t, own, t', own', PageTables.Lookup(t, q).value);
    }
  }

  /** What stays allocated keeps its contents when something else is freed. */
  lemma FreeContents(s: Lists, ptr: nat, i: nat, a: Area, s': Lists,
                     t: PageTables.Space, own: map<nat, PageTables.Owner>,
                     t': PageTables.Space, own': map<nat, PageTables.Owner>, lo: nat, hi: nat, va: nat)
    requires Inv(s, lo * PAGE_SIZE, hi * PAGE_SIZE) && InStep(s.used, t, lo, hi) && PageTables.Valid(t, own, lo, hi)
    requires FreeAt(s, ptr, i, a, s')
    requires PageTables.Unmapped(t, own, a.start / PAGE_SIZE, a.size / PAGE_SIZE, t', own')
    ensures PageIn(s'.used, va / PAGE_SIZE) ==> ReadWord(t, va).Some? && ReadWord(t', va) == ReadWord(t, va)
  {
    var q := va / PAGE_SIZE;
    if PageIn(s'.used, q) {
      FreeKeepsInv(s, ptr, i, a, s', lo * PAGE_SIZE, hi * PAGE_SIZE);
      assert AreaOk(a);
      AreaPages(a, q);
      var p := q * PAGE_SIZE;
      assert Hits(s'.used, p) == Hits(s.used, p) - (if Contains(a, p) then 1 else 0);
      assert Hits(s.used, p) <= Cover(s, p) <= 1;
      LiveData(s, t, own, lo, hi, q);
      assert PageTables.KeptAt(t, own, t', own', PageTables.Lookup(t, q).value);
    }
  }

  lemma PageOfByte(a: Area, va: nat)
    requires AreaOk(a) && Contains(a, va)
    ensures a.start / PAGE_SIZE <= va / PAGE_SIZE < a.start / PAGE_SIZE + a.size / PAGE_SIZE
  {
  }

  /** A page of a live allocation translates to a frame that is there for it. */
  lemma LiveData(s: Lists, t: PageTables.Space, own: map<nat, PageTables.Owner>, lo: nat, hi: nat, q: nat)
    requires Inv(s, lo * PAGE_SIZE, hi * PAGE_SIZE) && InStep(s.used, t, lo, hi) && PageTables.Valid(t, own, lo, hi)
    requires PageIn(s.used, q)
    ensures PageTables.Lookup(t, q).Some? && PageTables.Lookup(t, q).value in own
    ensures own[PageTables.Lookup(t, q).value] == PageTables.Data(q)
  {
    assert Cover(s, q * PAGE_SIZE) >= 1;
    PageTables.Open(t, own, lo, hi);
    assert PageTables.Lookup(t, q).Some?;
  }

  class Vm {
    const arena: Arena
    const tables: AddressSpace.PagedMemory
    ghost const lo: nat
    ghost const hi: nat

    ghost predicate Valid()
      reads this, arena, tables
    {
      && arena.lo == lo * PAGE_SIZE && arena.hi == hi * PAGE_SIZE && arena.Valid()
      && tables.lo == lo && tables.hi == hi && tables.Ok()
      && InStep(arena.used, tables.St(), lo, hi)
    }

    /** After vma_init: nothing allocated, nothing mapped. */
    constructor (arena: Arena, tables: AddressSpace.PagedMemory)
      requires arena.Valid() && arena.used == [] && tables.Ok()
      requires arena.lo == tables.lo * PAGE_SIZE && arena.hi == tables.hi * PAGE_SIZE
      requires forall q: nat :: tables.lo <= q < tables.hi ==> PageTables.Lookup(tables.St(), q) == None
      ensures Valid() && this.arena == arena && this.tables == tables
    {
      this.arena, this.tables, this.lo, this.hi := arena, tables, tables.lo, tables.hi;
    }

    /** The pointer returned is r.value.start. None where the source panics for want of address space. */
    method Vmalloc(bytes: nat) returns (r: Option<Area>)
      requires Valid() && 0 < bytes && bytes + PAGE_SIZE - 1 < WORD
      requires var n := PageRoundUp(bytes) / PAGE_SIZE; |tables.pool| >= n + n / PageTables.ENTRIES + 2
      modifies arena, tables
      ensures Valid() && tables.own.Keys == old(tables.own).Keys
      ensures r.None? ==> unchanged(tables) && arena.St() == old(arena.St())
      ensures r.None? ==> forall j :: 0 <= j < |arena.free| ==> arena.free[j].size < PageRoundUp(bytes)
      ensures r.Some? ==> r.value.size == PageRoundUp(bytes)
      ensures r.Some? ==> Alloc(old(arena.St()), r.value.size, r.value, arena.St())
      ensures r.Some? ==> PageTables.Mapped(old(tables.St()), old(tables.own),
                            r.value.start / PAGE_SIZE, r.value.size / PAGE_SIZE, tables.St(), tables.own)
      ensures r.Some? ==> forall va: nat :: Contains(r.value, va) ==> ReadWord(tables.St(), va) == Some(0)
      ensures forall va: nat :: PageIn(old(arena.used), va / PAGE_SIZE) ==>
                ReadWord(tables.St(), va) == old(ReadWord(tables.St(), va))
    {
      var pages := PageRoundUp(bytes) / PAGE_SIZE;
      ghost var before := arena.St();
      r := arena.FindSpace(pages);
      if r.None? {
        return;
      }
      var a := r.value;
      ghost var i :| BestFit(before.free, a.size, i) && AllocAt(before, a.size, i, a, arena.St());
      MapReady(before, i, a, arena.St(), tables.St(), lo, hi);
      ghost var t, own := tables.St(), tables.own;
      tables.VmMap(a.start, a.size);
      AllocKeepsStep(before, a.size, i, a, arena.St(), t, own, tables.St(), tables.own, lo, hi);
      forall va: nat
        ensures Contains(a, va) ==> ReadWord(tables.St(), va) == Some(0)
        ensures PageIn(before.used, va / PAGE_SIZE) ==> ReadWord(tables.St(), va) == ReadWord(t, va)
      {
        AllocContents(before, a.size, i, a, arena.St(), t, own, tables.St(), tables.own, lo, hi, va);
      }
    }

    /** False where the source panics: ptr is not a live allocation. */
    method Vmfree(ptr: nat) returns (ok: bool, ghost a: Area)
      requires Valid()
      modifies arena, tables
      ensures Valid() && tables.own.Keys == old(tables.own).Keys
      ensures ok <==> exists i :: 0 <= i < |old(arena.used)| && old(arena.used)[i].start == ptr
      ensures !ok ==> unchanged(arena) && unchanged(tables)
      ensures ok ==> exists i :: FreeAt(old(arena.St()), ptr, i, a, arena.St())
      ensures ok ==> PageTables.Unmapped(old(tables.St()), old(tables.own), a.start / PAGE_SIZE, a.size / PAGE_SIZE,
                                         tables.St(), tables.own)
      ensures forall va: nat :: PageIn(arena.used, va / PAGE_SIZE) ==>
                ReadWord(tables.St(), va) == old(ReadWord(tables.St(), va))
    {
      var i := arena.FindUsed(ptr);
      if i == -1 {
        return false, Area(0, 0);
      }
      var area := arena.used[i];
      a := area;
      ghost var t, own, before := tables.St(), tables.own, arena.St();
      UnmapReady(before, i, tables.St(), lo, hi);
      tables.VmUnmap(area.start, area.size);
      arena.Retire(i);
      FreeKeepsStep(before, ptr, i, a, arena.St(), t, own, tables.St(), tables.own, lo, hi);
      forall va: nat
        ensures PageIn(arena.used, va / PAGE_SIZE) ==> ReadWord(tables.St(), va) == ReadWord(t, va)
      {
        FreeContents(before, ptr, i, a, arena.St(), t, own, tables.St(), tables.own, lo, hi, va);
      }
      ok := true;
    }

    /** do_defrag moves no live allocation. */
    method DoDefrag()
      requires Valid()
      modifies arena
      ensures Valid() && Defrag(old(arena.St()), arena.St())
    {
      arena.DoDefrag();
    }
  }

  /** vm_map's preconditions hold for what find_space returned. */
  lemma MapReady(s: Lists, i: nat, a: Area, s': Lists, t: PageTables.Space, lo: nat, hi: nat)
    requires Inv(s, lo * PAGE_SIZE, hi * PAGE_SIZE) && InStep(s.used, t, lo, hi)
    requires a.size > 0 && a.size % PAGE_SIZE == 0 && i < |s.free| && AllocAt(s, a.size, i, a, s')
    requires |t.pd| == PageTables.ENTRIES && hi <= PageTables.ENTRIES * (PageTables.ENTRIES - 1)
    ensures a.start % PAGE_SIZE == 0 && lo <= a.start / PAGE_SIZE && a.End() / PAGE_SIZE <= hi
    ensures forall q: nat :: a.start / PAGE_SIZE <= q < a.End() / PAGE_SIZE ==> PageTables.Lookup(t, q) == None
    ensures var n := a.size / PAGE_SIZE;
      PageTables.FramesFor(t, a.start / PAGE_SIZE, n) <= n + n / PageTables.ENTRIES + 2
  {
    assert AreaOk(s.free[i]);
    var p, n := a.start / PAGE_SIZE, a.size / PAGE_SIZE;
    AreaPages(a, 0);
    AllocatedUnmapped(s, a.size, i, a, s', t, lo, hi, p);
    AllocatedUnmapped(s, a.size, i, a, s', t, lo, hi, p + n - 1);
    forall q: nat | p <= q < p + n
      ensures PageTables.Lookup(t, q) == None
    {
      AllocatedUnmapped(s, a.size, i, a, s', t, lo, hi, q);
    }
    FramesBound(t, p, n);
  }

  lemma FramesBound(t: PageTables.Space, p: nat, n: nat)
    requires |t.pd| == PageTables.ENTRIES && p + n <= PageTables.ENTRIES * PageTables.ENTRIES
    ensures PageTables.FramesFor(t, p, n) <= n + n / PageTables.ENTRIES + 2
  {
    if n > 0 {
      AbsentAtMost(t.pd, PageTables.DirOf(p), PageTables.DirOf(p + n - 1) + 1);
      AbsentPagesAtMost(t, p, n);
    }
  }

  lemma UnmapReady(s: Lists, i: nat, t: PageTables.Space, lo: nat, hi: nat)
    requires Inv(s, lo * PAGE_SIZE, hi * PAGE_SIZE) && InStep(s.used, t, lo, hi) && i < |s.used|
    ensures var a := s.used[i];
      && AreaOk(a) && lo <= a.start / PAGE_SIZE && a.End() / PAGE_SIZE <= hi
      && forall q: nat :: a.start / PAGE_SIZE <= q < a.End() / PAGE_SIZE ==> PageTables.Lookup(t, q).Some?
  {
    var a := s.used[i];
    assert AreaOk(a);
    var p, n := a.start / PAGE_SIZE, a.size / PAGE_SIZE;
    AreaPages(a, 0);
    FreedIsMapped(s, i, t, lo, hi, p);
    FreedIsMapped(s, i, t, lo, hi, p + n - 1);
    forall q: nat | p <= q < p + n
      ensures PageTables.Lookup(t, q).Some?
    {
      FreedIsMapped(s, i, t, lo, hi, q);
    }
  }
}
