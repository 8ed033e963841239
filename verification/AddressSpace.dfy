/** vm_map and vm_unmap as the kernel runs them, on page tables updated in place. */
module AddressSpace {
  import opened Common
  import opened PageTables
  import opened Machine

  class PagedMemory {
    var pd: seq<nat>
    var mem: map<nat, seq<nat>>
    var pool: seq<nat>
    /** The role of every frame, kept for the specification. */
    ghost var own: map<nat, Owner>
    /** The pages this kernel region consists of: lo .. hi - 1. */
    ghost const lo: nat
    ghost const hi: nat

    ghost function St(): Space
      reads this
    {
      Space(pd, mem, pool)
    }

    ghost predicate Ok()
      reads this
    {
      Valid(St(), own, lo, hi)
    }

    constructor (s: Space, ghost own: map<nat, Owner>, ghost lo: nat, ghost hi: nat)
      requires Valid(s, own, lo, hi)
      ensures Ok() && St() == s && this.own == own && this.lo == lo && this.hi == hi
    {
      this.pd, this.mem, this.pool, this.own, this.lo, this.hi := s.pd, s.mem, s.pool, own, lo, hi;
    }

    method PfZalloc() returns (f: nat)
      modifies this`mem, this`pool
      ensures f == Top(old(St())) && pool == Rest(old(St())) && mem == old(mem)[f := Zeros()]
    {
      f := if pool == [] then 0 else pool[0];
      pool := if pool == [] then [] else pool[1..];
      mem := mem[f := Zeros()];
    }

    method PfFree(f: nat)
      modifies this`mem, this`pool
      ensures St() == Freed(old(St()), f)
    {
      var link := if pool == [] then 0 else pool[0] * PAGE_SIZE + PFA_VIRT_OFFSET;
      var words: seq<nat> := Words(mem, f)[0 := link];
      mem := mem[f := words];
      pool := [f] + pool;
    }

    /** The body of vm_map's loop, for page p. */
    method MapOne(p: nat)
      requires |pd| == ENTRIES && p < ENTRIES * ENTRIES
      modifies this`pd, this`mem, this`pool
      ensures St() == MapPage(old(St()), p)
    {
      var d, t := DirOf(p), SlotOf(p);
      if !Present(pd[d]) {
        var f := PfZalloc();
        pd := pd[d := Entry(f)];
      }
      var table := FrameOf(pd[d]);
      if !Present(Words(mem, table)[t]) {
        var f := PfZalloc();
        var words: seq<nat> := Words(mem, table)[t := Entry(f)];
        mem := mem[table := words];
      }
    }

    /** One round of vm_map's loop: page k of the n pages from p on. */
    method MapNext(page: nat, ghost s: Space, ghost own0: map<nat, Owner>, ghost p: nat, ghost n: nat, ghost k: nat)
      requires Ok() && lo <= p && p + n <= hi && k < n && page == p + k
      requires Mapped(s, own0, p, k, St(), own) && |pool| >= FramesFor(St(), p + k, n - k)
      modifies this
      ensures Ok() && Mapped(s, own0, p, k + 1, St(), own)
      ensures |pool| - FramesFor(St(), p + k + 1, n - k - 1) == |old(pool)| - FramesFor(old(St()), p + k, n - k)
    {
      ghost var own2 := MapPageStep(St(), own, lo, hi, page, n - k);
      MapOne(page);
      MapLoopStep(s, own0, lo, hi, p, n, k, old(St()), own, St(), own2);
      own := own2;
    }

    /**
     Every page of the range ends up mapped: one that was mapped as before, any other on a frame
     that was free, distinct from every other page's (by Ok). No other translation changes.
     */
    method VmMap(start: nat, size: nat)
      requires Ok() && start % PAGE_SIZE == 0 && size % PAGE_SIZE == 0
      requires lo <= start / PAGE_SIZE && (start + size) / PAGE_SIZE <= hi
      requires |pool| >= FramesFor(St(), start / PAGE_SIZE, size / PAGE_SIZE)
      modifies this
      ensures Ok() && Mapped(old(St()), old(own), start / PAGE_SIZE, size / PAGE_SIZE, St(), own)
      ensures |pool| == |old(pool)| - FramesFor(old(St()), start / PAGE_SIZE, size / PAGE_SIZE)
    {
      ghost var p, n, k := start / PAGE_SIZE, size / PAGE_SIZE, 0;
      var va := start;
      while va < start + size
        invariant k <= n && va == start + k * PAGE_SIZE && va / PAGE_SIZE == p + k
        invariant Ok() && Mapped(old(St()), old(own), p, k, St(), own)
        invariant |pool| - FramesFor(St(), p + k, n - k) == |old(pool)| - FramesFor(old(St()), p, n)
        decreases start + size - va
      {
        MapNext(va / PAGE_SIZE, old(St()), old(own), p, n, k);
        va := va + PAGE_SIZE;
        k := k + 1;
      }
    }

    /**
     Every page of the mapped range stops translating, its frame goes back to the free stack
     (once, by Ok), and no other translation changes. A table is freed exactly when it belongs
     to an entry before the one of the range's end and is left with 1024 zero entries.
     */
    method VmUnmap(start: nat, size: nat)
      requires Ok() && start % PAGE_SIZE == 0 && size % PAGE_SIZE == 0 && size > 0
      requires lo <= start / PAGE_SIZE && (start + size) / PAGE_SIZE <= hi
      requires forall q: nat :: start / PAGE_SIZE <= q < (start + size) / PAGE_SIZE ==> Lookup(St(), q).Some?
      modifies this
      ensures Ok() && Unmapped(old(St()), old(own), start / PAGE_SIZE, size / PAGE_SIZE, St(), own)
      ensures |pd| == |old(pd)| && forall e :: 0 <= e < |pd| ==> pd[e] == old(pd)[e] || pd[e] == PTE_WRITABLE
      ensures forall f :: f in old(own) && old(own)[f].Table? ==>
                own[f] == if SweptAway(old(St()), old(own)[f].d, f, start / PAGE_SIZE, size / PAGE_SIZE) then Free else old(own)[f]
    {
      UnmapPages(start, size);
      ghost var s1, own1 := St(), own;
      RangePresent(old(St()), lo, hi, start / PAGE_SIZE, size / PAGE_SIZE);
      SweepTables(DirOf(start / PAGE_SIZE), DirOf((start + size) / PAGE_SIZE));
      UnmappedAndSwept(old(St()), old(own), start / PAGE_SIZE, size / PAGE_SIZE, s1, own1, St(), own);
    }

    /** vm_unmap's second loop: free the empty tables of entries first .. last - 1. */
    method SweepTables(first: nat, last: nat)
      requires Ok() && first <= last <= ENTRIES
      requires forall e: nat :: first <= e < last ==> Managed(lo, hi, e) && Present(pd[e])
      modifies this
      ensures Ok() && Swept(old(St()), old(own), first, last, St(), own)
    {
      var d := first;
      while d < last
        invariant first <= d <= last && Ok()
        invariant Swept(old(St()), old(own), first, d, St(), own)
      {
        SweptOneMore(old(St()), old(own), lo, hi, first, d, St(), own);
        var table := FrameOf(pd[d]);
        var empty := TableIsEmpty(table);
        if empty {
          pd := pd[d := PTE_WRITABLE];
          PfFree(table);
          own := own[table := Free];
        }
        d := d + 1;
      }
    }

    method TableIsEmpty(table: nat) returns (empty: bool)
      ensures empty == AllZero(Words(mem, table))
    {
      empty := true;
      var i := 0;
      while i < ENTRIES
        invariant 0 <= i <= ENTRIES && empty
        invariant forall j :: 0 <= j < i ==> Words(mem, table)[j] == 0
      {
        if Words(mem, table)[i] != 0 {
          empty := false;
          break;
        }
        i := i + 1;
      }
    }

    /** vm_unmap's first loop. */
    method UnmapPages(start: nat, size: nat)
      requires Ok() && start % PAGE_SIZE == 0 && size % PAGE_SIZE == 0
      requires lo <= start / PAGE_SIZE && (start + size) / PAGE_SIZE <= hi
      requires forall q: nat :: start / PAGE_SIZE <= q < (start + size) / PAGE_SIZE ==> Lookup(St(), q).Some?
      modifies this
      ensures Ok() && Unmapped(old(St()), old(own), start / PAGE_SIZE, size / PAGE_SIZE, St(), own)
      ensures TablesCleared(old(St()), old(own), start / PAGE_SIZE, size / PAGE_SIZE, St(), own)
    {
      ghost var p, n, k := start / PAGE_SIZE, size / PAGE_SIZE, 0;
      var va := start;
      while va < start + size
        invariant k <= n && va == start + k * PAGE_SIZE && va / PAGE_SIZE == p + k
        invariant Ok() && Unmapped(old(St()), old(own), p, k, St(), own)
        invariant TablesCleared(old(St()), old(own), p, k, St(), own)
        decreases start + size - va
      {
        ghost var s1, own1 := St(), own;
        assert Lookup(s1, p + k).Some?;
        UnmappedOneMore(old(St()), old(own), lo, hi, p, k, s1, own1);
        ClearedOneMore(old(St()), old(own), lo, hi, p, k, s1, own1);
        var page := va / PAGE_SIZE;
        var pde := pd[DirOf(page)];
        assert Present(pde);
        var table := FrameOf(pde);
        var pte := Words(mem, table)[SlotOf(page)];
        assert Present(pte);
        PfFree(FrameOf(pte));
        var words: seq<nat> := Words(mem, table)[SlotOf(page) := 0];
        mem := mem[table := words];
        assert St() == RemoveData(s1, p + k);
        own := own1[Lookup(s1, p + k).value := Free];
        va := va + PAGE_SIZE;
        k := k + 1;
      }
    }
  }

  /** Table f of entry d is swept, and holds no entry but those of pages p .. p + n - 1. */
  ghost predicate SweptAway(s: Space, d: nat, f: nat, p: nat, n: nat) {
    && DirOf(p) <= d < DirOf(p + n)
    && forall t :: 0 <= t < ENTRIES ==> p <= d * ENTRIES + t < p + n || Words(s.mem, f)[t] == 0
  }

  lemma UnmappedAndSwept(s: Space, own: map<nat, Owner>, p: nat, n: nat, s1: Space, own1: map<nat, Owner>,
                         s2: Space, own2: map<nat, Owner>)
    requires Unmapped(s, own, p, n, s1, own1) && TablesCleared(s, own, p, n, s1, own1)
    requires Swept(s1, own1, DirOf(p), DirOf(p + n), s2, own2)
    ensures Unmapped(s, own, p, n, s2, own2)
    ensures forall f :: f in own && own[f].Table? ==>
              own2[f] == if SweptAway(s, own[f].d, f, p, n) then Free else own[f]
  {
    WordsKeptTwice(s, own, s1, own1, s2, own2);
    forall f | f in own && own[f].Table?
      ensures own2[f] == if SweptAway(s, own[f].d, f, p, n) then Free else own[f]
    {
      assert AllZero(Words(s1.mem, f)) <==>
             forall t :: 0 <= t < ENTRIES ==> p <= own[f].d * ENTRIES + t < p + n || Words(s.mem, f)[t] == 0;
    }
  }

  /** What mapping the one page p does, apart from how. */
  ghost predicate OnePage(s: Space, own: map<nat, Owner>, lo: nat, hi: nat, p: nat, s': Space, own': map<nat, Owner>)
    requires |s.pd| == |s'.pd| == ENTRIES && p < ENTRIES * ENTRIES
  {
    && Valid(s', own', lo, hi) && Mapped(s, own, p, 1, s', own')
    && Present(s'.pd[DirOf(p)]) && s'.pd == s.pd[DirOf(p) := s'.pd[DirOf(p)]]
    && |s'.pool| == |s.pool| - Needs(s, p)
  }

  lemma MapPageStep(s: Space, own: map<nat, Owner>, lo: nat, hi: nat, p: nat, n: nat) returns (own': map<nat, Owner>)
    requires Valid(s, own, lo, hi) && lo <= p < p + n <= hi
    requires |s.pool| >= FramesFor(s, p, n)
    ensures |MapPage(s, p).pd| == ENTRIES && OnePage(s, own, lo, hi, p, MapPage(s, p), own')
  {
    NeedsFrames(s, p, n);
    own' := MapPageKeeps(s, own, lo, hi, p);
  }

  lemma MapLoopStep(s: Space, own: map<nat, Owner>, lo: nat, hi: nat, p: nat, n: nat, k: nat,
                    s1: Space, own1: map<nat, Owner>, s2: Space, own2: map<nat, Owner>)
    requires |s1.pd| == |s2.pd| == ENTRIES && k < n && p + n <= ENTRIES * ENTRIES
    requires Mapped(s, own, p, k, s1, own1) && OnePage(s1, own1, lo, hi, p + k, s2, own2)
    ensures Mapped(s, own, p, k + 1, s2, own2)
    ensures |s2.pool| - FramesFor(s2, p + k + 1, n - k - 1) == |s1.pool| - FramesFor(s1, p + k, n - k)
  {
    forall q: nat | p + k + 1 <= q
      ensures Lookup(s2, q) == Lookup(s1, q)
    {
      assert SameEntry(s1, q, s2);
    }
    FramesForNext(s1, s2, p + k, n - k);
    MappedOneMore(s, own, p, k, s1, own1, s2, own2);
  }

  lemma NeedsFrames(s: Space, p: nat, n: nat)
    requires |s.pd| == ENTRIES && n > 0 && p + n <= ENTRIES * ENTRIES
    ensures FramesFor(s, p, n) >= Needs(s, p)
  {
    assert Absent(s.pd, DirOf(p), DirOf(p + n - 1) + 1) >= (if Present(s.pd[DirOf(p)]) then 0 else 1);
  }

  /** Every entry the sweep visits has a page of the range, hence a table. */
  lemma RangePresent(s: Space, lo: nat, hi: nat, p: nat, n: nat)
    requires |s.pd| == ENTRIES && lo <= p && p + n <= hi && hi <= ENTRIES * (ENTRIES - 1)
    requires forall q: nat :: p <= q < p + n ==> Lookup(s, q).Some?
    ensures forall e: nat :: DirOf(p) <= e < DirOf(p + n) ==> Managed(lo, hi, e) && Present(s.pd[e])
  {
    forall e: nat | DirOf(p) <= e < DirOf(p + n)
      ensures Managed(lo, hi, e) && Present(s.pd[e])
    {
      var q := if e == DirOf(p) then p else e * ENTRIES;
      assert DirOf(q) == e && p <= q < p + n;
      assert Lookup(s, q).Some?;
    }
  }
}
