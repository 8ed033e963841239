/**
 Whole allocations, whole frees, and every run of them: what clients can rely on,
 and exactly when do_slab_alloc's recursion through its own metadata ends.
 */
module SlabRuns {
  import opened Common
  import opened Slab
  import opened SlabInvariant
  import opened Machine

  ghost function ClientBlocks(s: State, g: Aux): set<nat> {
    g.home.Keys - s.meta.Keys
  }

  /** Some 32-byte slab has a free chunk. */
  ghost predicate HasMetaSlot(s: State) {
    exists m :: m in List(s, META_CLASS) && At(s, m).freeSlots > 0
  }

  /** The contents of the given blocks are the same in both states. */
  ghost predicate Kept(s: State, s': State, g: Aux, blocks: set<nat>) {
    forall p, a: nat :: p in blocks && p <= a < p + BlockSize(g, p) ==> Rd(s'.mem, a) == Rd(s.mem, a)
  }

  // ---- The scan ----

  lemma FreelistTests(mem: map<nat, nat>, mt: Meta, i: nat, live: set<nat>)
    requires SlabOk(mem, mt, i, live)
    ensures mt.freelist != 0 <==> mt.freeSlots > 0
    ensures mt.freelist != 0 && Rd(mem, mt.freelist) == 0 <==> mt.freeSlots == 1
  {
    if mt.freeSlots > 0 {
      assert Ends(mem, Rd(mem, mt.freelist), mt.freeSlots - 1);
    }
  }

  /** What the outcome of a scan over (part of) a class list means. */
  lemma {:induction false} ScanSpec(s: State, g: Aux, list: seq<nat>, i: nat)
    requires SlabsOk(s, g) && forall m :: m in list ==> m in s.meta && m in g.cls && g.cls[m] == i
    ensures var r := Scan(s, list, i);
      && (r.NoSlot? ==> forall m :: m in list ==> s.meta[m].freeSlots == 0)
      && (r.Plain? ==> r.m in list && s.meta[r.m].freeSlots > 0 && (i == META_CLASS ==> s.meta[r.m].freeSlots > 1))
      && (r.Eager? ==> r.m in list && s.meta[r.m].freeSlots == 1 && i == META_CLASS)
  {
    if list != [] {
      var m := list[0];
      assert m in list && SlabOk(s.mem, s.meta[m], g.cls[m], g.home.Keys);
      FreelistTests(s.mem, s.meta[m], i, g.home.Keys);
      assert list == [m] + list[1..];
      ScanSpec(s, g, list[1..], i);
    }
  }

  // ---- Facts read off the invariant ----

  lemma HousedFact(s: State, g: Aux, p: nat)
    requires Inv(s, g) && p in g.home
    ensures Housed(s, g, p)
  {
    assert Holds(Forest, s, g);
  }

  lemma KeysFact(s: State, g: Aux)
    requires Inv(s, g)
    ensures g.cls.Keys == s.meta.Keys && |s.slabs| == N_SIZES
  {
    assert Holds(Lists, s, g);
  }

  lemma ListFact(s: State, g: Aux, i: nat, m: nat)
    requires Inv(s, g) && i < N_SIZES
    ensures m in List(s, i) <==> m in g.cls && g.cls[m] == i
  {
    assert Holds(Lists, s, g);
  }

  lemma MetaIsLive(s: State, g: Aux, m: nat)
    requires Inv(s, g) && m in s.meta && m != BOOTSTRAP_META
    ensures Rooted(s, g, m) && Housed(s, g, m)
  {
    assert Holds(Forest, s, g);
  }

  lemma ScanFact(s: State, g: Aux, i: nat)
    requires Inv(s, g) && i < N_SIZES
    ensures var r := Scan(s, List(s, i), i);
      && (r.NoSlot? ==> forall m :: m in List(s, i) ==> m in s.meta && s.meta[m].freeSlots == 0)
      && (!r.NoSlot? ==> r.m in s.meta && r.m in g.cls && g.cls[r.m] == i && s.meta[r.m].freeSlots > 0)
      && (r.Plain? && i == META_CLASS ==> s.meta[r.m].freeSlots > 1)
      && (r.Eager? ==> i == META_CLASS)
  {
    assert Holds(Slabs, s, g) && Holds(Lists, s, g);
    ScanSpec(s, g, List(s, i), i);
  }

  // ---- Contents of live blocks ----

  lemma GetKeepsContents(s: State, g: Aux, h: nat)
    requires Inv(s, g) && h in s.meta && h in g.cls && s.meta[h].freeSlots > 0
    ensures Kept(s, ChunkGet(s, h, SlotSize(g.cls[h])), g, g.home.Keys)
  {
    var c := s.meta[h].freelist;
    var s', g' := ChunkGet(s, h, SlotSize(g.cls[h])), g.(home := g.home[c := h]);
    GetKeepsInv(s, g, h);
    forall p, a: nat | p in g.home && p <= a < p + BlockSize(g, p)
      ensures Rd(s'.mem, a) == Rd(s.mem, a)
    {
      if p < c {
        BlocksDisjoint(s', g', p, c);
      } else {
        BlocksDisjoint(s', g', c, p);
      }
    }
  }

  lemma PutKeepsContents(s: State, g: Aux, c: nat)
    requires Inv(s, g) && c in g.home
    ensures Kept(s, ChunkPut(s, g.home[c], c), g, g.home.Keys - {c})
  {
    forall p | p in g.home && p < c
      ensures p + BlockSize(g, p) <= c
    {
      BlocksDisjoint(s, g, p, c);
    }
  }

  /** A live block lies on the page of its slab. */
  lemma BlockPage(s: State, g: Aux, p: nat, a: nat)
    requires Inv(s, g) && p in g.home && p <= a < p + BlockSize(g, p)
    ensures PageOf(a) == PageOf(p)
  {
    HousedFact(s, g, p);
    var h := g.home[p];
    assert s.meta[h].slab % PAGE_SIZE == 0 by { assert Holds(Pages, s, g); }
    SlotInPage(s.meta[h].slab, g.cls[h], p);
    OnPage(s.meta[h].slab, p);
    OnPage(s.meta[h].slab, a);
  }

  lemma OffPageKeepsContents(s: State, s': State, g: Aux, page: nat)
    requires Inv(s, g) && forall a: nat :: PageOf(a) != page ==> Rd(s'.mem, a) == Rd(s.mem, a)
    requires forall p :: p in g.home ==> PageOf(p) != page
    ensures Kept(s, s', g, g.home.Keys)
  {
    forall p, a: nat | p in g.home && p <= a < p + BlockSize(g, p)
      ensures PageOf(a) != page
    {
      BlockPage(s, g, p, a);
    }
  }

  // ---- do_slab_alloc ----

  /** What holds between the start of an allocation and any later point of it. */
  ghost predicate Advanced(s: State, g: Aux, s': State, g': Aux) {
    && Inv(s', g') && g'.pages == g.pages
    && (forall p :: p in g.home ==> p in g'.home && g'.home[p] == g.home[p])
    && (forall m :: m in g.cls ==> m in g'.cls && g'.cls[m] == g.cls[m])
    && Kept(s, s', g, g.home.Keys)
  }

  lemma AdvancedTrans(s: State, g: Aux, s1: State, g1: Aux, s2: State, g2: Aux)
    requires Inv(s, g) && Advanced(s, g, s1, g1) && Advanced(s1, g1, s2, g2)
    ensures Advanced(s, g, s2, g2)
  {
    forall p, a: nat | p in g.home && p <= a < p + BlockSize(g, p)
      ensures Rd(s2.mem, a) == Rd(s.mem, a)
    {
      HousedFact(s, g, p);
      assert BlockSize(g1, p) == BlockSize(g, p) && p in g1.home;
      assert Rd(s1.mem, a) == Rd(s.mem, a);
    }
  }

  /** One chunk_get inside an allocation. */
  lemma Take(s: State, g: Aux, h: nat) returns (g': Aux)
    requires Inv(s, g) && h in s.meta && h in g.cls && s.meta[h].freeSlots > 0
    ensures var s', c := ChunkGet(s, h, SlotSize(g.cls[h])), At(s, h).freelist;
      && Advanced(s, g, s', g') && g' == g.(home := g.home[c := h])
      && c !in g.home && c !in s.meta && SameShape(s, s')
      && forall m :: m in s.meta && m != h ==> s'.meta[m] == s.meta[m]
  {
    var c := At(s, h).freelist;
    GetKeepsInv(s, g, h);
    GetKeepsContents(s, g, h);
    g' := g.(home := g.home[c := h]);
    if c in s.meta {
      MetaIsLive(s, g, c);
    }
  }

  /** The chunk c becomes the metadata of a new slab of class i. */
  lemma Adopt(s: State, g: Aux, c: nat, i: nat) returns (g': Aux)
    requires Inv(s, g) && s.pool != [] && i < N_SIZES
    requires c in g.home && c !in s.meta && g.home[c] in g.cls && g.cls[g.home[c]] == META_CLASS
    ensures var s' := NewSlab(s, c, i);
      && Advanced(s, g, s', g') && g'.home == g.home && c in g'.cls && g'.cls[c] == i
      && s'.meta.Keys == s.meta.Keys + {c} && s'.meta == s.meta[c := s'.meta[c]]
      && s'.meta[c].freeSlots == Slots(i) && s'.pool == s.pool[1..]
  {
    var t := FreshStamp(g.born);
    KeysFact(s, g);
    NewSlabKeepsInv(s, g, c, i, t);
    g' := Adopted(g, c, i, t);
    forall p | p in g.home
      ensures PageOf(p) != s.pool[0]
    {
      assert Holds(Pages, s, g) && Holds(Forest, s, g);
      PoolPagesUnused(s, g, s.pool[0], p);
    }
    OffPageKeepsContents(s, NewSlab(s, c, i), g, s.pool[0]);
  }

  lemma FreeAtMost(s: State, g: Aux, m: nat)
    requires Inv(s, g) && m in s.meta && m in g.cls
    ensures 0 <= s.meta[m].freeSlots <= Slots(g.cls[m])
  {
    assert Holds(Slabs, s, g);
    var mt, i := s.meta[m], g.cls[m];
    assert SlabOk(s.mem, mt, i, g.home.Keys);
    var fl, all := Chain(s.mem, mt.freelist, mt.freeSlots), Desc(mt.slab, SlotSize(i), Slots(i));
    ChainLength(s.mem, mt.freelist, mt.freeSlots);
    DescAt(mt.slab, SlotSize(i), Slots(i));
    DescIsSlots(mt.slab, i);
    DistinctCardinality(fl);
    DistinctCardinality(all);
    SubsetCardinality(Elems(fl), Elems(all));
  }

  /** No slab is entirely free. */
  ghost predicate Busy(s: State, g: Aux) {
    forall m :: m in s.meta && m in g.cls ==> s.meta[m].freeSlots < Slots(g.cls[m])
  }

  /** No slab other than x is entirely free. */
  ghost predicate BusyBut(s: State, g: Aux, x: nat) {
    forall m :: m in s.meta && m in g.cls && m != x ==> s.meta[m].freeSlots < Slots(g.cls[m])
  }

  /** No slab is entirely free, save a bootstrap slab that is the only one. */
  ghost predicate Settled(s: State, g: Aux) {
    Busy(s, g) || s.meta.Keys == {BOOTSTRAP_META}
  }

  /** The outcome of looking for a slab of class i to take a chunk from. */
  ghost predicate ReadyFor(s: State, g: Aux, i: nat, r: Ready, g': Aux) {
    && Advanced(s, g, r.s, g') && ClientBlocks(r.s, g') == ClientBlocks(s, g)
    && r.m in r.s.meta && r.m in g'.cls && g'.cls[r.m] == i
    && r.s.meta[r.m].freeSlots > (if i == META_CLASS then 1 else 0)
    && BusyBut(r.s, g', r.m)
  }

  lemma PlainReady(s: State, g: Aux, i: nat, m: nat)
    requires Inv(s, g) && Settled(s, g) && m in s.meta && m in g.cls && g.cls[m] == i
    requires s.meta[m].freeSlots > (if i == META_CLASS then 1 else 0)
    ensures ReadyFor(s, g, i, Ready(s, m), g)
  {
  }

  /** chunk_get from a 32-byte slab h, then a new slab of class i under that chunk. */
  lemma GrownReady(s: State, g: Aux, i: nat, h: nat) returns (g': Aux)
    requires Inv(s, g) && BusyBut(s, g, h) && s.pool != [] && i < N_SIZES
    requires h in s.meta && h in g.cls && g.cls[h] == META_CLASS && s.meta[h].freeSlots > 0
    ensures var c := At(s, h).freelist; var s1 := ChunkGet(s, h, SlotSize(META_CLASS)); var s' := NewSlab(s1, c, i);
      && c !in s.meta && ReadyFor(s, g, i, Ready(s', c), g') && s'.pool == s.pool[1..]
      && h in s'.meta && h in g'.cls && g'.cls[h] == META_CLASS && s'.meta[h].freeSlots == s.meta[h].freeSlots - 1
  {
    var c, s1 := At(s, h).freelist, ChunkGet(s, h, SlotSize(META_CLASS));
    var g1 := Take(s, g, h);
    g' := Adopt(s1, g1, c, i);
    var s' := NewSlab(s1, c, i);
    AdvancedTrans(s, g, s1, g1, s', g');
    FreeAtMost(s, g, h);
    assert ClientBlocks(s', g') == ClientBlocks(s, g);
    assert Slots(i) > (if i == META_CLASS then 1 else 0) by { SlotsFill(i); }
    KeysFact(s, g);
  }

  lemma MetaReady(s: State, g: Aux, stack: nat) returns (g': Aux)
    requires Inv(s, g) && Settled(s, g) && HasMetaSlot(s) && s.pool != [] && stack >= 1
    ensures SlabFor(s, META_CLASS, stack).Some?
    ensures ReadyFor(s, g, META_CLASS, SlabFor(s, META_CLASS, stack).value, g')
    ensures |SlabFor(s, META_CLASS, stack).value.s.pool| >= |s.pool| - 1
  {
    ScanFact(s, g, META_CLASS);
    match Scan(s, List(s, META_CLASS), META_CLASS) {
      case Plain(m) =>
        PlainReady(s, g, META_CLASS, m);
        g' := g;
      case Eager(m) =>
        g' := GrownReady(s, g, META_CLASS, m);
      case NoSlot =>
        assert false;
    }
  }

  /** In two nested calls at most, a slab of the wanted class with a free chunk is found or made. */
  lemma SlabReady(s: State, g: Aux, i: nat, stack: nat) returns (g': Aux)
    requires Inv(s, g) && Settled(s, g) && HasMetaSlot(s) && |s.pool| >= 2 && i < N_SIZES && stack >= 2
    ensures SlabFor(s, i, stack).Some?
    ensures ReadyFor(s, g, i, SlabFor(s, i, stack).value, g')
    ensures var r := SlabFor(s, i, stack).value; HasMetaSlot(ChunkGet(r.s, r.m, SlotSize(i)))
  {
    if i == META_CLASS {
      g' := MetaReady(s, g, stack);
      var r := SlabFor(s, i, stack).value;
      ListFact(r.s, g', META_CLASS, r.m);
      assert At(ChunkGet(r.s, r.m, SlotSize(i)), r.m).freeSlots > 0;
    } else {
      ScanFact(s, g, i);
      var scan := Scan(s, List(s, i), i);
      if scan.Plain? {
        g' := g;
        PlainReady(s, g, i, scan.m);
        var h :| h in List(s, META_CLASS) && At(s, h).freeSlots > 0;
        ListFact(s, g, META_CLASS, h);
        OtherSlotStays(s, g, scan.m, i, h);
      } else {
        g' := NestedReady(s, g, i, stack);
      }
    }
  }

  lemma NestedReady(s: State, g: Aux, i: nat, stack: nat) returns (g': Aux)
    requires Inv(s, g) && Settled(s, g) && HasMetaSlot(s) && |s.pool| >= 2 && i < N_SIZES && stack >= 2
    requires i != META_CLASS && Scan(s, List(s, i), i).NoSlot?
    ensures SlabFor(s, i, stack).Some?
    ensures ReadyFor(s, g, i, SlabFor(s, i, stack).value, g')
    ensures var r := SlabFor(s, i, stack).value; HasMetaSlot(ChunkGet(r.s, r.m, SlotSize(i)))
  {
    var g1 := MetaReady(s, g, stack - 1);
    var inner := SlabFor(s, META_CLASS, stack - 1).value;
    assert SlabFor(s, i, stack) == Grow(SlabFor(s, META_CLASS, stack - 1), i);
    g' := GrownFrom(s, g, inner, g1, i);
  }

  /** The rest of grab_a_slab, after its inner call has come back. */
  lemma GrownFrom(s: State, g: Aux, inner: Ready, g1: Aux, i: nat) returns (g': Aux)
    requires Inv(s, g) && ReadyFor(s, g, META_CLASS, inner, g1) && inner.s.pool != [] && i < N_SIZES
    ensures var r := Grow(Some(inner), i).value;
      ReadyFor(s, g, i, r, g') && HasMetaSlot(ChunkGet(r.s, r.m, SlotSize(i)))
  {
    g' := GrownReady(inner.s, g1, i, inner.m);
    var r := Grow(Some(inner), i).value;
    AdvancedTrans(s, g, inner.s, g1, r.s, g');
    OtherSlotStays(r.s, g', r.m, i, inner.m);
  }

  /** Taking a chunk from another slab leaves a 32-byte slab its free chunks. */
  lemma OtherSlotStays(s: State, g: Aux, m: nat, i: nat, h: nat)
    requires Inv(s, g) && h != m && h in s.meta && h in g.cls && g.cls[h] == META_CLASS && s.meta[h].freeSlots > 0
    ensures HasMetaSlot(ChunkGet(s, m, SlotSize(i)))
  {
    ListFact(s, g, META_CLASS, h);
    assert At(ChunkGet(s, m, SlotSize(i)), h).freeSlots > 0;
  }

  /**
   slab_alloc: a fresh, zeroed block, no smaller than asked for when at most a page was;
   every block handed out before keeps its address, size and contents.
   */
  lemma AllocKeeps(s: State, g: Aux, bytes: nat, stack: nat) returns (g': Aux)
    requires Inv(s, g) && Settled(s, g) && HasMetaSlot(s) && |s.pool| >= 2 && stack >= 2
    ensures DoSlabAlloc(s, bytes, stack).Some?
    ensures var b := DoSlabAlloc(s, bytes, stack).value;
      && Inv(b.s, g') && Busy(b.s, g') && HasMetaSlot(b.s) && g'.pages == g.pages
      && b.ptr !in g.home && ClientBlocks(b.s, g') == ClientBlocks(s, g) + {b.ptr}
      && (bytes <= PAGE_SIZE ==> bytes <= BlockSize(g', b.ptr))
      && (forall a: nat :: b.ptr <= a < b.ptr + BlockSize(g', b.ptr) ==> Rd(b.s.mem, a) == 0)
      && (forall p :: p in g.home ==> BlockSize(g', p) == BlockSize(g, p))
      && Kept(s, b.s, g, g.home.Keys)
  {
    var i := SizeIdx(bytes);
    var g1 := SlabReady(s, g, i, stack);
    var r := SlabFor(s, i, stack).value;
    g' := Take(r.s, g1, r.m);
    var b := DoSlabAlloc(s, bytes, stack).value;
    AdvancedTrans(s, g, r.s, g1, b.s, g');
    FreeAtMost(r.s, g1, r.m);
    SizeIdxTightest(bytes);
    forall p | p in g.home
      ensures BlockSize(g', p) == BlockSize(g, p)
    {
      HousedFact(s, g, p);
    }
  }

  // ---- do_slab_free ----

  /** The nested search finds the one slab on the block's page. */
  lemma FindFact(s: State, g: Aux, p: nat)
    requires Inv(s, g) && p in g.home
    ensures Housed(s, g, p)
    ensures FindSlab(s, 0, PageOf(p)) == Some(Found(g.cls[g.home[p]], g.home[p]))
  {
    HousedFact(s, g, p);
    var h := g.home[p];
    assert Holds(Pages, s, g) && Holds(Lists, s, g);
    PagesApart(s.meta[h].slab, 0, p);
    FindFrom(s, g, 0, h);
  }

  lemma {:induction false} FindFrom(s: State, g: Aux, i: nat, h: nat)
    requires ListsOk(s, g) && PagesOk(s, g) && h in s.meta && i <= g.cls[h]
    ensures FindSlab(s, i, s.meta[h].slab) == Some(Found(g.cls[h], h))
    decreases N_SIZES - i
  {
    var page := s.meta[h].slab;
    FindInMember(s, s.slabs[i], page);
    if i < g.cls[h] {
      FindFrom(s, g, i + 1, h);
    } else {
      assert h in s.slabs[i];
    }
  }

  lemma NothingAtBootstrap(s: State, g: Aux)
    requires Inv(s, g)
    ensures DoSlabFree(s, BOOTSTRAP_META) == s
  {
    assert Holds(Pages, s, g) && Holds(Lists, s, g);
    NotFound(s, g, 0);
  }

  lemma {:induction false} NotFound(s: State, g: Aux, i: nat)
    requires ListsOk(s, g) && PagesOk(s, g)
    ensures FindSlab(s, i, PageOf(BOOTSTRAP_META)).None?
    decreases N_SIZES - i
  {
    if i < N_SIZES {
      FindInMember(s, s.slabs[i], PageOf(BOOTSTRAP_META));
      NotFound(s, g, i + 1);
    }
  }

  /** What a completed free of p leaves: everything but p, block by block. */
  ghost predicate Freed(s: State, g: Aux, p: nat, s': State, g': Aux) {
    && Inv(s', g') && g'.pages == g.pages
    && ClientBlocks(s', g') == ClientBlocks(s, g) - {p}
    && (forall q :: q in ClientBlocks(s', g') ==> BlockSize(g', q) == BlockSize(g, q))
    && Kept(s, s', g, ClientBlocks(s', g'))
  }

  /** Inductive step of the cascade: releasing h and freeing its metadata. */
  lemma FreedThrough(s: State, g: Aux, p: nat, s1: State, g1: Aux, h: nat, s2: State, g2: Aux)
    requires Inv(s, g) && p in ClientBlocks(s, g) && g1.pages == g.pages
    requires ClientBlocks(s1, g1) == ClientBlocks(s, g) - {p} + {h} && h !in ClientBlocks(s, g)
    requires forall q :: q in ClientBlocks(s, g) - {p} ==> BlockSize(g1, q) == BlockSize(g, q)
    requires Kept(s, s1, g, ClientBlocks(s, g) - {p})
    requires Freed(s1, g1, h, s2, g2)
    ensures Freed(s, g, p, s2, g2)
  {
    assert ClientBlocks(s2, g2) == ClientBlocks(s, g) - {p};
    forall q, a: nat | q in ClientBlocks(s2, g2) && q <= a < q + BlockSize(g, q)
      ensures Rd(s2.mem, a) == Rd(s.mem, a)
    {
      assert Rd(s1.mem, a) == Rd(s.mem, a);
    }
  }

  /** chunk_put followed by the release of the emptied slab h. */
  lemma PutAndRelease(s: State, g: Aux, p: nat) returns (g': Aux)
    requires Inv(s, g) && p in ClientBlocks(s, g) && Housed(s, g, p)
    requires At(ChunkPut(s, g.home[p], p), g.home[p]).freeSlots == Slots(g.cls[g.home[p]])
    ensures var h, i := g.home[p], g.cls[g.home[p]];
      && i < |s.slabs|
      && var s2 := Release(ChunkPut(s, h, p), i, h);
      && Inv(s2, g') && g'.pages == g.pages && g'.home == g.home - {p} && g'.cls == g.cls - {h}
      && s2.meta.Keys == s.meta.Keys - {h}
      && (forall m :: m in s2.meta ==> s2.meta[m] == s.meta[m])
      && (forall q :: q in g'.home ==> g'.home[q] != h)
      && Kept(s, s2, g, g'.home.Keys)
  {
    var h, i := g.home[p], g.cls[g.home[p]];
    var s1, g1 := ChunkPut(s, h, p), g.(home := g.home - {p});
    PutKeepsInv(s, g, p);
    PutKeepsContents(s, g, p);
    ReleaseKeepsInv(s1, g1, h);
    g' := Forgotten(g1, h);
    var s2, page := Release(s1, i, h), s1.meta[h].slab;
    assert page % PAGE_SIZE == 0 by { assert Holds(Pages, s1, g1); }
    forall q | q in g1.home
      ensures PageOf(q) != page
    {
      HousedFact(s2, g', q);
      assert Holds(Pages, s1, g1);
      PagesApart(s1.meta[g1.home[q]].slab, page, q);
    }
    OffPageKeepsContents(s1, s2, g1, page);
    forall q, a: nat | q in g1.home && q <= a < q + BlockSize(g, q)
      ensures Rd(s2.mem, a) == Rd(s.mem, a)
    {
      assert q in g.home.Keys - {p} && Rd(s1.mem, a) == Rd(s.mem, a);
      assert BlockSize(g1, q) == BlockSize(g, q);
    }
  }

  /**
   slab_free of a live client block: exactly that block goes, all others keep size and contents.
   The cascade page -> metadata chunk -> its page ends because each level removes a slab, and
   it leaves a free 32-byte chunk behind unless it removed every slab.
   */
  lemma {:induction false} FreeKeeps(s: State, g: Aux, p: nat) returns (g': Aux)
    requires Inv(s, g) && p in ClientBlocks(s, g)
    ensures Freed(s, g, p, DoSlabFree(s, p), g')
    ensures Busy(s, g) ==> Busy(DoSlabFree(s, p), g')
    ensures HasMetaSlot(s) || (Housed(s, g, p) && g.cls[g.home[p]] == META_CLASS) ==>
              BOOTSTRAP_META !in DoSlabFree(s, p).meta || HasMetaSlot(DoSlabFree(s, p))
    decreases |s.meta|, 1
  {
    FindFact(s, g, p);
    var h, i := g.home[p], g.cls[g.home[p]];
    var s1 := ChunkPut(s, h, p);
    if At(s1, h).freeSlots == Slots(i) {
      g' := Cascade(s, g, p);
    } else {
      PutKeepsInv(s, g, p);
      PutKeepsContents(s, g, p);
      g' := g.(home := g.home - {p});
      assert ClientBlocks(s1, g') == ClientBlocks(s, g) - {p};
      FreeAtMost(s1, g', h);
      PutLeavesSlot(s, g, p);
    }
  }

  lemma PutLeavesSlot(s: State, g: Aux, p: nat)
    requires Inv(s, g) && Housed(s, g, p)
    ensures HasMetaSlot(s) || g.cls[g.home[p]] == META_CLASS ==> HasMetaSlot(ChunkPut(s, g.home[p], p))
  {
    var h := g.home[p];
    var s1 := ChunkPut(s, h, p);
    FreeAtMost(s, g, h);
    if g.cls[h] == META_CLASS {
      ListFact(s, g, META_CLASS, h);
      assert h in List(s1, META_CLASS) && At(s1, h).freeSlots > 0;
    } else if HasMetaSlot(s) {
      var m :| m in List(s, META_CLASS) && At(s, m).freeSlots > 0;
      ListFact(s, g, META_CLASS, m);
      assert m in List(s1, META_CLASS) && At(s1, m).freeSlots > 0;
    }
  }

  lemma {:induction false} Cascade(s: State, g: Aux, p: nat) returns (g': Aux)
    requires Inv(s, g) && p in ClientBlocks(s, g) && Housed(s, g, p)
    requires FindSlab(s, 0, PageOf(p)) == Some(Found(g.cls[g.home[p]], g.home[p]))
    requires At(ChunkPut(s, g.home[p], p), g.home[p]).freeSlots == Slots(g.cls[g.home[p]])
    ensures Freed(s, g, p, DoSlabFree(s, p), g')
    ensures Busy(s, g) ==> Busy(DoSlabFree(s, p), g')
    ensures BOOTSTRAP_META !in DoSlabFree(s, p).meta || HasMetaSlot(DoSlabFree(s, p))
    decreases |s.meta|, 0
  {
    var h, i := g.home[p], g.cls[g.home[p]];
    var g2 := PutAndRelease(s, g, p);
    var s2 := Release(ChunkPut(s, h, p), i, h);
    assert DoSlabFree(s, p) == DoSlabFree(s2, h);
    assert |s2.meta| < |s.meta| by {
      assert |s2.meta.Keys| == |s2.meta| && |s.meta.Keys| == |s.meta|;
    }
    if h == BOOTSTRAP_META {
      NothingAtBootstrap(s2, g2);
      BootstrapLast(s2, g2);
      g' := g2;
      assert ClientBlocks(s2, g2) == ClientBlocks(s, g) - {p};
    } else {
      MetaIsLive(s, g, h);
      assert ClientBlocks(s2, g2) == ClientBlocks(s, g) - {p} + {h};
      HousedFact(s2, g2, h);
      g' := FreeKeeps(s2, g2, h);
      FreedThrough(s, g, p, s2, g2, h, DoSlabFree(s2, h), g');
    }
  }
}
