/**
 Every run of slab_init, slab_alloc, slab_free and client stores agrees with an ideal heap
 of separate blocks, and an allocation returns exactly as long as something is outstanding.
 */
module SlabTheorems {
  import opened Common
  import opened Slab
  import opened SlabInvariant
  import opened SlabRuns
  import opened Machine

  datatype Event = Alloc(bytes: nat) | Free(p: nat) | Write(p: nat, off: nat, v: nat)

  /** The allocator's state next to the ideal heap: each client block with its contents. */
  datatype Sys = Sys(s: State, heap: map<nat, seq<nat>>)

  ghost predicate Next(x: Sys, e: Event, y: Sys) {
    match e
    case Alloc(bytes) =>
      // kmalloc sends only requests of at most a page here
      && bytes <= PAGE_SIZE && |x.s.pool| >= 2
      && exists stack: nat, ptr ::
           && stack >= 2 // room for one nested call
           && DoSlabAlloc(x.s, bytes, stack) == Some(Block(y.s, ptr))
           && y.heap == x.heap[ptr := seq(bytes, _ => 0)]
    case Free(p) =>
      p in x.heap && y == Sys(DoSlabFree(x.s, p), x.heap - {p})
    case Write(p, off, v) =>
      && p in x.heap && off < |x.heap[p]|
      && var data: seq<nat> := x.heap[p][off := v];
      && y == Sys(x.s.(mem := x.s.mem[p + off := v]), x.heap[p := data])
  }

  /** The frames pf_free has put into the free stack, linked through their first words. */
  ghost predicate IsFramePool(pool: seq<nat>, mem: map<nat, nat>) {
    && pool != [] && Distinct(pool) && Linked(pool, mem)
    && forall p :: p in pool ==> p % PAGE_SIZE == 0 && p >= PFA_VIRT_OFFSET
  }

  ghost predicate IsRun(pool: seq<nat>, mem: map<nat, nat>, xs: seq<Sys>, es: seq<Event>) {
    && IsFramePool(pool, mem) && |xs| == |es| + 1
    && xs[0] == Sys(SlabInit(pool, mem), map[])
    && forall k :: 0 <= k < |es| ==> Next(xs[k], es[k], xs[k + 1])
  }

  ghost predicate Agrees(x: Sys, g: Aux) {
    && x.heap.Keys == ClientBlocks(x.s, g)
    && (forall p :: p in x.heap ==> |x.heap[p]| <= BlockSize(g, p))
    && forall p, off :: p in x.heap && 0 <= off < |x.heap[p]| ==> Rd(x.s.mem, p + off) == x.heap[p][off]
  }

  ghost predicate Good(x: Sys, g: Aux, used: bool) {
    && Inv(x.s, g) && Agrees(x, g)
    && (if used then Busy(x.s, g) else x.s.meta.Keys == {BOOTSTRAP_META} && x.heap == map[])
    && (BOOTSTRAP_META in x.s.meta ==> HasMetaSlot(x.s))
  }

  // ---- slab_init ----

  /** The state slab_init leaves: one all-free 32-byte slab on the first frame. */
  ghost predicate Initial(pool: seq<nat>, s: State) {
    && pool != [] && s.pool == pool[1..] && |s.slabs| == N_SIZES
    && s.meta.Keys == {BOOTSTRAP_META} && s.meta[BOOTSTRAP_META].slab == pool[0]
    && s.meta[BOOTSTRAP_META].freeSlots == Slots(META_CLASS)
    && (forall i :: 0 <= i < N_SIZES ==> s.slabs[i] == if i == META_CLASS then [BOOTSTRAP_META] else [])
    && SlabOk(s.mem, s.meta[BOOTSTRAP_META], META_CLASS, {})
  }

  lemma InitShape(pool: seq<nat>, mem: map<nat, nat>)
    requires IsFramePool(pool, mem)
    ensures Initial(pool, SlabInit(pool, mem)) && Linked(SlabInit(pool, mem).pool, SlabInit(pool, mem).mem)
  {
    var s0 := State(pool, map[], EmptyLists(), mem);
    var m, i: nat := BOOTSTRAP_META, META_CLASS;
    assert pool[0] in pool;
    PrepareSpec(s0, m, i);
    var s1 := PrepareSlab(s0, m, i);
    PopStack(s0, s1.mem);
    assert s1.slabs == EmptyLists() && i < |s1.slabs|;
    assert SlabInit(pool, mem) == Link(s1, m, i);
  }

  ghost function InitAux(pool: seq<nat>): Aux {
    Aux(map[], map[BOOTSTRAP_META := META_CLASS], map[BOOTSTRAP_META := 0], Elems(pool))
  }

  lemma InitPages(pool: seq<nat>, mem: map<nat, nat>, s: State)
    requires IsFramePool(pool, mem) && Initial(pool, s)
    ensures PagesOk(s, InitAux(pool))
  {
    DistinctCardinality(pool);
    assert pool[0] in pool && pool == [pool[0]] + pool[1..];
    assert |s.meta| == |s.meta.Keys| == 1;
  }

  lemma InitGood(pool: seq<nat>, mem: map<nat, nat>)
    requires IsFramePool(pool, mem)
    ensures Good(Sys(SlabInit(pool, mem), map[]), InitAux(pool), false)
  {
    var s, g := SlabInit(pool, mem), InitAux(pool);
    InitShape(pool, mem);
    assert ListsOk(s, g);
    InitPages(pool, mem, s);
    assert ForestOk(s, g);
    assert g.home.Keys == {};
    Close(s, g);
    assert Slots(META_CLASS) > 0 by { SlotsFill(META_CLASS); }
    assert BOOTSTRAP_META in List(s, META_CLASS) && At(s, BOOTSTRAP_META).freeSlots > 0;
  }

  // ---- One step ----

  lemma AllocGood(x: Sys, bytes: nat, y: Sys, g: Aux, used: bool) returns (g': Aux)
    requires Good(x, g, used) && BOOTSTRAP_META in x.s.meta && Next(x, Alloc(bytes), y)
    ensures Good(y, g', true) && g'.pages == g.pages
  {
    var stack: nat, ptr :|
      && stack >= 2 && DoSlabAlloc(x.s, bytes, stack) == Some(Block(y.s, ptr))
      && y.heap == x.heap[ptr := seq(bytes, _ => 0)];
    g' := AllocKeeps(x.s, g, bytes, stack);
    AllocAgrees(x, y, g, g', ptr, bytes);
  }

  lemma AllocAgrees(x: Sys, y: Sys, g: Aux, g': Aux, ptr: nat, bytes: nat)
    requires Agrees(x, g) && y.heap == x.heap[ptr := seq(bytes, _ => 0)]
    requires ptr !in g.home && ClientBlocks(y.s, g') == ClientBlocks(x.s, g) + {ptr} && bytes <= BlockSize(g', ptr)
    requires forall a: nat :: ptr <= a < ptr + BlockSize(g', ptr) ==> Rd(y.s.mem, a) == 0
    requires forall p :: p in g.home ==> BlockSize(g', p) == BlockSize(g, p)
    requires Kept(x.s, y.s, g, g.home.Keys)
    ensures Agrees(y, g')
  {
    assert y.heap.Keys == x.heap.Keys + {ptr};
    forall p, off | p in y.heap && 0 <= off < |y.heap[p]|
      ensures Rd(y.s.mem, p + off) == y.heap[p][off]
    {
      if p != ptr {
        assert p in g.home.Keys && p <= p + off < p + BlockSize(g, p);
      }
    }
  }

  lemma FreeGood(x: Sys, p: nat, y: Sys, g: Aux) returns (g': Aux)
    requires Good(x, g, true) && Next(x, Free(p), y)
    ensures Good(y, g', true) && g'.pages == g.pages
  {
    g' := FreeKeeps(x.s, g, p);
    HousedFact(x.s, g, p);
    if BOOTSTRAP_META !in x.s.meta {
      BootstrapLast(x.s, g);
    }
    assert y.heap.Keys == x.heap.Keys - {p};
    forall q, off | q in y.heap && 0 <= off < |y.heap[q]|
      ensures Rd(y.s.mem, q + off) == y.heap[q][off]
    {
      assert q <= q + off < q + BlockSize(g, q);
    }
  }

  lemma WriteGood(x: Sys, p: nat, off: nat, v: nat, y: Sys, g: Aux)
    requires Good(x, g, true) && Next(x, Write(p, off, v), y)
    ensures Good(y, g, true)
  {
    WriteKeepsInv(x.s, g, p, p + off, v);
    forall q, o | q in y.heap && 0 <= o < |y.heap[q]|
      ensures Rd(y.s.mem, q + o) == y.heap[q][o]
    {
      if q < p {
        BlocksDisjoint(x.s, g, q, p);
      } else if p < q {
        BlocksDisjoint(x.s, g, p, q);
      }
    }
    if HasMetaSlot(x.s) {
      var m :| m in List(x.s, META_CLASS) && At(x.s, m).freeSlots > 0;
      assert m in List(y.s, META_CLASS) && At(y.s, m).freeSlots > 0;
    }
  }

  // ---- When the recursion ends ----

  /** With no slab left every nested do_slab_alloc starts another: no stack is enough. */
  lemma {:induction false} NoSlabsNoEnd(s: State, i: nat, stack: nat)
    requires forall j :: 0 <= j < |s.slabs| ==> s.slabs[j] == []
    ensures SlabFor(s, i, stack).None?
    decreases stack
  {
    if stack > 0 {
      NoSlabsNoEnd(s, META_CLASS, stack - 1);
    }
  }

  lemma EmptiedListsEmpty(s: State, g: Aux)
    requires Inv(s, g) && s.meta == map[]
    ensures forall j :: 0 <= j < |s.slabs| ==> s.slabs[j] == []
  {
    KeysFact(s, g);
    forall j | 0 <= j < |s.slabs|
      ensures s.slabs[j] == []
    {
      if s.slabs[j] != [] {
        ListFact(s, g, j, s.slabs[j][0]);
      }
    }
  }

  /** A slab that is not entirely free holds a live chunk. */
  lemma LiveChunkIn(s: State, g: Aux, m: nat) returns (a: nat)
    requires Inv(s, g) && m in s.meta && m in g.cls && s.meta[m].freeSlots < Slots(g.cls[m])
    ensures a in g.home && g.home[a] == m
  {
    var mt, i := s.meta[m], g.cls[m];
    assert SlabOk(s.mem, mt, i, g.home.Keys) by { assert Holds(Slabs, s, g); }
    var fl, all := Chain(s.mem, mt.freelist, mt.freeSlots), Desc(mt.slab, SlotSize(i), Slots(i));
    ChainLength(s.mem, mt.freelist, mt.freeSlots);
    DescAt(mt.slab, SlotSize(i), Slots(i));
    DescIsSlots(mt.slab, i);
    DistinctCardinality(fl);
    DistinctCardinality(all);
    if Elems(all) <= Elems(fl) {
      SubsetCardinality(Elems(all), Elems(fl));
    }
    a :| a in Elems(all) && a !in Elems(fl);
    HousedFact(s, g, a);
    assert Holds(Pages, s, g);
    PagesApart(mt.slab, 0, a);
    PagesApart(s.meta[g.home[a]].slab, 0, a);
  }

  /** Any busy slab leads, along ever younger metadata, to a client block. */
  lemma {:induction false} OwnerExists(s: State, g: Aux, m: nat, limit: nat)
    requires Inv(s, g) && Busy(s, g) && m in s.meta && m in g.cls && m in g.born
    requires forall n :: n in g.born ==> g.born[n] < limit
    ensures ClientBlocks(s, g) != {}
    decreases limit - g.born[m]
  {
    var a := LiveChunkIn(s, g, m);
    if a in s.meta {
      KeysFact(s, g);
      assert a != BOOTSTRAP_META by { assert Holds(Forest, s, g); }
      MetaIsLive(s, g, a);
      OwnerExists(s, g, a, limit);
    } else {
      assert a in ClientBlocks(s, g);
    }
  }

  // ---- Every run ----

  lemma {:induction false} RunGood(pool: seq<nat>, mem: map<nat, nat>, xs: seq<Sys>, es: seq<Event>, k: nat)
    returns (g: Aux)
    requires IsRun(pool, mem, xs, es) && k <= |es|
    ensures Good(xs[k], g, k > 0) && g.pages == Elems(pool)
    decreases k
  {
    if k == 0 {
      InitGood(pool, mem);
      g := InitAux(pool);
    } else {
      var g0 := RunGood(pool, mem, xs, es, k - 1);
      var x, y := xs[k - 1], xs[k];
      assert Next(x, es[k - 1], y);
      match es[k - 1] {
        case Alloc(bytes) =>
          AllocNeedsSlab(x, bytes, y, g0);
          g := AllocGood(x, bytes, y, g0, k - 1 > 0);
        case Free(p) =>
          g := FreeGood(x, p, y, g0);
        case Write(p, off, v) =>
          WriteGood(x, p, off, v, y, g0);
          g := g0;
      }
    }
  }

  /** At every point the free stack is the list pf_free has built in the free frames themselves. */
  lemma StackInMemory(pool: seq<nat>, mem: map<nat, nat>, xs: seq<Sys>, es: seq<Event>, k: nat)
    requires IsRun(pool, mem, xs, es) && k <= |es|
    ensures Linked(xs[k].s.pool, xs[k].s.mem)
  {
    var g := RunGood(pool, mem, xs, es, k);
    assert Holds(Stack, xs[k].s, g);
  }

  lemma AllocNeedsSlab(x: Sys, bytes: nat, y: Sys, g: Aux)
    requires Inv(x.s, g) && Next(x, Alloc(bytes), y)
    ensures BOOTSTRAP_META in x.s.meta
  {
    if BOOTSTRAP_META !in x.s.meta {
      BootstrapLast(x.s, g);
      EmptiedListsEmpty(x.s, g);
      forall stack: nat
        ensures SlabFor(x.s, SizeIdx(bytes), stack).None?
      {
        NoSlabsNoEnd(x.s, SizeIdx(bytes), stack);
      }
    }
  }

  /**
   Refinement: at every point of every run the invariant holds over the same frames, the live
   client blocks are those of the ideal heap, and memory holds the ideal contents of each.
   */
  lemma HeapRefinement(pool: seq<nat>, mem: map<nat, nat>, xs: seq<Sys>, es: seq<Event>, k: nat)
    requires IsRun(pool, mem, xs, es) && k <= |es|
    ensures exists g :: Inv(xs[k].s, g) && Agrees(xs[k], g) && g.pages == Elems(pool)
  {
    var g := RunGood(pool, mem, xs, es, k);
  }

  /** In every run: outstanding blocks do not overlap, nor does metadata overlap them. */
  lemma BlocksSeparate(pool: seq<nat>, mem: map<nat, nat>, xs: seq<Sys>, es: seq<Event>, k: nat, p: nat, q: nat)
    requires IsRun(pool, mem, xs, es) && k <= |es| && p in xs[k].heap && q != p
    requires q in xs[k].heap || (q in xs[k].s.meta && q != BOOTSTRAP_META)
    ensures p + |xs[k].heap[p]| <= q || q + (if q in xs[k].heap then |xs[k].heap[q]| else META_BYTES) <= p
  {
    var g := RunGood(pool, mem, xs, es, k);
    var x := xs[k];
    if q in x.s.meta {
      MetaIsLive(x.s, g, q);
    }
    if p < q {
      BlocksDisjoint(x.s, g, p, q);
    } else {
      BlocksDisjoint(x.s, g, q, p);
    }
  }

  /** Once everything allocated has been freed there is no slab left, and no allocation ever returns. */
  lemma DrainedNoEnd(pool: seq<nat>, mem: map<nat, nat>, xs: seq<Sys>, es: seq<Event>, bytes: nat, stack: nat)
    requires IsRun(pool, mem, xs, es) && es != [] && xs[|es|].heap == map[]
    ensures DoSlabAlloc(xs[|es|].s, bytes, stack).None?
  {
    var x := xs[|es|];
    assert x.heap.Keys == {};
    var g := RunGood(pool, mem, xs, es, |es|);
    if BOOTSTRAP_META in x.s.meta {
      assert Holds(Lists, x.s, g);
      var limit := FreshStamp(g.born);
      OwnerExists(x.s, g, BOOTSTRAP_META, limit);
    } else {
      BootstrapLast(x.s, g);
      EmptiedListsEmpty(x.s, g);
      NoSlabsNoEnd(x.s, SizeIdx(bytes), stack);
    }
  }

  /**
   Exactly when an allocation returns: before anything was allocated, or while something is
   outstanding; one nested call is then enough. After the last outstanding block is freed the
   bootstrap slab is gone and do_slab_alloc recurses without end.
   */
  lemma AllocReturnsIff(pool: seq<nat>, mem: map<nat, nat>, xs: seq<Sys>, es: seq<Event>, bytes: nat)
    requires IsRun(pool, mem, xs, es) && |xs[|es|].s.pool| >= 2
    ensures var x := xs[|es|];
      && (DoSlabAlloc(x.s, bytes, 2).Some? <==> es == [] || x.heap != map[])
      && ((exists stack: nat :: DoSlabAlloc(x.s, bytes, stack).Some?) ==> DoSlabAlloc(x.s, bytes, 2).Some?)
  {
    var x := xs[|es|];
    if es == [] || x.heap != map[] {
      var g := RunGood(pool, mem, xs, es, |es|);
      if BOOTSTRAP_META !in x.s.meta {
        BootstrapLast(x.s, g);
      }
      var g' := AllocKeeps(x.s, g, bytes, 2);
    } else {
      forall stack: nat
        ensures DoSlabAlloc(x.s, bytes, stack).None?
      {
        DrainedNoEnd(pool, mem, xs, es, bytes, stack);
      }
    }
  }

  lemma FirstAlloc(pool: seq<nat>, mem: map<nat, nat>, bytes: nat) returns (x1: Sys, ptr: nat)
    requires IsFramePool(pool, mem) && |pool| >= 3 && bytes <= PAGE_SIZE
    ensures Next(Sys(SlabInit(pool, mem), map[]), Alloc(bytes), x1) && x1.heap.Keys == {ptr}
  {
    var x0 := Sys(SlabInit(pool, mem), map[]);
    InitShape(pool, mem);
    AllocReturnsIff(pool, mem, [x0], [], bytes);
    var b := DoSlabAlloc(x0.s, bytes, 2).value;
    ptr := b.ptr;
    x1 := Sys(b.s, x0.heap[ptr := seq(bytes, _ => 0)]);
    assert DoSlabAlloc(x0.s, bytes, 2) == Some(Block(x1.s, ptr));
  }

  /** It takes two calls: after one allocation and its release, on any frames, no allocation returns. */
  lemma OneAllocOneFree(pool: seq<nat>, mem: map<nat, nat>, bytes: nat) returns (xs: seq<Sys>, es: seq<Event>)
    requires IsFramePool(pool, mem) && |pool| >= 3 && bytes <= PAGE_SIZE
    ensures IsRun(pool, mem, xs, es) && |es| == 2 && es[0] == Alloc(bytes) && es[1].Free?
    ensures forall b: nat, stack: nat :: DoSlabAlloc(xs[2].s, b, stack).None?
  {
    var x0 := Sys(SlabInit(pool, mem), map[]);
    var x1, ptr := FirstAlloc(pool, mem, bytes);
    var x2 := Sys(DoSlabFree(x1.s, ptr), map[]);
    assert x1.heap - {ptr} == map[];
    xs, es := [x0, x1, x2], [Alloc(bytes), Free(ptr)];
    forall c: nat, stack: nat
      ensures DoSlabAlloc(xs[2].s, c, stack).None?
    {
      DrainedNoEnd(pool, mem, xs, es, c, stack);
    }
  }

  const FRAMES: seq<nat> := [0xD000_0000, 0xD000_1000, 0xD000_2000]
  const LINKS: map<nat, nat> := map[0xD000_0000 := 0xD000_1000, 0xD000_1000 := 0xD000_2000]

  /** For instance with the first three frames. */
  lemma ThreeFrames() returns (xs: seq<Sys>, es: seq<Event>)
    ensures IsRun(FRAMES, LINKS, xs, es) && |es| == 2 && es[0] == Alloc(8)
    ensures forall b: nat, stack: nat :: DoSlabAlloc(xs[2].s, b, stack).None?
  {
    forall k | 0 <= k < |FRAMES|
      ensures Rd(LINKS, FRAMES[k]) == FrameAt(FRAMES, k + 1)
    {
      assert k == 0 || k == 1 || k == 2;
    }
    xs, es := OneAllocOneFree(FRAMES, LINKS, 8);
  }
}
