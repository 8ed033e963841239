/**
 What every reachable slab state satisfies, and that each elementary action keeps it:
 each slab's slots are partitioned into its freelist and its live chunks, and the
 metadata chunks form a forest rooted at the bootstrap slab.
 */
module SlabInvariant {
  import opened Common
  import opened Slab
  import opened Arith
  import opened Machine

  /** The freelist of n nodes starting at a, following the links in memory. */
  ghost function Chain(mem: map<nat, nat>, a: nat, n: int): seq<nat>
    decreases n
  {
    if n <= 0 then [] else [a] + Chain(mem, Rd(mem, a), n - 1)
  }

  /** The list starting at a is NULL-terminated after exactly n nodes. */
  ghost predicate Ends(mem: map<nat, nat>, a: nat, n: int)
    decreases n
  {
    if n <= 0 then n == 0 && a == 0 else a != 0 && Ends(mem, Rd(mem, a), n - 1)
  }

  ghost predicate IsSlot(page: nat, i: nat, a: nat) {
    page <= a < page + PAGE_SIZE && (a - page) % SlotSize(i) == 0
  }

  ghost predicate SlabOk(mem: map<nat, nat>, mt: Meta, i: nat, live: set<nat>) {
    var fl := Chain(mem, mt.freelist, mt.freeSlots);
    && mt.freeSlots >= 0
    && Ends(mem, mt.freelist, mt.freeSlots)
    && Distinct(fl)
    && (forall a :: a in fl ==> IsSlot(mt.slab, i, a) && a !in live)
    && (forall a :: IsSlot(mt.slab, i, a) && a !in live ==> a in fl)
  }

  /**
   Auxiliary variables of the proof.
   home: every live chunk (client block or metadata) to the metadata of the slab it lies in
   cls:  size class of each slab
   born: creation order of the slabs
   pages: the page frames the allocator works with
   */
  datatype Aux = Aux(home: map<nat, nat>, cls: map<nat, nat>, born: map<nat, nat>, pages: set<nat>)

  ghost predicate ListsOk(s: State, g: Aux) {
    && |s.slabs| == N_SIZES
    && g.cls.Keys == s.meta.Keys && g.born.Keys == s.meta.Keys
    && (forall m :: m in g.cls ==> g.cls[m] < N_SIZES)
    && (forall i, m :: 0 <= i < N_SIZES ==> (m in s.slabs[i] <==> m in g.cls && g.cls[m] == i))
    && (forall i :: 0 <= i < N_SIZES ==> Distinct(s.slabs[i]))
  }

  /** Free frames and slab pages are disjoint and together all the frames there are. */
  ghost predicate PagesOk(s: State, g: Aux) {
    && (forall p :: p in g.pages ==> p % PAGE_SIZE == 0 && p >= PFA_VIRT_OFFSET)
    && Distinct(s.pool)
    && (forall p :: p in s.pool ==> p in g.pages)
    && (forall m :: m in s.meta ==> s.meta[m].slab in g.pages && s.meta[m].slab !in s.pool)
    && (forall m, n :: m in s.meta && n in s.meta && m != n ==> s.meta[m].slab != s.meta[n].slab)
    && |s.pool| + |s.meta| == |g.pages|
  }

  /** The live chunk a is a slot of a live slab. */
  ghost predicate Housed(s: State, g: Aux, a: nat) {
    && a in g.home && g.home[a] in s.meta && g.home[a] in g.cls
    && IsSlot(s.meta[g.home[a]].slab, g.cls[g.home[a]], a)
  }

  /** The metadata m is a live chunk of an older 32-byte slab. */
  ghost predicate Rooted(s: State, g: Aux, m: nat) {
    && m in g.home && g.home[m] in g.cls && g.cls[g.home[m]] == META_CLASS
    && m in g.born && g.home[m] in g.born && g.born[g.home[m]] < g.born[m]
  }

  ghost predicate ForestOk(s: State, g: Aux) {
    && BOOTSTRAP_META !in g.home
    && (BOOTSTRAP_META in s.meta ==> BOOTSTRAP_META in g.cls && g.cls[BOOTSTRAP_META] == META_CLASS)
    && (forall a {:trigger Housed(s, g, a)} :: a in g.home ==> Housed(s, g, a))
    && (forall m {:trigger Rooted(s, g, m)} :: m in s.meta && m != BOOTSTRAP_META ==> Rooted(s, g, m))
  }

  ghost predicate SlabsOk(s: State, g: Aux) {
    forall m :: m in s.meta && m in g.cls ==> SlabOk(s.mem, s.meta[m], g.cls[m], g.home.Keys)
  }

  /** The free frames as the page frame allocator keeps them: a list linked through their first words. */
  ghost predicate Linked(pool: seq<nat>, mem: map<nat, nat>) {
    forall k :: 0 <= k < |pool| ==> Rd(mem, pool[k]) == FrameAt(pool, k + 1)
  }

  /** The k-th free frame, or NULL past the last. */
  ghost function FrameAt(pool: seq<nat>, k: nat): nat {
    if k < |pool| then pool[k] else 0
  }

  datatype Clause = Lists | Pages | Forest | Slabs | Stack

  ghost predicate Holds(clause: Clause, s: State, g: Aux) {
    match clause
    case Lists => ListsOk(s, g)
    case Pages => PagesOk(s, g)
    case Forest => ForestOk(s, g)
    case Slabs => SlabsOk(s, g)
    case Stack => Linked(s.pool, s.mem)
  }

  /** The invariant: every clause holds. (Quantified so that proofs name the clauses they use.) */
  ghost predicate Inv(s: State, g: Aux) {
    forall clause {:trigger Holds(clause, s, g)} :: Holds(clause, s, g)
  }

  lemma Open(s: State, g: Aux)
    requires Inv(s, g)
    ensures ListsOk(s, g) && PagesOk(s, g) && ForestOk(s, g) && SlabsOk(s, g) && Linked(s.pool, s.mem)
  {
    assert Holds(Lists, s, g) && Holds(Pages, s, g) && Holds(Forest, s, g) && Holds(Slabs, s, g) && Holds(Stack, s, g);
  }

  lemma Close(s: State, g: Aux)
    requires ListsOk(s, g) && PagesOk(s, g) && ForestOk(s, g) && SlabsOk(s, g) && Linked(s.pool, s.mem)
    ensures Inv(s, g)
  {
    forall clause ensures Holds(clause, s, g) {
      match clause case Lists => case Pages => case Forest => case Slabs => case Stack =>
    }
  }

  // ---- Slots and chains ----

  /** Two different slots of a page are at least a slot apart. */
  lemma SlotsApart(page: nat, i: nat, a: nat, b: nat)
    requires IsSlot(page, i, a) && IsSlot(page, i, b) && a < b
    ensures a + SlotSize(i) <= b
  {
    var z := SlotSize(i);
    var k, j := (a - page) / z, (b - page) / z;
    assert a - page == k * z && b - page == j * z;
    if k < j {
      assert (k + 1) * z <= j * z;
    }
  }

  /** A slot lies entirely within its page. */
  lemma SlotInPage(page: nat, i: nat, a: nat)
    requires IsSlot(page, i, a)
    ensures a + SlotSize(i) <= page + PAGE_SIZE
  {
    var z := SlotSize(i);
    assert i < N_SIZES ==> CHUNK_SIZES[i] in CHUNK_SIZES;
    assert PAGE_SIZE % z == 0;
    var k, n := (a - page) / z, PAGE_SIZE / z;
    assert a - page == k * z && PAGE_SIZE == n * z;
    if k < n {
      assert (k + 1) * z <= n * z;
    }
  }

  lemma {:induction false} ChainAgree(mem: map<nat, nat>, mem': map<nat, nat>, a: nat, n: int)
    requires forall x :: x in Chain(mem, a, n) ==> Rd(mem, x) == Rd(mem', x)
    ensures Chain(mem', a, n) == Chain(mem, a, n)
    ensures Ends(mem', a, n) == Ends(mem, a, n)
    decreases n
  {
    if n > 0 {
      assert a in Chain(mem, a, n);
      assert forall x :: x in Chain(mem, Rd(mem, a), n - 1) ==> x in Chain(mem, a, n);
      ChainAgree(mem, mem', Rd(mem, a), n - 1);
    }
  }

  lemma {:induction false} ChainLength(mem: map<nat, nat>, a: nat, n: int)
    requires n >= 0
    ensures |Chain(mem, a, n)| == n
    decreases n
  {
    if n > 0 {
      ChainLength(mem, Rd(mem, a), n - 1);
    }
  }

  /** A slab is unaffected by changes that stay off its page. */
  lemma SlabFrame(mem: map<nat, nat>, mem': map<nat, nat>, mt: Meta, i: nat, live: set<nat>, live': set<nat>)
    requires SlabOk(mem, mt, i, live)
    requires forall a :: mt.slab <= a < mt.slab + PAGE_SIZE ==> Rd(mem, a) == Rd(mem', a)
    requires forall a :: mt.slab <= a < mt.slab + PAGE_SIZE ==> (a in live <==> a in live')
    ensures SlabOk(mem', mt, i, live')
  {
    ChainAgree(mem, mem', mt.freelist, mt.freeSlots);
  }

  lemma PagesApart(p: nat, q: nat, a: nat)
    requires p % PAGE_SIZE == 0 && q % PAGE_SIZE == 0 && p != q && p <= a < p + PAGE_SIZE
    ensures !(q <= a < q + PAGE_SIZE)
    ensures PageOf(a) == p
  {
  }

  lemma OnPage(page: nat, a: nat)
    requires page % PAGE_SIZE == 0 && page <= a < page + PAGE_SIZE
    ensures PageOf(a) == page
  {
    DivModUnique(a, PAGE_SIZE, page / PAGE_SIZE, a - page);
  }

  // ---- chunk_put and chunk_get on one slab ----

  lemma PutKeepsSlab(mem: map<nat, nat>, mt: Meta, i: nat, live: set<nat>, c: nat)
    requires SlabOk(mem, mt, i, live) && c in live && IsSlot(mt.slab, i, c) && c != 0
    ensures SlabOk(mem[c := mt.freelist], mt.(freelist := c, freeSlots := mt.freeSlots + 1), i, live - {c})
  {
    var mem' := mem[c := mt.freelist];
    var fl := Chain(mem, mt.freelist, mt.freeSlots);
    ChainAgree(mem, mem', mt.freelist, mt.freeSlots);
    assert Chain(mem', c, mt.freeSlots + 1) == [c] + fl;
    ConsDistinct(c, fl);
  }

  lemma GetKeepsSlab(mem: map<nat, nat>, mt: Meta, i: nat, live: set<nat>)
    requires SlabOk(mem, mt, i, live) && mt.freeSlots > 0
    ensures IsSlot(mt.slab, i, mt.freelist) && mt.freelist !in live && mt.freelist != 0
    ensures SlabOk(Zero(mem, mt.freelist, SlotSize(i)),
                   mt.(freelist := Rd(mem, mt.freelist), freeSlots := mt.freeSlots - 1), i, live + {mt.freelist})
  {
    var c := mt.freelist;
    var mem' := Zero(mem, c, SlotSize(i));
    var next := Rd(mem, c);
    FirstFree(mem, mt, i, live);
    forall x | x in Chain(mem, next, mt.freeSlots - 1)
      ensures Rd(mem, x) == Rd(mem', x)
    {
      if c < x { SlotsApart(mt.slab, i, c, x); }
    }
    ChainAgree(mem, mem', next, mt.freeSlots - 1);
  }

  /** The first free chunk of a slab, and the others. */
  lemma FirstFree(mem: map<nat, nat>, mt: Meta, i: nat, live: set<nat>)
    requires SlabOk(mem, mt, i, live) && mt.freeSlots > 0
    ensures IsSlot(mt.slab, i, mt.freelist) && mt.freelist !in live && mt.freelist != 0
    ensures var rest := Chain(mem, Rd(mem, mt.freelist), mt.freeSlots - 1);
      && Distinct(rest) && mt.freelist !in rest && Ends(mem, Rd(mem, mt.freelist), mt.freeSlots - 1)
      && (forall a :: a in rest ==> IsSlot(mt.slab, i, a) && a !in live)
      && (forall a :: IsSlot(mt.slab, i, a) && a !in live && a != mt.freelist ==> a in rest)
  {
    var fl, rest := Chain(mem, mt.freelist, mt.freeSlots), Chain(mem, Rd(mem, mt.freelist), mt.freeSlots - 1);
    assert fl == [mt.freelist] + rest;
    assert fl[0] == mt.freelist;
    RestOfChain(mt.freelist, rest);
  }

  lemma RestOfChain(c: nat, rest: seq<nat>)
    requires Distinct([c] + rest)
    ensures Distinct(rest) && c !in rest
    ensures forall x :: x in [c] + rest <==> x == c || x in rest
  {
    var fl := [c] + rest;
    assert forall k :: 0 <= k < |rest| ==> rest[k] == fl[k + 1];
    assert fl[0] == c;
  }

  // ---- The elementary actions keep the invariant ----

  /** Whatever changes only on one page leaves the slabs on other pages alone. */
  lemma OthersFramed(s: State, g: Aux, page: nat, mem': map<nat, nat>, live': set<nat>)
    requires PagesOk(s, g) && SlabsOk(s, g)
    requires forall a :: PageOf(a) != page ==> Rd(s.mem, a) == Rd(mem', a)
    requires forall a :: PageOf(a) != page ==> (a in g.home <==> a in live')
    ensures forall m :: m in s.meta && m in g.cls && s.meta[m].slab != page ==>
              SlabOk(mem', s.meta[m], g.cls[m], live')
  {
    forall m | m in s.meta && m in g.cls && s.meta[m].slab != page
      ensures SlabOk(mem', s.meta[m], g.cls[m], live')
    {
      forall a | s.meta[m].slab <= a < s.meta[m].slab + PAGE_SIZE
        ensures PageOf(a) == s.meta[m].slab
      {
        PagesApart(s.meta[m].slab, 0, a);
      }
      SlabFrame(s.mem, mem', s.meta[m], g.cls[m], g.home.Keys, live');
    }
  }

  /** Whatever changes only on a page in use leaves the links of the free frames alone. */
  lemma StackFramed(pool: seq<nat>, mem: map<nat, nat>, page: nat, mem': map<nat, nat>)
    requires Linked(pool, mem) && page !in pool && forall p :: p in pool ==> p % PAGE_SIZE == 0
    requires forall a :: PageOf(a) != page ==> Rd(mem, a) == Rd(mem', a)
    ensures Linked(pool, mem')
  {
    forall k | 0 <= k < |pool|
      ensures Rd(mem', pool[k]) == Rd(mem, pool[k])
    {
      assert pool[k] in pool;
      OnPage(pool[k], pool[k]);
    }
  }

  /** So does a change within one slot of a slab. */
  lemma StackKept(s: State, g: Aux, h: nat, c: nat, mem': map<nat, nat>)
    requires PagesOk(s, g) && Linked(s.pool, s.mem) && h in s.meta && h in g.cls
    requires IsSlot(s.meta[h].slab, g.cls[h], c)
    requires forall a: nat :: !(c <= a < c + SlotSize(g.cls[h])) ==> Rd(s.mem, a) == Rd(mem', a)
    ensures Linked(s.pool, mem')
  {
    var page := s.meta[h].slab;
    SlotInPage(page, g.cls[h], c);
    forall a: nat | PageOf(a) != page
      ensures Rd(s.mem, a) == Rd(mem', a)
    {
      if c <= a < c + SlotSize(g.cls[h]) { OnPage(page, a); }
    }
    StackFramed(s.pool, s.mem, page, mem');
  }

  /** s' differs from s only in memory and in the freelist fields of its metadata. */
  ghost predicate SameShape(s: State, s': State) {
    && s'.pool == s.pool && s'.slabs == s.slabs && s'.meta.Keys == s.meta.Keys
    && forall m :: m in s.meta ==> s'.meta[m].slab == s.meta[m].slab
  }

  lemma ListsKept(s: State, s': State, g: Aux, home': map<nat, nat>)
    requires ListsOk(s, g) && SameShape(s, s')
    ensures ListsOk(s', g.(home := home'))
  {
  }

  lemma PagesKept(s: State, s': State, g: Aux, home': map<nat, nat>)
    requires PagesOk(s, g) && SameShape(s, s')
    ensures PagesOk(s', g.(home := home'))
  {
    assert |s'.meta| == |s'.meta.Keys| == |s.meta.Keys| == |s.meta|;
  }

  lemma ForestPut(s: State, s': State, g: Aux, c: nat)
    requires ForestOk(s, g) && SameShape(s, s') && c in g.home && c !in s.meta
    ensures ForestOk(s', g.(home := g.home - {c}))
  {
    var g' := g.(home := g.home - {c});
    forall a | a in g'.home ensures Housed(s', g', a) { assert Housed(s, g, a); }
    forall m | m in s'.meta && m != BOOTSTRAP_META ensures Rooted(s', g', m) { assert Rooted(s, g, m); }
  }

  lemma ForestGet(s: State, s': State, g: Aux, c: nat, h: nat)
    requires ForestOk(s, g) && SameShape(s, s') && c !in g.home && c != BOOTSTRAP_META
    requires h in s.meta && h in g.cls && IsSlot(s.meta[h].slab, g.cls[h], c)
    ensures ForestOk(s', g.(home := g.home[c := h]))
  {
    var g' := g.(home := g.home[c := h]);
    forall a | a in g'.home ensures Housed(s', g', a) { assert a != c ==> Housed(s, g, a); }
    forall m | m in s'.meta && m != BOOTSTRAP_META ensures Rooted(s', g', m) { assert Rooted(s, g, m); }
  }

  lemma SlabsPut(s: State, g: Aux, c: nat)
    requires PagesOk(s, g) && SlabsOk(s, g) && Housed(s, g, c)
    ensures SlabsOk(ChunkPut(s, g.home[c], c), g.(home := g.home - {c}))
  {
    var h := g.home[c];
    var s', g' := ChunkPut(s, h, c), g.(home := g.home - {c});
    assert g'.home.Keys == g.home.Keys - {c};
    PutKeepsSlab(s.mem, s.meta[h], g.cls[h], g.home.Keys, c);
    PagesApart(s.meta[h].slab, 0, c);
    OthersFramed(s, g, s.meta[h].slab, s'.mem, g'.home.Keys);
  }

  lemma SlabsGet(s: State, g: Aux, h: nat)
    requires PagesOk(s, g) && SlabsOk(s, g) && h in s.meta && h in g.cls && s.meta[h].freeSlots > 0
    ensures var c := s.meta[h].freelist;
      && IsSlot(s.meta[h].slab, g.cls[h], c) && c !in g.home && c >= PFA_VIRT_OFFSET
      && SlabsOk(ChunkGet(s, h, SlotSize(g.cls[h])), g.(home := g.home[c := h]))
  {
    var c, z := s.meta[h].freelist, SlotSize(g.cls[h]);
    var s', g' := ChunkGet(s, h, z), g.(home := g.home[c := h]);
    GetKeepsSlab(s.mem, s.meta[h], g.cls[h], g.home.Keys);
    assert g'.home.Keys == g.home.Keys + {c};
    SlotInPage(s.meta[h].slab, g.cls[h], c);
    forall a | PageOf(a) != s.meta[h].slab
      ensures Rd(s.mem, a) == Rd(s'.mem, a) && a != c
    {
      if c <= a < c + z { PagesApart(s.meta[h].slab, 0, a); }
    }
    OthersFramed(s, g, s.meta[h].slab, s'.mem, g'.home.Keys);
  }

  lemma PutKeepsStack(s: State, g: Aux, c: nat)
    requires Inv(s, g) && Housed(s, g, c)
    ensures Linked(s.pool, ChunkPut(s, g.home[c], c).mem)
  {
    assert Holds(Pages, s, g) && Holds(Stack, s, g);
    StackKept(s, g, g.home[c], c, ChunkPut(s, g.home[c], c).mem);
  }

  lemma GetKeepsStack(s: State, g: Aux, h: nat)
    requires Inv(s, g) && h in s.meta && h in g.cls && IsSlot(s.meta[h].slab, g.cls[h], s.meta[h].freelist)
    ensures Linked(s.pool, ChunkGet(s, h, SlotSize(g.cls[h])).mem)
  {
    assert Holds(Pages, s, g) && Holds(Stack, s, g);
    StackKept(s, g, h, s.meta[h].freelist, ChunkGet(s, h, SlotSize(g.cls[h])).mem);
  }

  lemma PutKeepsInv(s: State, g: Aux, c: nat)
    requires Inv(s, g) && c in g.home && c !in s.meta
    ensures Inv(ChunkPut(s, g.home[c], c), g.(home := g.home - {c}))
    ensures SameShape(s, ChunkPut(s, g.home[c], c))
  {
    var s', g' := ChunkPut(s, g.home[c], c), g.(home := g.home - {c});
    assert Housed(s, g, c) by { assert Holds(Forest, s, g); }
    assert SameShape(s, s');
    assert ListsOk(s', g') by { assert Holds(Lists, s, g); ListsKept(s, s', g, g'.home); }
    assert PagesOk(s', g') by { assert Holds(Pages, s, g); PagesKept(s, s', g, g'.home); }
    assert ForestOk(s', g') by { assert Holds(Forest, s, g); ForestPut(s, s', g, c); }
    assert SlabsOk(s', g') by { assert Holds(Slabs, s, g) && Holds(Pages, s, g); SlabsPut(s, g, c); }
    PutKeepsStack(s, g, c);
    Close(s', g');
  }

  lemma GetKeepsInv(s: State, g: Aux, h: nat)
    requires Inv(s, g) && h in s.meta && h in g.cls && s.meta[h].freeSlots > 0
    ensures At(s, h).freelist !in g.home && At(s, h).freelist != 0 && At(s, h).freelist != BOOTSTRAP_META
    ensures Inv(ChunkGet(s, h, SlotSize(g.cls[h])), g.(home := g.home[At(s, h).freelist := h]))
    ensures SameShape(s, ChunkGet(s, h, SlotSize(g.cls[h])))
  {
    var s', c := ChunkGet(s, h, SlotSize(g.cls[h])), At(s, h).freelist;
    assert SameShape(s, s');
    assert Holds(Slabs, s, g) && Holds(Pages, s, g);
    SlabsGet(s, g, h);
    assert ListsOk(s', g.(home := g.home[c := h])) by { assert Holds(Lists, s, g); ListsKept(s, s', g, g.home[c := h]); }
    PagesKept(s, s', g, g.home[c := h]);
    assert ForestOk(s', g.(home := g.home[c := h])) by { assert Holds(Forest, s, g); ForestGet(s, s', g, c, h); }
    GetKeepsStack(s, g, h);
    Close(s', g.(home := g.home[c := h]));
  }

  // ---- prepare_slab ----

  /** The freelist prepare_slab leaves after k chunk_puts: highest slot first. */
  ghost function Desc(page: nat, size: nat, k: nat): seq<nat> {
    if k == 0 then [] else [page + (k - 1) * size] + Desc(page, size, k - 1)
  }

  lemma {:induction false} DescAt(page: nat, size: nat, k: nat)
    ensures |Desc(page, size, k)| == k
    ensures forall j :: 0 <= j < k ==> Desc(page, size, k)[j] == page + (k - 1 - j) * size
  {
    if k > 0 {
      DescAt(page, size, k - 1);
      var d, rest := Desc(page, size, k), Desc(page, size, k - 1);
      forall j | 0 <= j < k
        ensures d[j] == page + (k - 1 - j) * size
      {
        if j > 0 {
          assert d[j] == rest[j - 1] && k - 1 - 1 - (j - 1) == k - 1 - j;
        }
      }
    }
  }

  /** Every node of that freelist but a later one lies below page + k * size. */
  lemma DescBelow(page: nat, size: nat, k: nat)
    requires size > 0
    ensures forall a :: a in Desc(page, size, k) ==> page <= a < page + k * size
  {
    DescAt(page, size, k);
    forall a | a in Desc(page, size, k)
      ensures page <= a < page + k * size
    {
      var j :| 0 <= j < k && Desc(page, size, k)[j] == a;
      MulLess(k - 1 - j, k, size);
    }
  }

  lemma DescDistinct(page: nat, size: nat, n: nat)
    requires size > 0
    ensures Distinct(Desc(page, size, n))
  {
    var d := Desc(page, size, n);
    DescAt(page, size, n);
    forall j, k | 0 <= j < k < n
      ensures d[j] != d[k]
    {
      MulLess(n - 1 - k, n - 1 - j, size);
    }
  }

  lemma SlotIndex(page: nat, i: nat, a: nat) returns (q: nat)
    requires IsSlot(page, i, a)
    ensures q < Slots(i) && a == page + q * SlotSize(i)
  {
    var z, n := SlotSize(i), Slots(i);
    q := (a - page) / z;
    assert a - page == q * z;
    SlotsFill(i);
    if n < q {
      MulLess(n, q, z);
    }
  }

  lemma DescHoldsSlots(page: nat, i: nat, a: nat)
    ensures a in Desc(page, SlotSize(i), Slots(i)) <==> IsSlot(page, i, a)
  {
    var z, n := SlotSize(i), Slots(i);
    var d := Desc(page, z, n);
    DescAt(page, z, n);
    if IsSlot(page, i, a) {
      var q := SlotIndex(page, i, a);
      assert d[n - 1 - q] == a;
    } else if a in d {
      var j :| 0 <= j < n && d[j] == a;
      SlotsFill(i);
      MulLess(n - 1 - j, n, z);
      MultipleMod(n - 1 - j, z);
      assert false;
    }
  }

  lemma DescIsSlots(page: nat, i: nat)
    ensures Distinct(Desc(page, SlotSize(i), Slots(i)))
    ensures forall a: nat :: a in Desc(page, SlotSize(i), Slots(i)) <==> IsSlot(page, i, a)
  {
    DescDistinct(page, SlotSize(i), Slots(i));
    forall a: nat
      ensures a in Desc(page, SlotSize(i), Slots(i)) <==> IsSlot(page, i, a)
    {
      DescHoldsSlots(page, i, a);
    }
  }

  /** The slots fill the page exactly. */
  lemma SlotsFill(i: nat)
    ensures Slots(i) * SlotSize(i) == PAGE_SIZE && Slots(i) > 0
  {
    assert i < N_SIZES ==> CHUNK_SIZES[i] in CHUNK_SIZES;
  }

  lemma {:induction false} PutAllChain(s: State, m: nat, page: nat, size: nat, i: nat, n: nat)
    requires i <= n && page > 0 && size > 0 && m in s.meta
    requires s.meta[m].slab == page && s.meta[m].freeSlots == i
    requires Chain(s.mem, s.meta[m].freelist, i) == Desc(page, size, i)
    requires Ends(s.mem, s.meta[m].freelist, i)
    ensures var s' := PutAll(s, m, page, size, i, n);
      && s'.pool == s.pool && s'.slabs == s.slabs && m in s'.meta
      && s'.meta == s.meta[m := s'.meta[m]]
      && s'.meta[m].slab == page && s'.meta[m].freeSlots == n
      && Chain(s'.mem, s'.meta[m].freelist, n) == Desc(page, size, n)
      && Ends(s'.mem, s'.meta[m].freelist, n)
      && forall a: nat :: !(page <= a < page + n * size) ==> Rd(s'.mem, a) == Rd(s.mem, a)
    decreases n - i
  {
    if i < n {
      var c := page + i * size;
      var s1 := ChunkPut(s, m, c);
      DescBelow(page, size, i);
      ChainAgree(s.mem, s1.mem, s.meta[m].freelist, i);
      assert Chain(s1.mem, c, i + 1) == [c] + Desc(page, size, i);
      PutAllChain(s1, m, page, size, i + 1, n);
      MulLess(i, n, size);
    }
  }

  /** prepare_slab on a free frame: all of its slots are on the new freelist. */
  lemma PrepareSpec(s: State, m: nat, i: nat)
    requires s.pool != [] && s.pool[0] > 0 && s.pool[0] % PAGE_SIZE == 0
    ensures var s', page := PrepareSlab(s, m, i), s.pool[0];
      && s'.pool == s.pool[1..] && s'.slabs == s.slabs && m in s'.meta
      && s'.meta == s.meta[m := s'.meta[m]] && s'.meta[m].slab == page && s'.meta[m].freeSlots == Slots(i)
      && (forall a: nat :: PageOf(a) != page ==> Rd(s'.mem, a) == Rd(s.mem, a))
      && forall live: set<nat> :: (forall a: nat :: IsSlot(page, i, a) ==> a !in live) ==>
           SlabOk(s'.mem, s'.meta[m], i, live)
  {
    var page := s.pool[0];
    var s1 := s.(pool := s.pool[1..], meta := s.meta[m := Meta(page, 0, 0)]);
    PutAllChain(s1, m, page, SlotSize(i), 0, Slots(i));
    SlotsFill(i);
    DescIsSlots(page, i);
    forall a: nat | page <= a < page + PAGE_SIZE
      ensures PageOf(a) == page
    {
      PagesApart(page, 0, a);
    }
  }

  // ---- New and released slabs ----

  ghost predicate Fresh(g: Aux, t: nat) {
    forall m :: m in g.born ==> g.born[m] < t
  }

  lemma {:induction false} FreshStamp(born: map<nat, nat>) returns (t: nat)
    ensures forall m :: m in born ==> born[m] < t
    decreases |born|
  {
    if born == map[] {
      t := 0;
    } else {
      var m :| m in born;
      var rest := born - {m};
      assert |rest| < |born| by {
        assert rest.Keys == born.Keys - {m};
        assert |rest.Keys| == |rest| && |born.Keys| == |born|;
      }
      var u := FreshStamp(rest);
      assert forall n :: n in born ==> n == m || (n in rest && rest[n] == born[n]);
      t := if u <= born[m] then born[m] + 1 else u;
    }
  }

  /** Turning the live, unused chunk c into the metadata of a new slab of class i. */
  ghost function Adopted(g: Aux, c: nat, i: nat, t: nat): Aux {
    g.(cls := g.cls[c := i], born := g.born[c := t])
  }

  lemma NewSlabLists(s: State, s': State, g: Aux, c: nat, i: nat, t: nat)
    requires ListsOk(s, g) && c !in s.meta && i < N_SIZES
    requires s'.slabs == s.slabs[i := s.slabs[i] + [c]] && s'.meta.Keys == s.meta.Keys + {c}
    ensures ListsOk(s', Adopted(g, c, i, t))
  {
    assert c !in s.slabs[i];
  }

  lemma NewSlabPages(s: State, s': State, g: Aux, c: nat, i: nat, t: nat)
    requires PagesOk(s, g) && c !in s.meta && s.pool != []
    requires s'.pool == s.pool[1..] && c in s'.meta && s'.meta == s.meta[c := s'.meta[c]]
    requires s'.meta[c].slab == s.pool[0]
    ensures PagesOk(s', Adopted(g, c, i, t))
  {
    OneMoreKey(s.meta, c, s'.meta[c]);
    TailOfDistinct(s.pool);
    forall m | m in s'.meta
      ensures s'.meta[m].slab in g.pages && s'.meta[m].slab !in s'.pool
    {
    }
  }

  lemma OneMoreKey<V>(m: map<nat, V>, c: nat, v: V)
    requires c !in m
    ensures |m[c := v]| == |m| + 1
  {
    assert m[c := v].Keys == m.Keys + {c};
    assert |m[c := v]| == |m[c := v].Keys| && |m| == |m.Keys|;
  }

  lemma TailOfDistinct(s: seq<nat>)
    requires Distinct(s) && s != []
    ensures Distinct(s[1..]) && s[0] !in s[1..] && forall x :: x in s[1..] ==> x in s
  {
  }

  lemma NewSlabForest(s: State, s': State, g: Aux, c: nat, i: nat, t: nat)
    requires ForestOk(s, g) && c !in s.meta && c in g.home && g.home[c] in g.cls && g.cls[g.home[c]] == META_CLASS
    requires g.cls.Keys == s.meta.Keys && g.born.Keys == s.meta.Keys && Fresh(g, t)
    requires c in s'.meta && s'.meta == s.meta[c := s'.meta[c]]
    ensures ForestOk(s', Adopted(g, c, i, t))
  {
    var g' := Adopted(g, c, i, t);
    forall a | a in g'.home ensures Housed(s', g', a) { assert Housed(s, g, a); }
    assert Housed(s, g, c);
    forall m | m in s'.meta && m != BOOTSTRAP_META
      ensures Rooted(s', g', m)
    {
      if m != c {
        assert Rooted(s, g, m);
        assert Housed(s, g, m);
      }
    }
  }

  /** No live chunk is on a page of the pool. */
  lemma PoolPagesUnused(s: State, g: Aux, page: nat, a: nat)
    requires PagesOk(s, g) && ForestOk(s, g) && page in s.pool && a in g.home
    ensures PageOf(a) != page
  {
    assert Housed(s, g, a);
    PagesApart(s.meta[g.home[a]].slab, page, a);
  }

  lemma NewSlabSlabs(s: State, g: Aux, c: nat, i: nat, t: nat)
    requires PagesOk(s, g) && ForestOk(s, g) && SlabsOk(s, g) && s.pool != [] && c !in s.meta
    ensures SlabsOk(NewSlab(s, c, i), Adopted(g, c, i, t))
  {
    var s', g', page := NewSlab(s, c, i), Adopted(g, c, i, t), s.pool[0];
    assert page in s.pool;
    PrepareSpec(s, c, i);
    OthersFramed(s, g, page, s'.mem, g.home.Keys);
    forall a: nat | IsSlot(page, i, a)
      ensures a !in g.home
    {
      PagesApart(page, 0, a);
      if a in g.home { PoolPagesUnused(s, g, page, a); }
    }
    assert SlabOk(s'.mem, s'.meta[c], i, g.home.Keys);
  }

  /** Taking the top frame, and writing to it, leaves the rest linked. */
  lemma PopStack(s: State, mem': map<nat, nat>)
    requires s.pool != [] && Distinct(s.pool) && Linked(s.pool, s.mem)
    requires forall p :: p in s.pool ==> p % PAGE_SIZE == 0
    requires forall a: nat :: PageOf(a) != s.pool[0] ==> Rd(mem', a) == Rd(s.mem, a)
    ensures Linked(s.pool[1..], mem')
  {
    TailOfDistinct(s.pool);
    var rest := s.pool[1..];
    forall k | 0 <= k < |rest|
      ensures Rd(s.mem, rest[k]) == FrameAt(rest, k + 1)
    {
      assert rest[k] == s.pool[k + 1] && FrameAt(rest, k + 1) == FrameAt(s.pool, k + 2);
    }
    StackFramed(rest, s.mem, s.pool[0], mem');
  }

  lemma NewSlabKeepsInv(s: State, g: Aux, c: nat, i: nat, t: nat)
    requires Inv(s, g) && s.pool != [] && i < N_SIZES && Fresh(g, t)
    requires c in g.home && c !in s.meta && g.home[c] in g.cls && g.cls[g.home[c]] == META_CLASS
    ensures Inv(NewSlab(s, c, i), Adopted(g, c, i, t))
    ensures var s' := NewSlab(s, c, i);
      && s'.meta.Keys == s.meta.Keys + {c} && s'.meta == s.meta[c := s'.meta[c]]
      && s'.meta[c].freeSlots == Slots(i) && s'.pool == s.pool[1..]
      && forall a: nat :: PageOf(a) != s.pool[0] ==> Rd(s'.mem, a) == Rd(s.mem, a)
  {
    var s', g' := NewSlab(s, c, i), Adopted(g, c, i, t);
    assert Holds(Pages, s, g);
    assert s.pool[0] in s.pool;
    PrepareSpec(s, c, i);
    assert s'.meta.Keys == s.meta.Keys + {c};
    assert ListsOk(s', g') by { assert Holds(Lists, s, g); NewSlabLists(s, s', g, c, i, t); }
    assert PagesOk(s', g') by { NewSlabPages(s, s', g, c, i, t); }
    assert ForestOk(s', g') by { assert Holds(Lists, s, g) && Holds(Forest, s, g); NewSlabForest(s, s', g, c, i, t); }
    assert SlabsOk(s', g') by { assert Holds(Forest, s, g) && Holds(Slabs, s, g); NewSlabSlabs(s, g, c, i, t); }
    assert Linked(s'.pool, s'.mem) by { assert Holds(Stack, s, g); PopStack(s, s'.mem); }
    Close(s', g');
  }

  /** A slab whose free_slots says "all" really holds no live chunk. */
  lemma AllFree(mem: map<nat, nat>, mt: Meta, i: nat, live: set<nat>, a: nat)
    requires SlabOk(mem, mt, i, live) && mt.freeSlots == Slots(i) && IsSlot(mt.slab, i, a)
    ensures a !in live
  {
    var fl, all := Chain(mem, mt.freelist, mt.freeSlots), Desc(mt.slab, SlotSize(i), Slots(i));
    ChainLength(mem, mt.freelist, mt.freeSlots);
    DescAt(mt.slab, SlotSize(i), Slots(i));
    DescIsSlots(mt.slab, i);
    DistinctCardinality(fl);
    DistinctCardinality(all);
    SubsetCardinality(Elems(fl), Elems(all));
    assert a in Elems(fl);
  }

  ghost function Forgotten(g: Aux, h: nat): Aux {
    g.(cls := g.cls - {h}, born := g.born - {h})
  }

  lemma ReleaseLists(s: State, g: Aux, h: nat)
    requires ListsOk(s, g) && h in s.meta
    ensures ListsOk(Release(s, g.cls[h], h), Forgotten(g, h))
  {
    var i := g.cls[h];
    var s' := Release(s, i, h);
    WithoutElems(s.slabs[i], h);
    assert s'.meta.Keys == s.meta.Keys - {h};
  }

  lemma ReleasePages(s: State, g: Aux, i: nat, h: nat)
    requires PagesOk(s, g) && h in s.meta && i < |s.slabs|
    ensures PagesOk(Release(s, i, h), Forgotten(g, h))
  {
    var s', page := Release(s, i, h), s.meta[h].slab;
    assert s'.meta.Keys == s.meta.Keys - {h};
    assert |s'.meta| == |s'.meta.Keys| && |s.meta| == |s.meta.Keys|;
    ConsDistinct(page, s.pool);
  }

  lemma ReleaseForest(s: State, g: Aux, i: nat, h: nat)
    requires ForestOk(s, g) && h in s.meta && i < |s.slabs|
    requires forall a :: a in g.home ==> g.home[a] != h
    ensures ForestOk(Release(s, i, h), Forgotten(g, h))
  {
    var s', g' := Release(s, i, h), Forgotten(g, h);
    forall a | a in g'.home ensures Housed(s', g', a) { assert Housed(s, g, a); }
    forall m | m in s'.meta && m != BOOTSTRAP_META ensures Rooted(s', g', m) { assert Rooted(s, g, m); }
  }

  lemma ReleaseSlabs(s: State, g: Aux, i: nat, h: nat)
    requires PagesOk(s, g) && SlabsOk(s, g) && h in s.meta && i < |s.slabs|
    ensures SlabsOk(Release(s, i, h), Forgotten(g, h))
  {
    var s', page := Release(s, i, h), s.meta[h].slab;
    PagesApart(page, 0, page);
    OthersFramed(s, g, page, s'.mem, g.home.Keys);
  }

  /** pf_free puts the page on top of the stack: the next pf_alloc returns it. */
  lemma ReleaseStack(s: State, g: Aux, i: nat, h: nat)
    requires PagesOk(s, g) && Linked(s.pool, s.mem) && h in s.meta && i < |s.slabs|
    ensures var s' := Release(s, i, h);
      && s'.pool != [] && s'.pool[0] == s.meta[h].slab && s'.pool[1..] == s.pool
      && Linked(s'.pool, s'.mem)
  {
    var s', page := Release(s, i, h), s.meta[h].slab;
    OnPage(page, page);
    StackFramed(s.pool, s.mem, page, s'.mem);
    assert forall k :: 0 < k < |s'.pool| ==> s'.pool[k] == s.pool[k - 1];
  }

  /** Releasing an all-free slab; its metadata chunk stays live, for do_slab_free to return. */
  lemma ReleaseKeepsInv(s: State, g: Aux, h: nat)
    requires Inv(s, g) && h in s.meta && h in g.cls && s.meta[h].freeSlots == Slots(g.cls[h])
    ensures g.cls[h] < |s.slabs| && Inv(Release(s, g.cls[h], h), Forgotten(g, h))
    ensures forall a :: a in g.home ==> g.home[a] != h
  {
    Open(s, g);
    var i := g.cls[h];
    assert SlabOk(s.mem, s.meta[h], i, g.home.Keys);
    forall a | a in g.home
      ensures g.home[a] != h
    {
      assert Housed(s, g, a);
      if g.home[a] == h { AllFree(s.mem, s.meta[h], i, g.home.Keys, a); }
    }
    ReleaseLists(s, g, h);
    ReleasePages(s, g, i, h);
    ReleaseForest(s, g, i, h);
    ReleaseSlabs(s, g, i, h);
    ReleaseStack(s, g, i, h);
    Close(Release(s, i, h), Forgotten(g, h));
  }

  /** Length in bytes of the slot that holds the live block p. */
  ghost function BlockSize(g: Aux, p: nat): nat {
    if p in g.home && g.home[p] in g.cls then SlotSize(g.cls[g.home[p]]) else 0
  }

  /** A client's store into its own block touches no freelist. */
  lemma WriteKeepsInv(s: State, g: Aux, p: nat, a: nat, v: nat)
    requires Inv(s, g) && p in g.home && p <= a < p + BlockSize(g, p)
    ensures Inv(s.(mem := s.mem[a := v]), g)
  {
    Open(s, g);
    var s' := s.(mem := s.mem[a := v]);
    ListsKept(s, s', g, g.home);
    PagesKept(s, s', g, g.home);
    WriteForest(s, s', g);
    assert Housed(s, g, p);
    WriteSlabs(s, g, p, a, v);
    StackKept(s, g, g.home[p], p, s'.mem);
    Close(s', g);
  }

  lemma WriteSlabs(s: State, g: Aux, p: nat, a: nat, v: nat)
    requires PagesOk(s, g) && SlabsOk(s, g) && Housed(s, g, p) && p <= a < p + BlockSize(g, p)
    ensures SlabsOk(s.(mem := s.mem[a := v]), g)
  {
    var h := g.home[p];
    var mt, i := s.meta[h], g.cls[h];
    SlotInPage(mt.slab, i, p);
    PagesApart(mt.slab, 0, a);
    OthersFramed(s, g, mt.slab, s.mem[a := v], g.home.Keys);
    WriteSlab(s.mem, mt, i, g.home.Keys, p, a, v);
  }

  lemma WriteForest(s: State, s': State, g: Aux)
    requires ForestOk(s, g) && SameShape(s, s')
    ensures ForestOk(s', g)
  {
    forall a | a in g.home ensures Housed(s', g, a) { assert Housed(s, g, a); }
    forall m | m in s'.meta && m != BOOTSTRAP_META ensures Rooted(s', g, m) { assert Rooted(s, g, m); }
  }

  lemma WriteSlab(mem: map<nat, nat>, mt: Meta, i: nat, live: set<nat>, p: nat, a: nat, v: nat)
    requires SlabOk(mem, mt, i, live) && p in live && IsSlot(mt.slab, i, p) && p <= a < p + SlotSize(i)
    ensures SlabOk(mem[a := v], mt, i, live)
  {
    forall x | x in Chain(mem, mt.freelist, mt.freeSlots)
      ensures x != a
    {
      if p < x { SlotsApart(mt.slab, i, p, x); }
    }
    ChainAgree(mem, mem[a := v], mt.freelist, mt.freeSlots);
  }

  // ---- Consequences ----

  /** Following homes upward from any slab ends at the bootstrap slab. */
  lemma {:induction false} ReachesBootstrap(s: State, g: Aux, m: nat)
    requires ForestOk(s, g) && g.cls.Keys == s.meta.Keys && m in s.meta && m in g.born
    ensures BOOTSTRAP_META in s.meta
    decreases g.born[m]
  {
    if m != BOOTSTRAP_META {
      assert Rooted(s, g, m);
      ReachesBootstrap(s, g, g.home[m]);
    }
  }

  /** The bootstrap slab is gone only when no slab is left. */
  lemma BootstrapLast(s: State, g: Aux)
    requires Inv(s, g) && BOOTSTRAP_META !in s.meta
    ensures s.meta == map[] && g.home == map[]
  {
    Open(s, g);
    if a :| a in g.home {
      assert Housed(s, g, a);
      ReachesBootstrap(s, g, g.home[a]);
    }
    if m :| m in s.meta {
      ReachesBootstrap(s, g, m);
    }
  }

  /** Distinct live blocks, client data and metadata alike, never overlap. */
  lemma BlocksDisjoint(s: State, g: Aux, p: nat, q: nat)
    requires Inv(s, g) && p in g.home && q in g.home && p < q
    ensures p + BlockSize(g, p) <= q
  {
    Open(s, g);
    assert Housed(s, g, p) && Housed(s, g, q);
    HousedDisjoint(s, g, p, q);
  }

  lemma HousedDisjoint(s: State, g: Aux, p: nat, q: nat)
    requires PagesOk(s, g) && Housed(s, g, p) && Housed(s, g, q) && p < q
    ensures p + BlockSize(g, p) <= q
  {
    var hp, hq := g.home[p], g.home[q];
    if hp == hq {
      SlotsApart(s.meta[hp].slab, g.cls[hp], p, q);
    } else {
      SlotInPage(s.meta[hp].slab, g.cls[hp], p);
      PagesApart(s.meta[hq].slab, s.meta[hp].slab, q);
    }
  }
}
