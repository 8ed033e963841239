/**
 Two-level page tables as vm_map and vm_unmap maintain them, with the frames they draw
 from and return to the page frame allocator. Virtual pages and physical frames are
 numbered; a directory or table entry is a 32-bit word: frame * 4096 + flags.
 Address translation is that of section 5.2 of the Intel 80386 Programmer's Reference Manual.
 */
module PageTables {
  import opened Common
  import opened Machine

  const ENTRIES := 1024

  const PTE_PRESENT := 1
  const PTE_WRITABLE := 2

  /**
   pd:   the page directory
   mem:  physical memory by frame, 1024 words each
   pool: the page frame allocator's free stack
   */
  datatype Space = Space(pd: seq<nat>, mem: map<nat, seq<nat>>, pool: seq<nat>)

  predicate Present(e: nat) {
    e % 2 == 1
  }

  function FrameOf(e: nat): nat {
    e / PAGE_SIZE
  }

  /** Present and writable, nothing else: not for user mode. */
  function Entry(f: nat): (e: nat)
    ensures Present(e) && FrameOf(e) == f && e % PAGE_SIZE == 3
  {
    f * PAGE_SIZE + PTE_WRITABLE + PTE_PRESENT
  }

  /** VA_PD_IDX and VA_PT_IDX of an address on page p. */
  function DirOf(p: nat): nat { p / ENTRIES }

  function SlotOf(p: nat): (t: nat)
    ensures t < ENTRIES
  {
    p % ENTRIES
  }

  function Zeros(): (z: seq<nat>)
    ensures |z| == ENTRIES && forall t :: 0 <= t < ENTRIES ==> z[t] == 0
  {
    seq(ENTRIES, _ => 0)
  }

  function Words(mem: map<nat, seq<nat>>, f: nat): (w: seq<nat>)
    ensures |w| == ENTRIES
  {
    if f in mem && |mem[f]| == ENTRIES then mem[f] else Zeros()
  }

  function Pde(s: Space, p: nat): nat {
    if DirOf(p) < |s.pd| then s.pd[DirOf(p)] else 0
  }

  function Pte(s: Space, p: nat): nat {
    Words(s.mem, FrameOf(Pde(s, p)))[SlotOf(p)]
  }

  /** The frame that virtual page p translates to. */
  function Lookup(s: Space, p: nat): Option<nat> {
    if Present(Pde(s, p)) && Present(Pte(s, p)) then Some(FrameOf(Pte(s, p))) else None
  }

  /** get_physical_address; None where the source panics. */
  function GetPhysicalAddress(s: Space, va: nat): Option<nat> {
    var pde := Pde(s, va / PAGE_SIZE);
    if !Present(pde) then None
    else
      var pte := Words(s.mem, FrameOf(pde))[SlotOf(va / PAGE_SIZE)];
      if !Present(pte) then None else Some(pte - pte % PAGE_SIZE + va % PAGE_SIZE)
  }

  /** The address is the frame's, plus the place within the page. */
  lemma AddressIs(s: Space, va: nat)
    ensures var f, x := Lookup(s, va / PAGE_SIZE), GetPhysicalAddress(s, va);
      && (x.Some? <==> f.Some?)
      && (x.Some? ==> x.value / PAGE_SIZE == f.value && x.value % PAGE_SIZE == va % PAGE_SIZE)
  {
  }

  // ---- Elementary changes ----

  function Top(s: Space): nat {
    if s.pool == [] then 0 else s.pool[0]
  }

  function Rest(s: Space): seq<nat> {
    if s.pool == [] then [] else s.pool[1..]
  }

  /** pf_zalloc of a page table for directory entry d. */
  function AddTable(s: Space, d: nat): Space
    requires d < |s.pd|
  {
    Space(s.pd[d := Entry(Top(s))], s.mem[Top(s) := Zeros()], Rest(s))
  }

  /** pf_zalloc of the frame behind page p. */
  function AddData(s: Space, p: nat): Space {
    var table := FrameOf(Pde(s, p));
    var mem := s.mem[Top(s) := Zeros()];
    var words: seq<nat> := Words(mem, table)[SlotOf(p) := Entry(Top(s))];
    Space(s.pd, mem[table := words], Rest(s))
  }

  /** pf_free writes the old stack top into the frame's first word. */
  function Freed(s: Space, f: nat): Space {
    var link := if s.pool == [] then 0 else s.pool[0] * PAGE_SIZE + PFA_VIRT_OFFSET;
    var words: seq<nat> := Words(s.mem, f)[0 := link];
    s.(mem := s.mem[f := words], pool := [f] + s.pool)
  }

  function RemoveData(s: Space, p: nat): Space {
    var table := FrameOf(Pde(s, p));
    var s1 := Freed(s, FrameOf(Pte(s, p)));
    var words: seq<nat> := Words(s1.mem, table)[SlotOf(p) := 0];
    s1.(mem := s1.mem[table := words])
  }

  function RemoveTable(s: Space, d: nat): Space
    requires d < |s.pd|
  {
    Freed(s.(pd := s.pd[d := PTE_WRITABLE]), FrameOf(s.pd[d]))
  }

  // ---- vm_map and vm_unmap ----

  function MapPage(s: Space, p: nat): Space
    requires |s.pd| == ENTRIES && p < ENTRIES * ENTRIES
  {
    var s1 := if Present(Pde(s, p)) then s else AddTable(s, DirOf(p));
    if Present(Pte(s1, p)) then s1 else AddData(s1, p)
  }

  predicate AllZero(w: seq<nat>) {
    forall t :: 0 <= t < |w| ==> w[t] == 0
  }

  // ---- Who has each frame ----

  datatype Owner = Free | Table(d: nat) | Data(p: nat)

  /** Directory entries through which the pages lo .. hi - 1 are reached. */
  ghost predicate Managed(lo: nat, hi: nat, d: nat) {
    lo < hi && DirOf(lo) <= d <= DirOf(hi - 1)
  }

  ghost predicate PoolOk(s: Space, own: map<nat, Owner>) {
    && Distinct(s.pool)
    && (forall f :: f in s.pool ==> f in own && own[f] == Free)
    && (forall f :: f in own && own[f] == Free ==> f in s.pool)
  }

  ghost predicate TablesOk(s: Space, own: map<nat, Owner>, lo: nat, hi: nat) {
    && |s.pd| == ENTRIES && hi <= ENTRIES * (ENTRIES - 1)
    && (forall f :: f in own ==> f in s.mem && |s.mem[f]| == ENTRIES)
    && (forall d :: 0 <= d < ENTRIES && Present(s.pd[d]) ==>
          if Managed(lo, hi, d) then FrameOf(s.pd[d]) in own && own[FrameOf(s.pd[d])] == Table(d)
          else FrameOf(s.pd[d]) !in own)
    && (forall f :: f in own && own[f].Table? ==>
          own[f].d < ENTRIES && Managed(lo, hi, own[f].d) && Present(s.pd[own[f].d]) && FrameOf(s.pd[own[f].d]) == f)
  }

  ghost predicate DataOk(s: Space, own: map<nat, Owner>, lo: nat, hi: nat) {
    && (forall p :: lo <= p < hi && Lookup(s, p).Some? ==>
          Lookup(s, p).value in own && own[Lookup(s, p).value] == Data(p))
    && (forall f :: f in own && own[f].Data? ==> lo <= own[f].p < hi && Lookup(s, own[f].p) == Some(f))
  }

  /**
   Each frame of `own` is in exactly one role, and the tables and the pool say so: on the
   free stack once, the table of one directory entry, or the frame of one page.
   */
  ghost predicate Valid(s: Space, own: map<nat, Owner>, lo: nat, hi: nat) {
    && |s.pd| == ENTRIES && hi <= ENTRIES * (ENTRIES - 1)
    && forall c {:trigger Holds(c, s, own, lo, hi)} :: Holds(c, s, own, lo, hi)
  }

  /** The free stack as pf_free keeps it: a list linked through the frames' first words. */
  ghost predicate Linked(s: Space) {
    forall k :: 0 <= k < |s.pool| ==> Words(s.mem, s.pool[k])[0] == AddressAt(s.pool, k + 1)
  }

  /** Where the kernel sees the k-th free frame, or NULL past the last. */
  ghost function AddressAt(pool: seq<nat>, k: nat): nat {
    if k < |pool| then pool[k] * PAGE_SIZE + PFA_VIRT_OFFSET else 0
  }

  datatype Clause = Pools | Tables | Datas | Links

  ghost predicate Holds(c: Clause, s: Space, own: map<nat, Owner>, lo: nat, hi: nat) {
    match c
    case Pools => PoolOk(s, own)
    case Tables => TablesOk(s, own, lo, hi)
    case Datas => DataOk(s, own, lo, hi)
    case Links => Linked(s)
  }

  lemma Open(s: Space, own: map<nat, Owner>, lo: nat, hi: nat)
    requires Valid(s, own, lo, hi)
    ensures PoolOk(s, own) && TablesOk(s, own, lo, hi) && DataOk(s, own, lo, hi)
  {
    assert Holds(Pools, s, own, lo, hi) && Holds(Tables, s, own, lo, hi) && Holds(Datas, s, own, lo, hi);
  }

  lemma Close(s: Space, own: map<nat, Owner>, lo: nat, hi: nat)
    requires PoolOk(s, own) && TablesOk(s, own, lo, hi) && DataOk(s, own, lo, hi) && Linked(s)
    ensures Valid(s, own, lo, hi)
  {
    forall c ensures Holds(c, s, own, lo, hi) {
      match c case Pools => case Tables => case Datas => case Links =>
    }
  }

  /** The frame of the table that page q goes through is not f, unless f is that very table. */
  lemma TableFrame(s: Space, own: map<nat, Owner>, lo: nat, hi: nat, q: nat, f: nat)
    requires TablesOk(s, own, lo, hi) && f in own && Present(Pde(s, q)) && FrameOf(Pde(s, q)) == f
    ensures own[f] == Table(DirOf(q))
  {
    assert DirOf(q) < ENTRIES;
  }

  // ---- Contents ----

  /** Frames that hold a page, and stay with it, keep their contents; so does all other memory. */
  ghost predicate WordsKept(s: Space, own: map<nat, Owner>, s': Space, own': map<nat, Owner>) {
    forall f: nat {:trigger KeptAt(s, own, s', own', f)} :: KeptAt(s, own, s', own', f)
  }

  ghost predicate KeptAt(s: Space, own: map<nat, Owner>, s': Space, own': map<nat, Owner>, f: nat) {
    (f in own ==> own[f].Data? && f in own' && own'[f] == own[f]) ==> Words(s'.mem, f) == Words(s.mem, f)
  }

  /** Two changes in a row, if no frame that lost its page gets it back. */
  lemma WordsKeptTwice(s: Space, own: map<nat, Owner>, s1: Space, own1: map<nat, Owner>, s2: Space, own2: map<nat, Owner>)
    requires WordsKept(s, own, s1, own1) && WordsKept(s1, own1, s2, own2)
    requires own1.Keys == own.Keys
    requires forall f :: f in own && own[f].Data? && f in own2 && own2[f] == own[f] ==> own1[f] == own[f]
    ensures WordsKept(s, own, s2, own2)
  {
    forall f: nat
      ensures KeptAt(s, own, s2, own2, f)
    {
      assert KeptAt(s, own, s1, own1, f) && KeptAt(s1, own1, s2, own2, f);
    }
  }

  /** Page q translates as before, if it did, through the same entry. */
  ghost predicate SameEntry(s: Space, q: nat, s': Space) {
    Lookup(s', q) == Lookup(s, q) && (Lookup(s, q).Some? ==> Pte(s', q) == Pte(s, q))
  }

  /** Directory entries that are present stay; new ones are writable kernel entries. */
  ghost predicate PdGrown(pd: seq<nat>, pd': seq<nat>) {
    && |pd'| == |pd|
    && forall d :: 0 <= d < |pd| ==>
         if Present(pd[d]) then pd'[d] == pd[d] else Present(pd'[d]) ==> pd'[d] % PAGE_SIZE == 3
  }

  // Each elementary change in turn: what happens to the translation, then to the frames.

  lemma AddTableLookup(s: Space, own: map<nat, Owner>, lo: nat, hi: nat, p: nat, q: nat)
    requires TablesOk(s, own, lo, hi) && p < hi && !Present(Pde(s, p))
    requires s.pool != [] && s.pool[0] in own && own[s.pool[0]] == Free
    ensures SameEntry(s, q, AddTable(s, DirOf(p)))
  {
    if DirOf(q) != DirOf(p) && Present(Pde(s, q)) && FrameOf(Pde(s, q)) == s.pool[0] {
      TableFrame(s, own, lo, hi, q, s.pool[0]);
    }
  }

  lemma TakenFromPool(s: Space, s': Space, own: map<nat, Owner>, o: Owner)
    requires PoolOk(s, own) && s.pool != [] && s'.pool == s.pool[1..] && o != Free
    ensures s.pool[0] in own && own[s.pool[0]] == Free && PoolOk(s', own[s.pool[0] := o])
  {
    assert s.pool[0] in s.pool && s.pool == [s.pool[0]] + s.pool[1..];
  }

  /** Taking the top frame leaves the rest of the stack linked, if free frames are not written to. */
  lemma StackPopped(s: Space, own: map<nat, Owner>, lo: nat, hi: nat, s': Space)
    requires Valid(s, own, lo, hi) && s.pool != [] && s'.pool == s.pool[1..]
    requires forall f :: f in own && own[f] == Free && f != s.pool[0] ==> Words(s'.mem, f) == Words(s.mem, f)
    ensures Linked(s')
  {
    assert Holds(Pools, s, own, lo, hi) && Holds(Links, s, own, lo, hi);
    forall k | 0 <= k < |s'.pool|
      ensures Words(s'.mem, s'.pool[k])[0] == AddressAt(s'.pool, k + 1)
    {
      assert s'.pool[k] == s.pool[k + 1] && s.pool[k + 1] in s.pool;
      assert AddressAt(s'.pool, k + 1) == AddressAt(s.pool, k + 2);
    }
  }

  /** Returning frame f puts it on top: the next pf_alloc takes it, and then the former top. */
  lemma StackPushed(s: Space, own: map<nat, Owner>, lo: nat, hi: nat, f: nat, s': Space)
    requires Valid(s, own, lo, hi) && s'.pool == [f] + s.pool && Words(s'.mem, f)[0] == AddressAt(s.pool, 0)
    requires forall g :: g in own && own[g] == Free ==> Words(s'.mem, g) == Words(s.mem, g)
    ensures Linked(s')
  {
    assert Holds(Pools, s, own, lo, hi) && Holds(Links, s, own, lo, hi);
    forall k | 0 <= k < |s'.pool|
      ensures Words(s'.mem, s'.pool[k])[0] == AddressAt(s'.pool, k + 1)
    {
      assert AddressAt(s'.pool, k + 1) == AddressAt(s.pool, k);
      if k > 0 { assert s'.pool[k] == s.pool[k - 1] && s.pool[k - 1] in s.pool; }
    }
  }

  lemma AddTableTables(s: Space, own: map<nat, Owner>, lo: nat, hi: nat, p: nat)
    requires TablesOk(s, own, lo, hi) && lo <= p < hi && !Present(Pde(s, p))
    requires s.pool != [] && s.pool[0] in own && own[s.pool[0]] == Free
    ensures TablesOk(AddTable(s, DirOf(p)), own[s.pool[0] := Table(DirOf(p))], lo, hi)
  {
    assert Managed(lo, hi, DirOf(p));
  }

  lemma AddTableWords(s: Space, own: map<nat, Owner>, p: nat)
    requires |s.pd| == ENTRIES && DirOf(p) < ENTRIES && !Present(Pde(s, p))
    requires s.pool != [] && s.pool[0] in own && own[s.pool[0]] == Free
    ensures WordsKept(s, own, AddTable(s, DirOf(p)), own[s.pool[0] := Table(DirOf(p))])
    ensures PdGrown(s.pd, AddTable(s, DirOf(p)).pd)
  {
  }

  lemma AddTableKeeps(s: Space, own: map<nat, Owner>, lo: nat, hi: nat, p: nat)
    requires Valid(s, own, lo, hi) && lo <= p < hi && s.pool != [] && !Present(Pde(s, p))
    ensures var s' := AddTable(s, DirOf(p));
      && Valid(s', own[s.pool[0] := Table(DirOf(p))], lo, hi)
      && WordsKept(s, own, s', own[s.pool[0] := Table(DirOf(p))]) && PdGrown(s.pd, s'.pd)
      && forall q: nat :: SameEntry(s, q, s')
  {
    var s' := AddTable(s, DirOf(p));
    Open(s, own, lo, hi);
    TakenFromPool(s, s', own, Table(DirOf(p)));
    AddTableTables(s, own, lo, hi, p);
    AddTableWords(s, own, p);
    StackPopped(s, own, lo, hi, s');
    forall q: nat
      ensures Lookup(s', q) == Lookup(s, q) && SameEntry(s, q, s')
    {
      AddTableLookup(s, own, lo, hi, p, q);
    }
    Close(s', own[s.pool[0] := Table(DirOf(p))], lo, hi);
  }

  lemma AddDataLookup(s: Space, own: map<nat, Owner>, lo: nat, hi: nat, p: nat, q: nat)
    requires TablesOk(s, own, lo, hi) && lo <= p < hi && Present(Pde(s, p))
    requires s.pool != [] && s.pool[0] in own && own[s.pool[0]] == Free
    ensures if q == p then Lookup(AddData(s, p), q) == Some(s.pool[0]) && Pte(AddData(s, p), q) % PAGE_SIZE == 3
            else SameEntry(s, q, AddData(s, p))
  {
    assert Managed(lo, hi, DirOf(p));
    TableFrame(s, own, lo, hi, p, FrameOf(Pde(s, p)));
    if Present(Pde(s, q)) && FrameOf(Pde(s, q)) in own {
      TableFrame(s, own, lo, hi, q, FrameOf(Pde(s, q)));
    }
  }

  lemma AddDataTables(s: Space, own: map<nat, Owner>, lo: nat, hi: nat, p: nat)
    requires TablesOk(s, own, lo, hi) && lo <= p < hi && Present(Pde(s, p))
    requires s.pool != [] && s.pool[0] in own && own[s.pool[0]] == Free
    ensures TablesOk(AddData(s, p), own[s.pool[0] := Data(p)], lo, hi)
  {
  }

  lemma AddDataWords(s: Space, own: map<nat, Owner>, lo: nat, hi: nat, p: nat)
    requires TablesOk(s, own, lo, hi) && lo <= p < hi && Present(Pde(s, p))
    requires s.pool != [] && s.pool[0] in own && own[s.pool[0]] == Free
    ensures AllZero(Words(AddData(s, p).mem, s.pool[0]))
    ensures forall f :: f in own && own[f] == Free && f != s.pool[0] ==> Words(AddData(s, p).mem, f) == Words(s.mem, f)
    ensures WordsKept(s, own, AddData(s, p), own[s.pool[0] := Data(p)])
  {
    assert Managed(lo, hi, DirOf(p));
    TableFrame(s, own, lo, hi, p, FrameOf(Pde(s, p)));
  }

  lemma AddDataKeeps(s: Space, own: map<nat, Owner>, lo: nat, hi: nat, p: nat)
    requires Valid(s, own, lo, hi) && lo <= p < hi && s.pool != [] && Present(Pde(s, p)) && !Present(Pte(s, p))
    ensures var s' := AddData(s, p);
      && Valid(s', own[s.pool[0] := Data(p)], lo, hi) && Lookup(s', p) == Some(s.pool[0])
      && Pte(s', p) % PAGE_SIZE == 3 && AllZero(Words(s'.mem, s.pool[0]))
      && WordsKept(s, own, s', own[s.pool[0] := Data(p)])
      && forall q: nat :: q != p ==> SameEntry(s, q, s')
  {
    var s' := AddData(s, p);
    Open(s, own, lo, hi);
    TakenFromPool(s, s', own, Data(p));
    AddDataTables(s, own, lo, hi, p);
    forall q: nat
      ensures if q == p then Lookup(s', q) == Some(s.pool[0]) && Pte(s', q) % PAGE_SIZE == 3 else SameEntry(s, q, s')
    {
      AddDataLookup(s, own, lo, hi, p, q);
    }
    AddDataWords(s, own, lo, hi, p);
    StackPopped(s, own, lo, hi, s');
    Close(s', own[s.pool[0] := Data(p)], lo, hi);
  }

  lemma GivenToPool(s: Space, s': Space, own: map<nat, Owner>, f: nat)
    requires PoolOk(s, own) && f in own && own[f] != Free && s'.pool == [f] + s.pool
    ensures PoolOk(s', own[f := Free])
  {
    ConsDistinct(f, s.pool);
  }

  lemma RemoveDataLookup(s: Space, own: map<nat, Owner>, lo: nat, hi: nat, p: nat, q: nat)
    requires TablesOk(s, own, lo, hi) && lo <= p < hi && Present(Pde(s, p))
    requires FrameOf(Pte(s, p)) in own && own[FrameOf(Pte(s, p))] == Data(p)
    ensures Lookup(RemoveData(s, p), q) == if q == p then None else Lookup(s, q)
  {
    assert Managed(lo, hi, DirOf(p));
    TableFrame(s, own, lo, hi, p, FrameOf(Pde(s, p)));
    if Present(Pde(s, q)) && FrameOf(Pde(s, q)) in own {
      TableFrame(s, own, lo, hi, q, FrameOf(Pde(s, q)));
    }
  }

  lemma RemoveDataTables(s: Space, own: map<nat, Owner>, lo: nat, hi: nat, p: nat)
    requires TablesOk(s, own, lo, hi) && FrameOf(Pte(s, p)) in own && own[FrameOf(Pte(s, p))] == Data(p)
    ensures TablesOk(RemoveData(s, p), own[FrameOf(Pte(s, p)) := Free], lo, hi)
  {
  }

  lemma RemoveDataKept(s: Space, own: map<nat, Owner>, lo: nat, hi: nat, p: nat, f: nat)
    requires TablesOk(s, own, lo, hi) && lo <= p < hi && Present(Pde(s, p)) && f == FrameOf(Pte(s, p)) && f in own
    requires own[f] == Data(p)
    ensures WordsKept(s, own, RemoveData(s, p), own[f := Free])
    ensures Words(RemoveData(s, p).mem, f)[0] == AddressAt(s.pool, 0)
    ensures forall g :: g in own && own[g] == Free ==> Words(RemoveData(s, p).mem, g) == Words(s.mem, g)
  {
    assert Managed(lo, hi, DirOf(p));
    TableFrame(s, own, lo, hi, p, FrameOf(Pde(s, p)));
  }

  lemma RemoveDataKeeps(s: Space, own: map<nat, Owner>, lo: nat, hi: nat, p: nat)
    requires Valid(s, own, lo, hi) && lo <= p < hi && Lookup(s, p).Some?
    ensures var s', f := RemoveData(s, p), Lookup(s, p).value;
      && f in own && own[f] == Data(p) && Valid(s', own[f := Free], lo, hi)
      && Lookup(s', p) == None && s'.pool == [f] + s.pool && s'.pd == s.pd
      && WordsKept(s, own, s', own[f := Free])
      && forall q: nat :: q != p ==> Lookup(s', q) == Lookup(s, q)
  {
    var s', f := RemoveData(s, p), Lookup(s, p).value;
    Open(s, own, lo, hi);
    GivenToPool(s, s', own, f);
    RemoveDataTables(s, own, lo, hi, p);
    forall q: nat
      ensures Lookup(s', q) == if q == p then None else Lookup(s, q)
    {
      RemoveDataLookup(s, own, lo, hi, p, q);
    }
    RemoveDataKept(s, own, lo, hi, p, f);
    StackPushed(s, own, lo, hi, f, s');
    Close(s', own[f := Free], lo, hi);
  }

  lemma RemoveTableLookup(s: Space, own: map<nat, Owner>, lo: nat, hi: nat, d: nat, q: nat)
    requires TablesOk(s, own, lo, hi) && d < ENTRIES && Managed(lo, hi, d) && Present(s.pd[d])
    requires AllZero(Words(s.mem, FrameOf(s.pd[d])))
    ensures Lookup(RemoveTable(s, d), q) == Lookup(s, q)
  {
    if Present(Pde(s, q)) && FrameOf(Pde(s, q)) == FrameOf(s.pd[d]) {
      TableFrame(s, own, lo, hi, q, FrameOf(s.pd[d]));
    }
  }

  lemma RemoveTableTables(s: Space, own: map<nat, Owner>, lo: nat, hi: nat, d: nat)
    requires TablesOk(s, own, lo, hi) && d < ENTRIES && Managed(lo, hi, d) && Present(s.pd[d])
    ensures TablesOk(RemoveTable(s, d), own[FrameOf(s.pd[d]) := Free], lo, hi)
  {
    assert !Present(PTE_WRITABLE);
  }

  /** Sweeping an all-zero table changes no translation at all. */
  lemma RemoveTableKeeps(s: Space, own: map<nat, Owner>, lo: nat, hi: nat, d: nat)
    requires Valid(s, own, lo, hi) && d < ENTRIES && Managed(lo, hi, d) && Present(s.pd[d])
    requires AllZero(Words(s.mem, FrameOf(s.pd[d])))
    ensures var s', f := RemoveTable(s, d), FrameOf(s.pd[d]);
      && f in own && own[f] == Table(d) && Valid(s', own[f := Free], lo, hi) && s'.pool == [f] + s.pool
      && WordsKept(s, own, s', own[f := Free])
      && forall q: nat :: Lookup(s', q) == Lookup(s, q)
  {
    var s', f := RemoveTable(s, d), FrameOf(s.pd[d]);
    Open(s, own, lo, hi);
    GivenToPool(s, s', own, f);
    RemoveTableTables(s, own, lo, hi, d);
    forall q: nat
      ensures Lookup(s', q) == Lookup(s, q)
    {
      RemoveTableLookup(s, own, lo, hi, d, q);
    }
    StackPushed(s, own, lo, hi, f, s');
    Close(s', own[f := Free], lo, hi);
  }

  // ---- Whole ranges ----

  /** How many directory entries d .. last - 1 have no table yet. */
  ghost function Absent(pd: seq<nat>, d: nat, last: nat): nat
    requires last <= |pd|
    decreases last - d
  {
    if d >= last then 0 else (if Present(pd[d]) then 0 else 1) + Absent(pd, d + 1, last)
  }

  /** How many of the n pages from p on are not mapped. */
  ghost function AbsentPages(s: Space, p: nat, n: nat): nat
    decreases n
  {
    if n == 0 then 0 else (if Lookup(s, p) == None then 1 else 0) + AbsentPages(s, p + 1, n - 1)
  }

  /** The frames vm_map takes for the n pages from p on: the missing pages and the missing tables. */
  ghost function FramesFor(s: Space, p: nat, n: nat): nat
    requires |s.pd| == ENTRIES && p + n <= ENTRIES * ENTRIES
  {
    if n == 0 then 0 else AbsentPages(s, p, n) + Absent(s.pd, DirOf(p), DirOf(p + n - 1) + 1)
  }

  /** The frames it takes for page p alone. */
  ghost function Needs(s: Space, p: nat): nat {
    (if Present(Pde(s, p)) then 0 else 1) + (if Lookup(s, p) == None then 1 else 0)
  }

  lemma {:induction false} AbsentPagesFrame(s: Space, s1: Space, p: nat, n: nat)
    requires forall q: nat :: p <= q ==> Lookup(s1, q) == Lookup(s, q)
    ensures AbsentPages(s1, p, n) == AbsentPages(s, p, n)
    decreases n
  {
    if n > 0 {
      AbsentPagesFrame(s, s1, p + 1, n - 1);
    }
  }

  lemma {:induction false} AbsentFrame(pd: seq<nat>, pd': seq<nat>, d: nat, last: nat)
    requires last <= |pd| == |pd'| && forall e :: d <= e < last ==> pd[e] == pd'[e]
    ensures Absent(pd', d, last) == Absent(pd, d, last)
    decreases last - d
  {
    if d < last {
      AbsentFrame(pd, pd', d + 1, last);
    }
  }

  lemma FramesForNext(s: Space, s1: Space, p: nat, n: nat)
    requires |s.pd| == |s1.pd| == ENTRIES && n > 0 && p + n <= ENTRIES * ENTRIES
    requires Present(s1.pd[DirOf(p)]) && s1.pd == s.pd[DirOf(p) := s1.pd[DirOf(p)]]
    requires forall q: nat :: p + 1 <= q ==> Lookup(s1, q) == Lookup(s, q)
    ensures FramesFor(s, p, n) == FramesFor(s1, p + 1, n - 1) + Needs(s, p)
  {
    AbsentPagesFrame(s, s1, p + 1, n - 1);
    AbsentNext(s.pd, s1.pd, p, n);
    assert AbsentPages(s, p, n) == (if Lookup(s, p) == None then 1 else 0) + AbsentPages(s, p + 1, n - 1);
  }

  lemma AbsentNext(pd: seq<nat>, pd': seq<nat>, p: nat, n: nat)
    requires |pd| == |pd'| == ENTRIES && n > 0 && p + n <= ENTRIES * ENTRIES
    requires Present(pd'[DirOf(p)]) && pd' == pd[DirOf(p) := pd'[DirOf(p)]]
    ensures Absent(pd, DirOf(p), DirOf(p + n - 1) + 1)
              == (if Present(pd[DirOf(p)]) then 0 else 1)
                 + if n == 1 then 0 else Absent(pd', DirOf(p + 1), DirOf(p + n - 1) + 1)
  {
    var d, last := DirOf(p), DirOf(p + n - 1) + 1;
    AbsentFrame(pd, pd', d + 1, last);
    assert DirOf(p + 1) == d || DirOf(p + 1) == d + 1;
  }

  /** Every frame keeps its role, except that frames in role `from` may have got a new one. */
  ghost predicate OnlyFrom(own: map<nat, Owner>, own': map<nat, Owner>, from: set<Owner>) {
    own'.Keys == own.Keys && forall f :: f in own && own[f] !in from ==> own'[f] == own[f]
  }

  lemma PoolTop(s: Space, own: map<nat, Owner>, lo: nat, hi: nat)
    requires Valid(s, own, lo, hi) && s.pool != []
    ensures s.pool[0] in own && own[s.pool[0]] == Free
  {
    assert Holds(Pools, s, own, lo, hi) && s.pool[0] in s.pool;
  }

  /** A page that is mapped already is left alone; another one gets a frame that was free. */
  lemma MapPageKeeps(s: Space, own: map<nat, Owner>, lo: nat, hi: nat, p: nat) returns (own': map<nat, Owner>)
    requires Valid(s, own, lo, hi) && lo <= p < hi && |s.pool| >= Needs(s, p)
    ensures var s' := MapPage(s, p);
      && Valid(s', own', lo, hi) && Mapped(s, own, p, 1, s', own')
      && Present(s'.pd[DirOf(p)]) && s'.pd == s.pd[DirOf(p) := s'.pd[DirOf(p)]]
      && |s'.pool| == |s.pool| - Needs(s, p)
  {
    own' := own;
    if Lookup(s, p) == None {
      var s1, own1 := s, own;
      if !Present(Pde(s, p)) {
        AddTableKeeps(s, own, lo, hi, p);
        PoolTop(s, own, lo, hi);
        s1, own1 := AddTable(s, DirOf(p)), own[s.pool[0] := Table(DirOf(p))];
        assert SameEntry(s, p, s1);
        own' := DataMapped(s1, own1, lo, hi, p);
        MapWithTable(s, own, s1, own1, p, MapPage(s, p), own');
      } else {
        own' := DataMapped(s, own, lo, hi, p);
      }
    } else {
      assert MapPage(s, p) == s;
      NothingMapped(s, own, p);
    }
  }

  lemma NothingMapped(s: Space, own: map<nat, Owner>, p: nat)
    requires Lookup(s, p).Some?
    ensures Mapped(s, own, p, 1, s, own)
  {
    forall f: nat ensures KeptAt(s, own, s, own, f) {}
    assert forall q: nat :: SameEntry(s, q, s);
    assert MappedAt(s, own, p, s, own);
  }

  lemma DataMapped(s: Space, own: map<nat, Owner>, lo: nat, hi: nat, p: nat) returns (own': map<nat, Owner>)
    requires Valid(s, own, lo, hi) && lo <= p < hi && s.pool != [] && Present(Pde(s, p)) && Lookup(s, p) == None
    ensures Valid(AddData(s, p), own', lo, hi) && Mapped(s, own, p, 1, AddData(s, p), own')
  {
    PoolTop(s, own, lo, hi);
    AddDataKeeps(s, own, lo, hi, p);
    own' := own[s.pool[0] := Data(p)];
    assert MappedAt(s, own, p, AddData(s, p), own');
  }

  /** Adding a table first changes nothing about what adding the page comes to. */
  lemma MapWithTable(s: Space, own: map<nat, Owner>, s1: Space, own1: map<nat, Owner>, p: nat, s2: Space, own2: map<nat, Owner>)
    requires WordsKept(s, own, s1, own1) && PdGrown(s.pd, s1.pd) && OnlyFrom(own, own1, {Free})
    requires forall q: nat :: SameEntry(s, q, s1)
    requires Lookup(s, p) == None && Mapped(s1, own1, p, 1, s2, own2)
    requires forall f :: f in own1 && own1[f] == Free ==> own[f] == Free
    ensures Mapped(s, own, p, 1, s2, own2)
  {
    WordsKeptTwice(s, own, s1, own1, s2, own2);
    assert SameEntry(s, p, s1) && MappedAt(s1, own1, p, s2, own2);
    assert MappedAt(s, own, p, s2, own2);
    forall q: nat | q != p
      ensures SameEntry(s, q, s2)
    {
      assert SameEntry(s, q, s1) && SameEntry(s1, q, s2);
    }
  }

  /**
   Page q translates now: as before, if it did before, else to a frame that was free, is zeroed,
   and is entered as a writable kernel page.
   */
  ghost predicate MappedAt(s: Space, own: map<nat, Owner>, q: nat, s': Space, own': map<nat, Owner>) {
    if Lookup(s, q).Some? then SameEntry(s, q, s')
    else
      && Lookup(s', q).Some? && Pte(s', q) % PAGE_SIZE == 3
      && var f := Lookup(s', q).value;
         f in own && own[f] == Free && f in own' && own'[f] == Data(q) && AllZero(Words(s'.mem, f))
  }

  /** Pages p .. p + n - 1 are mapped now; no other translation changed, and no page's contents. */
  ghost predicate Mapped(s: Space, own: map<nat, Owner>, p: nat, n: nat, s': Space, own': map<nat, Owner>) {
    && OnlyFrom(own, own', {Free}) && WordsKept(s, own, s', own') && PdGrown(s.pd, s'.pd)
    && (forall q: nat :: p <= q < p + n ==> MappedAt(s, own, q, s', own'))
    && (forall q: nat :: !(p <= q < p + n) ==> SameEntry(s, q, s'))
  }

  lemma MappedOneMore(s: Space, own: map<nat, Owner>, p: nat, k: nat, s1: Space, own1: map<nat, Owner>,
                      s2: Space, own2: map<nat, Owner>)
    requires Mapped(s, own, p, k, s1, own1) && Mapped(s1, own1, p + k, 1, s2, own2)
    ensures Mapped(s, own, p, k + 1, s2, own2)
  {
    WordsKeptTwice(s, own, s1, own1, s2, own2);
    forall q: nat | p <= q < p + k + 1
      ensures MappedAt(s, own, q, s2, own2)
    {
      if q < p + k {
        assert MappedAt(s, own, q, s1, own1) && SameEntry(s1, q, s2);
        if Lookup(s, q) == None { assert KeptAt(s1, own1, s2, own2, Lookup(s1, q).value); }
      } else {
        assert SameEntry(s, q, s1) && MappedAt(s1, own1, q, s2, own2);
      }
    }
    forall q: nat | !(p <= q < p + k + 1)
      ensures SameEntry(s, q, s2)
    {
      assert SameEntry(s, q, s1) && SameEntry(s1, q, s2);
    }
  }

  /** Pages p .. p + n - 1 translate no more, their frames are free; nothing else changed. */
  ghost predicate Unmapped(s: Space, own: map<nat, Owner>, p: nat, n: nat, s': Space, own': map<nat, Owner>) {
    && own'.Keys == own.Keys && WordsKept(s, own, s', own')
    && (forall q: nat :: p <= q < p + n ==> Lookup(s', q) == None)
    && (forall q: nat :: !(p <= q < p + n) ==> Lookup(s', q) == Lookup(s, q))
    && (forall f :: f in own && own[f] == Free ==> own'[f] == Free)
    && (forall f :: f in own && own[f].Data? ==> own'[f] == if p <= own[f].p < p + n then Free else own[f])
  }

  /** While unmapping, tables stay, and lose just the entries of the pages already done. */
  ghost predicate TablesCleared(s: Space, own: map<nat, Owner>, p: nat, n: nat, s': Space, own': map<nat, Owner>) {
    && own'.Keys == own.Keys && s'.pd == s.pd
    && (forall f :: f in own && own[f].Table? ==> own'[f] == own[f])
    && (forall f, t :: f in own && own[f].Table? && 0 <= t < ENTRIES ==>
          Words(s'.mem, f)[t] == if p <= own[f].d * ENTRIES + t < p + n then 0 else Words(s.mem, f)[t])
  }

  lemma UnmappedOneMore(s: Space, own: map<nat, Owner>, lo: nat, hi: nat, p: nat, k: nat, s1: Space, own1: map<nat, Owner>)
    requires Valid(s1, own1, lo, hi) && lo <= p + k < hi && Lookup(s1, p + k).Some?
    requires Unmapped(s, own, p, k, s1, own1)
    ensures var s2, own2 := RemoveData(s1, p + k), own1[Lookup(s1, p + k).value := Free];
      Valid(s2, own2, lo, hi) && Unmapped(s, own, p, k + 1, s2, own2)
  {
    RemoveDataKeeps(s1, own1, lo, hi, p + k);
    var f := Lookup(s1, p + k).value;
    WordsKeptTwice(s, own, s1, own1, RemoveData(s1, p + k), own1[f := Free]);
    assert forall g :: g in own1 && own1[g] == Data(p + k) ==> g == f by { assert Holds(Datas, s1, own1, lo, hi); }
  }

  lemma ClearedOneMore(s: Space, own: map<nat, Owner>, lo: nat, hi: nat, p: nat, k: nat, s1: Space, own1: map<nat, Owner>)
    requires Valid(s1, own1, lo, hi) && lo <= p + k < hi && Lookup(s1, p + k).Some?
    requires TablesCleared(s, own, p, k, s1, own1)
    ensures TablesCleared(s, own, p, k + 1, RemoveData(s1, p + k), own1[Lookup(s1, p + k).value := Free])
  {
    var q := p + k;
    var table, f, s2 := FrameOf(Pde(s1, q)), Lookup(s1, q).value, RemoveData(s1, q);
    assert f in own1 && own1[f] == Data(q) by { assert Holds(Datas, s1, own1, lo, hi); }
    assert table in own1 && own1[table] == Table(DirOf(q)) by {
      assert Holds(Tables, s1, own1, lo, hi);
      assert Managed(lo, hi, DirOf(q));
    }
    forall g, t | g in own && own[g].Table? && 0 <= t < ENTRIES
      ensures Words(s2.mem, g)[t] == if p <= own[g].d * ENTRIES + t < p + k + 1 then 0 else Words(s.mem, g)[t]
    {
      assert own1[g] == own[g] && g != f;
      RemoveDataWords(s1, q, g, t);
      PageIndex(own[g].d, t, q);
      assert g == table <==> own[g].d == DirOf(q) by { assert Holds(Tables, s1, own1, lo, hi); }
    }
  }

  lemma PageIndex(d: nat, t: nat, q: nat)
    requires t < ENTRIES
    ensures d * ENTRIES + t == q <==> d == DirOf(q) && t == SlotOf(q)
  {
  }

  /** What unmapping page q does to a frame g other than the one it frees. */
  lemma RemoveDataWords(s: Space, q: nat, g: nat, t: nat)
    requires g != FrameOf(Pte(s, q)) && t < ENTRIES
    ensures Words(RemoveData(s, q).mem, g)[t]
              == if g == FrameOf(Pde(s, q)) && t == SlotOf(q) then 0 else Words(s.mem, g)[t]
  {
  }

  /** Tables of entries d0 .. d - 1 that are all zero have been freed, the rest are untouched. */
  ghost predicate Swept(s: Space, own: map<nat, Owner>, d0: nat, d: nat, s': Space, own': map<nat, Owner>) {
    && own'.Keys == own.Keys && |s.pd| == |s'.pd| == ENTRIES && WordsKept(s, own, s', own')
    && (forall q: nat :: Lookup(s', q) == Lookup(s, q))
    && (forall e :: d <= e < ENTRIES ==> s'.pd[e] == s.pd[e])
    && (forall e :: 0 <= e < d && e < ENTRIES ==> s'.pd[e] == s.pd[e] || s'.pd[e] == PTE_WRITABLE)
    && (forall f :: f in own && own[f].Table? && own[f].d >= d ==> Words(s'.mem, f) == Words(s.mem, f))
    && (forall f :: f in own ==>
          own'[f] == if own[f].Table? && d0 <= own[f].d < d && AllZero(Words(s.mem, f)) then Free else own[f])
  }

  lemma SweptOneMore(s: Space, own: map<nat, Owner>, lo: nat, hi: nat, d0: nat, d: nat, s1: Space, own1: map<nat, Owner>)
    requires Valid(s1, own1, lo, hi) && Managed(lo, hi, d) && d0 <= d < ENTRIES && Present(s1.pd[d])
    requires Swept(s, own, d0, d, s1, own1)
    ensures var f := FrameOf(s1.pd[d]);
      if AllZero(Words(s1.mem, f))
      then Valid(RemoveTable(s1, d), own1[f := Free], lo, hi)
           && Swept(s, own, d0, d + 1, RemoveTable(s1, d), own1[f := Free])
      else Swept(s, own, d0, d + 1, s1, own1)
  {
    var f := FrameOf(s1.pd[d]);
    assert f in own1 && own1[f] == Table(d) && forall g :: g in own1 && own1[g] == Table(d) ==> g == f by {
      assert Present(s1.pd[d]) && Managed(lo, hi, d);
      assert Holds(Tables, s1, own1, lo, hi);
    }
    if AllZero(Words(s1.mem, f)) {
      RemoveTableKeeps(s1, own1, lo, hi, d);
      WordsKeptTwice(s, own, s1, own1, RemoveTable(s1, d), own1[f := Free]);
    }
  }
}
