/**
 The slab allocator: pages cut into equal chunks, an intrusive freelist per slab,
 and metadata that is itself allocated from the 32-byte slabs.

 This module is the value-level specification: total functions on a `State`.
 `SlabAllocator` holds the in-place methods, `SlabRuns` the theorems over runs.
 */
module Slab {
  import opened Common
  import opened Machine

  const N_SIZES := 10
  /** sizeof(struct slab_meta) and the class its chunks come from. */
  const META_BYTES := 20
  const META_CLASS := 2
  /** Link address of the static metadata; only its being below the frames matters. */
  const BOOTSTRAP_META := 0xC001_0000

  const CHUNK_SIZES := [8, 16, 32, 64, 128, 256, 512, 1024, 2048, 4096]

  function SlotSize(i: nat): (r: nat)
    ensures r > 0
  {
    if i < N_SIZES then CHUNK_SIZES[i] else PAGE_SIZE
  }

  /** The loop of round_up_pow2, entered with the given value of `pow`. */
  function RoundUpFrom(pow: nat, v: nat): nat
    requires pow > 0
    decreases v - pow
  {
    if pow < v then RoundUpFrom(2 * pow, v) else pow
  }

  function SizeIdx(bytes: nat): (r: nat)
    ensures r < N_SIZES
  {
    match RoundUpFrom(1, bytes)
    case 8 => 0 case 16 => 1 case 32 => 2 case 64 => 3 case 128 => 4
    case 256 => 5 case 512 => 6 case 1024 => 7 case 2048 => 8 case _ => 9
  }

  // ---- State ----

  /** struct slab_meta, without its linkage: the lists are sequences. */
  datatype Meta = Meta(slab: nat, freelist: nat, freeSlots: int)

  /**
   pool:  the page frame allocator's free stack
   meta:  the metadata structures in use, by address
   slabs: one list of metadata addresses per size class
   mem:   memory by word address; an absent address holds 0
   */
  datatype State = State(pool: seq<nat>, meta: map<nat, Meta>, slabs: seq<seq<nat>>, mem: map<nat, nat>)

  function Rd(mem: map<nat, nat>, a: nat): nat {
    if a in mem then mem[a] else 0
  }

  function Zero(mem: map<nat, nat>, a: nat, n: nat): map<nat, nat> {
    map x | x in mem && !(a <= x < a + n) :: mem[x]
  }

  function At(s: State, m: nat): Meta {
    if m in s.meta then s.meta[m] else Meta(0, 0, 0)
  }

  function PageOf(a: nat): nat {
    a - a % PAGE_SIZE
  }

  function Slots(i: nat): nat {
    PAGE_SIZE / SlotSize(i)
  }

  // ---- Operations ----

  function ChunkPut(s: State, m: nat, c: nat): State {
    var mt := At(s, m);
    s.(mem := s.mem[c := mt.freelist],
       meta := s.meta[m := mt.(freelist := c, freeSlots := mt.freeSlots + 1)])
  }

  /** The chunk handed out is At(s, m).freelist. */
  function ChunkGet(s: State, m: nat, size: nat): State {
    var mt := At(s, m);
    s.(mem := Zero(s.mem, mt.freelist, size),
       meta := s.meta[m := mt.(freelist := Rd(s.mem, mt.freelist), freeSlots := mt.freeSlots - 1)])
  }

  /** The loop of prepare_slab from its i-th iteration on. */
  function PutAll(s: State, m: nat, page: nat, size: nat, i: nat, n: nat): State
    decreases n - i
  {
    if i < n then PutAll(ChunkPut(s, m, page + i * size), m, page, size, i + 1, n) else s
  }

  function PrepareSlab(s: State, m: nat, i: nat): State {
    var page := if s.pool == [] then 0 else s.pool[0];
    var rest := if s.pool == [] then [] else s.pool[1..];
    PutAll(s.(pool := rest, meta := s.meta[m := Meta(page, 0, 0)]), m, page, SlotSize(i), 0, Slots(i))
  }

  function Link(s: State, m: nat, i: nat): State {
    if i < |s.slabs| then s.(slabs := s.slabs[i := s.slabs[i] + [m]]) else s
  }

  function NewSlab(s: State, m: nat, i: nat): State {
    Link(PrepareSlab(s, m, i), m, i)
  }

  function EmptyLists(): seq<seq<nat>> {
    seq(N_SIZES, _ => [])
  }

  function SlabInit(pool: seq<nat>, mem: map<nat, nat>): State {
    NewSlab(State(pool, map[], EmptyLists(), mem), BOOTSTRAP_META, META_CLASS)
  }

  datatype Pick = NoSlot | Plain(m: nat) | Eager(m: nat)

  /** What the scan of one size class settles on. */
  function Scan(s: State, list: seq<nat>, i: nat): Pick {
    if list == [] then NoSlot
    else
      var mt := At(s, list[0]);
      if i == META_CLASS && mt.freelist != 0 && Rd(s.mem, mt.freelist) == 0 then Eager(list[0])
      else if mt.freeSlots != 0 then Plain(list[0])
      else Scan(s, list[1..], i)
  }

  function List(s: State, i: nat): seq<nat> {
    if i < |s.slabs| then s.slabs[i] else []
  }

  /** State before the final chunk_get, and the slab that chunk_get is applied to. */
  datatype Ready = Ready(s: State, m: nat)

  /**
   do_slab_alloc up to its last chunk_get. `stack` bounds the nesting of
   do_slab_alloc through grab_a_slab; None means the bound was reached.
   */
  function SlabFor(s: State, i: nat, stack: nat): Option<Ready>
    decreases stack
  {
    if stack == 0 then None
    else
      match Scan(s, List(s, i), i)
      case Plain(m) => Some(Ready(s, m))
      case Eager(m) =>
        var c := At(s, m).freelist;
        Some(Ready(NewSlab(ChunkGet(s, m, SlotSize(i)), c, i), c))
      case NoSlot => Grow(SlabFor(s, META_CLASS, stack - 1), i)
  }

  /** The rest of grab_a_slab, once its inner do_slab_alloc has found a slab to take from. */
  function Grow(inner: Option<Ready>, i: nat): Option<Ready> {
    match inner
    case None => None
    case Some(r) =>
      var c := At(r.s, r.m).freelist;
      Some(Ready(NewSlab(ChunkGet(r.s, r.m, SlotSize(META_CLASS)), c, i), c))
  }

  datatype Block = Block(s: State, ptr: nat)

  function DoSlabAlloc(s: State, bytes: nat, stack: nat): Option<Block> {
    var i := SizeIdx(bytes);
    match SlabFor(s, i, stack)
    case None => None
    case Some(r) => Some(Block(ChunkGet(r.s, r.m, SlotSize(i)), At(r.s, r.m).freelist))
  }

  function FindIn(s: State, list: seq<nat>, page: nat): Option<nat> {
    if list == [] then None
    else if At(s, list[0]).slab == page then Some(list[0])
    else FindIn(s, list[1..], page)
  }

  datatype Found = Found(i: nat, m: nat)

  /** The nested search of do_slab_free, from size class i on. */
  function FindSlab(s: State, i: nat, page: nat): (r: Option<Found>)
    ensures r.Some? ==> r.value.i < |s.slabs| && FindIn(s, s.slabs[r.value.i], page) == Some(r.value.m)
    decreases |s.slabs| - i
  {
    if i >= |s.slabs| then None
    else match FindIn(s, s.slabs[i], page)
      case Some(m) => Some(Found(i, m))
      case None => FindSlab(s, i + 1, page)
  }

  /** Unlink m, return its page; pf_free stores the old stack top in the page. */
  function Release(s: State, i: nat, m: nat): State
    requires i < |s.slabs|
  {
    var page := At(s, m).slab;
    State([page] + s.pool, s.meta - {m}, s.slabs[i := Without(s.slabs[i], m)],
          s.mem[page := if s.pool == [] then 0 else s.pool[0]])
  }

  ghost function Total(slabs: seq<seq<nat>>): nat {
    if slabs == [] then 0 else |slabs[0]| + Total(slabs[1..])
  }

  function DoSlabFree(s: State, ptr: nat): State
    decreases Total(s.slabs)
  {
    match FindSlab(s, 0, PageOf(ptr))
    case None => s
    case Some(Found(i, m)) =>
      var s1 := ChunkPut(s, m, ptr);
      if At(s1, m).freeSlots == Slots(i) then
        FindInMember(s, s.slabs[i], PageOf(ptr));
        TotalUpdate(s.slabs, i, Without(s.slabs[i], m));
        DoSlabFree(Release(s1, i, m), m)
      else s1
  }

  lemma {:induction false} FindInMember(s: State, list: seq<nat>, page: nat)
    ensures FindIn(s, list, page).Some? ==>
              FindIn(s, list, page).value in list && At(s, FindIn(s, list, page).value).slab == page
    ensures FindIn(s, list, page).None? ==> forall m :: m in list ==> At(s, m).slab != page
  {
    if list != [] {
      FindInMember(s, list[1..], page);
      assert list == [list[0]] + list[1..];
    }
  }

  lemma {:induction false} TotalUpdate(slabs: seq<seq<nat>>, i: nat, l: seq<nat>)
    requires i < |slabs|
    ensures Total(slabs[i := l]) == Total(slabs) - |slabs[i]| + |l|
  {
    if i == 0 {
      assert slabs[i := l][1..] == slabs[1..];
    } else {
      TotalUpdate(slabs[1..], i - 1, l);
      assert slabs[i := l][1..] == slabs[1..][i - 1 := l];
    }
  }

  // ---- Size classes ----

  /** round_up_pow2 yields the least power of two that is at least v. */
  lemma {:induction false} RoundUpIsLeastPow2(pow: nat, v: nat)
    requires pow > 0 && IsPow2(pow) && (pow == 1 || pow / 2 < v)
    ensures IsPow2(RoundUpFrom(pow, v)) && v <= RoundUpFrom(pow, v)
    ensures RoundUpFrom(pow, v) == 1 || RoundUpFrom(pow, v) / 2 < v
    decreases v - pow
  {
    if pow < v {
      assert (2 * pow) / 2 == pow;
      RoundUpIsLeastPow2(2 * pow, v);
    }
  }

  lemma {:induction false} Pow2Range(n: nat)
    requires IsPow2(n) && n <= 4096
    ensures n in [1, 2, 4] + CHUNK_SIZES
  {
    if n > 1 {
      Pow2Range(n / 2);
    }
  }

  /**
   size_idx picks the tightest class for 5..4096 bytes; requests of up to 4 bytes get a
   whole page; the slot is long enough exactly when at most a page was asked for.
   */
  lemma SizeIdxTightest(bytes: nat)
    ensures bytes <= SlotSize(SizeIdx(bytes)) <==> bytes <= PAGE_SIZE
    ensures bytes <= 4 ==> SizeIdx(bytes) == 9
    ensures 4 < bytes <= PAGE_SIZE ==> forall j :: 0 <= j < SizeIdx(bytes) ==> SlotSize(j) < bytes
  {
    RoundUpIsLeastPow2(1, bytes);
    var r := RoundUpFrom(1, bytes);
    if bytes <= PAGE_SIZE {
      if r > 4096 {
        Pow2Between(r);
      }
      Pow2Range(r);
    }
  }

  lemma {:induction false} Pow2Between(r: nat)
    requires IsPow2(r) && 4096 < r <= 8192
    ensures r == 8192
  {
    Pow2Range(r / 2);
  }

  lemma MetaClass()
    ensures SizeIdx(META_BYTES) == META_CLASS && SlotSize(META_CLASS) == 32
  {
    assert RoundUpFrom(1, 20) == RoundUpFrom(4, 20) == RoundUpFrom(16, 20) == 32;
  }
}
