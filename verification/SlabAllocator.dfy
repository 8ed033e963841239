/** The allocator as the kernel runs it: fields updated in place, loops and recursion. */
module SlabAllocator {
  import opened Common
  import opened Slab
  import opened SlabRuns
  import SlabInvariant
  import opened Machine

  /** Up to 2^31 the doubling stays within 32 bits; beyond, `pow <<= 1` reaches 0 and never ends. */
  method RoundUpPow2(v: nat) returns (pow: nat)
    requires v <= 0x8000_0000
    ensures pow == RoundUpFrom(1, v) && IsPow2(pow)
    ensures v <= pow <= 0x8000_0000 && (pow == 1 || pow / 2 < v)
  {
    pow := 1;
    while pow < v
      invariant pow > 0 && IsPow2(pow) && RoundUpFrom(pow, v) == RoundUpFrom(1, v)
      invariant pow == 1 || pow / 2 < v
      invariant pow <= 0x8000_0000
      decreases v - pow
    {
      TwoTo31IsPow2();
      DoublingGap(0x8000_0000, pow);
      pow := 2 * pow;
      assert pow / 2 < v && IsPow2(pow / 2);
    }
  }

  /** The next power of two after k is 2 * k. */
  lemma {:induction false} DoublingGap(pow: nat, k: nat)
    requires IsPow2(pow) && IsPow2(k) && k < pow
    ensures pow >= 2 * k
  {
    if k > 1 {
      DoublingGap(pow / 2, k / 2);
    }
  }

  lemma Pow2Times16(n: nat)
    requires n > 0 && IsPow2(n)
    ensures IsPow2(16 * n)
  {
    Pow2Double(n);
    Pow2Double(2 * n);
    Pow2Double(4 * n);
    Pow2Double(8 * n);
  }

  lemma Pow2Double(n: nat)
    requires n > 0 && IsPow2(n)
    ensures IsPow2(2 * n)
  {
    assert (2 * n) / 2 == n;
  }

  lemma TwoTo31IsPow2()
    ensures IsPow2(0x8000_0000)
  {
    assert IsPow2(1) && IsPow2(2) && IsPow2(4) && IsPow2(8);
    Pow2Times16(8);
    Pow2Times16(0x80);
    Pow2Times16(0x800);
    Pow2Times16(0x8000);
    Pow2Times16(0x8_0000);
    Pow2Times16(0x80_0000);
    Pow2Times16(0x800_0000);
  }

  class Allocator {
    var pool: seq<nat>
    var meta: map<nat, Meta>
    var slabs: seq<seq<nat>>
    var mem: map<nat, nat>

    ghost function St(): State
      reads this
    {
      State(pool, meta, slabs, mem)
    }

    function MetaAt(m: nat): (r: Meta)
      reads this
      ensures r == At(St(), m)
    {
      if m in meta then meta[m] else Meta(0, 0, 0)
    }

    constructor (pool: seq<nat>, mem: map<nat, nat>)
      ensures St() == State(pool, map[], EmptyLists(), mem)
    {
      this.pool, this.meta, this.slabs, this.mem := pool, map[], EmptyLists(), mem;
    }

    method ChunkPut(m: nat, c: nat)
      modifies this
      ensures St() == Slab.ChunkPut(old(St()), m, c)
    {
      var mt := MetaAt(m);
      mem := mem[c := mt.freelist];
      meta := meta[m := mt.(freelist := c, freeSlots := mt.freeSlots + 1)];
    }

    method ChunkGet(m: nat, size: nat) returns (c: nat)
      modifies this
      ensures c == At(old(St()), m).freelist
      ensures St() == Slab.ChunkGet(old(St()), m, size)
    {
      var mt := MetaAt(m);
      c := mt.freelist;
      meta := meta[m := mt.(freelist := Rd(mem, c), freeSlots := mt.freeSlots - 1)];
      mem := Zero(mem, c, size);
    }

    method PrepareSlab(m: nat, i: nat)
      modifies this
      ensures St() == Slab.PrepareSlab(old(St()), m, i)
    {
      var page := if pool == [] then 0 else pool[0];
      pool := if pool == [] then [] else pool[1..];
      meta := meta[m := Meta(page, 0, 0)];
      PutChunks(m, page, SlotSize(i), Slots(i));
    }

    method PutChunks(m: nat, page: nat, size: nat, n: nat)
      modifies this
      ensures St() == PutAll(old(St()), m, page, size, 0, n)
    {
      for k := 0 to n
        invariant PutAll(St(), m, page, size, k, n) == PutAll(old(St()), m, page, size, 0, n)
      {
        ghost var s := St();
        ChunkPut(m, page + k * size);
        PutAllStep(s, m, page, size, k, n);
      }
    }

    method LinkSlab(m: nat, i: nat)
      requires i < |slabs|
      modifies this
      ensures St() == Link(old(St()), m, i)
    {
      slabs := slabs[i := slabs[i] + [m]];
    }

    method SlabInit()
      requires slabs == EmptyLists() && meta == map[]
      modifies this
      ensures St() == Slab.SlabInit(old(pool), old(mem))
    {
      PrepareSlab(BOOTSTRAP_META, META_CLASS);
      assert slabs == EmptyLists() by { PrepareKeepsLists(old(St()), BOOTSTRAP_META, META_CLASS); }
      LinkSlab(BOOTSTRAP_META, META_CLASS);
    }

    /** grab_a_slab, its do_slab_alloc being the nested call of the allocation below. */
    method GrabASlab(i: nat) returns (m: nat)
      requires i < N_SIZES && |slabs| == N_SIZES
      requires !Scan(St(), slabs[META_CLASS], META_CLASS).NoSlot?
      modifies this
      ensures |slabs| == N_SIZES
      ensures var inner := SlabFor(old(St()), META_CLASS, 1).value;
        && m == At(inner.s, inner.m).freelist
        && St() == Slab.PrepareSlab(Slab.ChunkGet(inner.s, inner.m, SlotSize(META_CLASS)), m, i)
      decreases 0, 1
    {
      MetaClass();
      m := DoSlabAlloc(META_BYTES);
      PrepareKeepsLists(St(), m, i);
      PrepareSlab(m, i);
    }

    /**
     Returns when the class itself or the 32-byte class offers a chunk; the nested call then
     never nests again.
     */
    method DoSlabAlloc(bytes: nat) returns (ptr: nat)
      requires |slabs| == N_SIZES
      requires || !Scan(St(), slabs[META_CLASS], META_CLASS).NoSlot?
               || !Scan(St(), slabs[SizeIdx(bytes)], SizeIdx(bytes)).NoSlot?
      modifies this
      ensures |slabs| == N_SIZES
      ensures Slab.DoSlabAlloc(old(St()), bytes, if SizeIdx(bytes) == META_CLASS then 1 else 2)
                == Some(Block(St(), ptr))
      decreases if SizeIdx(bytes) == META_CLASS then 0 else 1, 0
    {
      var i := SizeIdx(bytes);
      var slot := SlotSize(i);
      var k := 0;
      while k < |slabs[i]|
        invariant 0 <= k <= |slabs[i]| && St() == old(St())
        invariant Scan(St(), slabs[i][k..], i) == Scan(St(), slabs[i], i)
      {
        var m := slabs[i][k];
        var mt := MetaAt(m);
        assert slabs[i][k..][0] == m && slabs[i][k..][1..] == slabs[i][k + 1..];
        if i == META_CLASS && mt.freelist != 0 && Rd(mem, mt.freelist) == 0 {
          var eager := ChunkGet(m, slot);
          PrepareKeepsLists(St(), eager, i);
          PrepareSlab(eager, i);
          LinkSlab(eager, i);
          ptr := ChunkGet(eager, slot);
          return;
        }
        if mt.freeSlots != 0 {
          ptr := ChunkGet(m, slot);
          return;
        }
        k := k + 1;
      }
      var new_ := GrabASlab(i);
      LinkSlab(new_, i);
      ptr := ChunkGet(new_, slot);
    }

    /** Terminates because every level of the cascade unlinks a slab. */
    method DoSlabFree(ptr: nat)
      requires |slabs| == N_SIZES
      modifies this
      ensures St() == Slab.DoSlabFree(old(St()), ptr)
      decreases Total(slabs)
    {
      var page := PageOf(ptr);
      var i := 0;
      while i < N_SIZES
        invariant 0 <= i <= N_SIZES && St() == old(St())
        invariant FindSlab(St(), i, page) == FindSlab(St(), 0, page)
      {
        var k := 0;
        while k < |slabs[i]|
          invariant 0 <= k <= |slabs[i]| && St() == old(St())
          invariant FindIn(St(), slabs[i][k..], page) == FindIn(St(), slabs[i], page)
        {
          var m := slabs[i][k];
          assert slabs[i][k..][0] == m && slabs[i][k..][1..] == slabs[i][k + 1..];
          if MetaAt(m).slab == page {
            assert FindSlab(St(), 0, page) == Some(Found(i, m));
            FindInMember(St(), slabs[i], page);
            ChunkPut(m, ptr);
            if MetaAt(m).freeSlots == Slots(i) {
              TotalUpdate(slabs, i, Without(slabs[i], m));
              slabs := slabs[i := Without(slabs[i], m)];
              PageFree(MetaAt(m).slab);
              meta := meta - {m};
              DoSlabFree(m);
            }
            return;
          }
          k := k + 1;
        }
        i := i + 1;
      }
    }

    /** pf_free, run to completion: push the frame, its first word linking to the old top. */
    method PageFree(page: nat)
      modifies this
      ensures St() == old(St()).(pool := [page] + old(pool), mem := old(mem)[page := if old(pool) == [] then 0 else old(pool)[0]])
    {
      mem := mem[page := if pool == [] then 0 else pool[0]];
      pool := [page] + pool;
    }
  }

  lemma PutAllStep(s: State, m: nat, page: nat, size: nat, k: nat, n: nat)
    requires k < n
    ensures PutAll(s, m, page, size, k, n) == PutAll(Slab.ChunkPut(s, m, page + k * size), m, page, size, k + 1, n)
  {
  }

  lemma {:induction false} PutAllKeepsLists(s: State, m: nat, page: nat, size: nat, i: nat, n: nat)
    ensures PutAll(s, m, page, size, i, n).slabs == s.slabs
    decreases n - i
  {
    if i < n {
      PutAllKeepsLists(Slab.ChunkPut(s, m, page + i * size), m, page, size, i + 1, n);
    }
  }

  lemma PrepareKeepsLists(s: State, m: nat, i: nat)
    ensures Slab.PrepareSlab(s, m, i).slabs == s.slabs
  {
    var page := if s.pool == [] then 0 else s.pool[0];
    var rest := if s.pool == [] then [] else s.pool[1..];
    PutAllKeepsLists(s.(pool := rest, meta := s.meta[m := Meta(page, 0, 0)]), m, page, SlotSize(i), 0, Slots(i));
  }
}
