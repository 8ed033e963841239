/**
 The blocks of an ext2 file: direct, single, double and triple indirection read as one flat list
 of blocks ("i_block" in "The Second Extended File System: Internal Layout").
 */
module InodeBlocks {
  import opened Common
  import opened Arith
  import opened Machine
  import opened BlockFile
  import opened BlockTree

  const ADDR_BYTES := 4

  /** at: what read_block delivers for each block number. */
  datatype Disk = Disk(at: Reader, blockSize: nat)

  datatype Inode = Inode(direct: seq<nat>, single: nat, double: nat, triple: nat, size: nat)

  ghost predicate DiskOk(d: Disk) {
    Sized(d.at, d.blockSize) && ADDR_BYTES <= d.blockSize <= 4096 && d.blockSize % ADDR_BYTES == 0
  }

  predicate InodeOk(i: Inode) {
    |i.direct| == 12
  }

  /** 32-bit subtraction, as on blk_idx_t. */
  function Minus(a: nat, b: nat): nat {
    if b <= a then a - b else (a - b) % WORD
  }

  // ---- Block pointers ----

  function PerBlock(d: Disk): (n: nat) {
    d.blockSize / ADDR_BYTES
  }

  /** The k-th little-endian word of a block; 0 behind its end. */
  function Addr(block: seq<Byte>, k: nat): nat {
    if 4 * k + 3 < |block| then
      (block[4 * k] as int) + 0x100 * (block[4 * k + 1] as int)
        + 0x1_0000 * (block[4 * k + 2] as int) + 0x100_0000 * (block[4 * k + 3] as int)
    else 0
  }

  /** The pointers of block b; those of an unreadable block read as zero. */
  function Pointers(d: Disk, b: nat): (p: seq<nat>)
    ensures |p| == PerBlock(d)
  {
    seq(PerBlock(d), k requires k >= 0 => if d.at(b).Some? then Addr(d.at(b).value, k) else 0)
  }

  lemma FourDigits(b0: nat, b1: nat, b2: nat, b3: nat)
    requires b0 < 0x100 && b1 < 0x100 && b2 < 0x100 && b3 < 0x100
    ensures var p := b0 + 0x100 * b1 + 0x1_0000 * b2 + 0x100_0000 * b3;
      p < WORD && p % 0x100 == b0 && p / 0x100 % 0x100 == b1 && p / 0x1_0000 % 0x100 == b2 && p / 0x100_0000 == b3
  {
    var p := b0 + 0x100 * b1 + 0x1_0000 * b2 + 0x100_0000 * b3;
    DivModUnique(p, 0x100, b1 + 0x100 * b2 + 0x1_0000 * b3, b0);
    DivModUnique(b1 + 0x100 * b2 + 0x1_0000 * b3, 0x100, b2 + 0x100 * b3, b1);
    DivModUnique(p, 0x1_0000, b2 + 0x100 * b3, b0 + 0x100 * b1);
    DivModUnique(b2 + 0x100 * b3, 0x100, b3, b2);
    DivModUnique(p, 0x100_0000, b3, b0 + 0x100 * b1 + 0x1_0000 * b2);
  }

  /** A pointer is its four bytes, lowest first. */
  lemma AddrDigits(block: seq<Byte>, k: nat)
    requires 4 * k + 3 < |block|
    ensures var p := Addr(block, k);
      && p < WORD && p % 0x100 == block[4 * k] && p / 0x100 % 0x100 == block[4 * k + 1]
      && p / 0x1_0000 % 0x100 == block[4 * k + 2] && p / 0x100_0000 == block[4 * k + 3]
  {
    FourDigits(block[4 * k], block[4 * k + 1], block[4 * k + 2], block[4 * k + 3]);
  }

  /** How a pointer is written to the disk. */
  function Encode(p: nat): (b: seq<Byte>)
    requires p < WORD
    ensures |b| == 4
  {
    [p % 0x100, p / 0x100 % 0x100, p / 0x1_0000 % 0x100, p / 0x100_0000]
  }

  ghost predicate AllWords(ps: seq<nat>) {
    forall k :: 0 <= k < |ps| ==> ps[k] < WORD
  }

  /** A table of pointers as it lies on the disk. */
  ghost function Encoded(ps: seq<nat>): (block: seq<Byte>)
    requires AllWords(ps)
    ensures |block| == 4 * |ps|
  {
    if ps == [] then [] else Encoded(ps[..|ps| - 1]) + Encode(ps[|ps| - 1])
  }

  lemma EncodedAt(block: seq<Byte>, k: nat, p: nat)
    requires p < WORD && 4 * k + 4 <= |block| && block[4 * k..4 * k + 4] == Encode(p)
    ensures Addr(block, k) == p
  {
    var b := block[4 * k..4 * k + 4];
    assert b[0] == block[4 * k] && b[1] == block[4 * k + 1] && b[2] == block[4 * k + 2] && b[3] == block[4 * k + 3];
    Recomposed(p);
  }

  lemma Recomposed(p: nat)
    ensures p == p % 0x100 + 0x100 * (p / 0x100 % 0x100) + 0x1_0000 * (p / 0x1_0000 % 0x100) + 0x100_0000 * (p / 0x100_0000)
  {
    var p1 := p / 0x100;
    var p2 := p1 / 0x100;
    DivModUnique(p, 0x1_0000, p2, p1 % 0x100 * 0x100 + p % 0x100);
    DivModUnique(p2, 0x100, p2 / 0x100, p2 % 0x100);
    DivModUnique(p, 0x100_0000, p2 / 0x100, p2 % 0x100 * 0x1_0000 + p1 % 0x100 * 0x100 + p % 0x100);
  }

  /** Pointers written to a block read back. */
  lemma {:induction false} EncodedReadsBack(ps: seq<nat>, k: nat)
    requires AllWords(ps) && k < |ps|
    ensures Encoded(ps)[4 * k..4 * k + 4] == Encode(ps[k]) && Addr(Encoded(ps), k) == ps[k]
    decreases |ps|
  {
    var n := |ps| - 1;
    var init, block := ps[..n], Encoded(ps);
    assert block == Encoded(init) + Encode(ps[n]);
    if k < n {
      EncodedReadsBack(init, k);
      assert block[4 * k..4 * k + 4] == Encoded(init)[4 * k..4 * k + 4];
    } else {
      assert block[4 * k..4 * k + 4] == Encode(ps[n]);
    }
    EncodedAt(block, k, ps[k]);
  }

  lemma PointersReadBack(d: Disk, b: nat, ps: seq<nat>)
    requires AllWords(ps) && |ps| == PerBlock(d) && d.at(b) == Some(Encoded(ps))
    ensures Pointers(d, b) == ps
  {
    forall k | 0 <= k < |ps|
      ensures Pointers(d, b)[k] == ps[k]
    {
      EncodedReadsBack(ps, k);
    }
  }

  /** read_indirect on the pointers of the current table. */
  function ReadIndirect(d: Disk, idx: nat, cur: seq<nat>, depth: nat): Option<seq<Byte>>
    requires 0 < PerBlock(d) == |cur| && depth <= 2 && (depth == 2 ==> idx < Span(PerBlock(d), 2))
    decreases depth
  {
    CurIdxBound(PerBlock(d), idx, depth);
    var k := CurIdx(PerBlock(d), idx, depth);
    if depth == 0 then
      if cur[k] == 0 then None else d.at(cur[k])
    else if d.at(cur[k]).None? then None
    else ReadIndirect(d, idx, Pointers(d, cur[k]), depth - 1)
  }

  /** Where read_i_block looks for block idx. */
  datatype Route = Direct(b: nat) | Via(root: nat, idx: nat, depth: nat) | Nowhere

  /** The if-chain of read_i_block; a, sq and cube are apb, apb * apb and apb * apb * apb. */
  function RouteTo(inode: Inode, idx: nat, a: nat, sq: nat, cube: nat): (r: Route)
    requires InodeOk(inode)
    ensures r.Via? ==> r.depth <= 2 && (r.depth == 2 ==> r.idx < cube)
  {
    if idx < 12 && inode.direct[idx] != 0 then Direct(inode.direct[idx])
    else
      var i1 := Minus(idx, 12);
      if i1 < a && inode.single != 0 then Via(inode.single, i1, 0)
      else
        var i2 := Minus(i1, a);
        if i2 < sq && inode.double != 0 then Via(inode.double, i2, 1)
        else
          var i3 := Minus(i2, sq);
          if i3 < cube && inode.triple != 0 then Via(inode.triple, i3, 2) else Nowhere
  }

  function ReadIBlock(d: Disk, inode: Inode, idx: nat): Option<seq<Byte>>
    requires PerBlock(d) > 0 && InodeOk(inode)
  {
    var apb := PerBlock(d);
    match RouteTo(inode, idx, apb, Span(apb, 1), Span(apb, 2))
    case Direct(b) => d.at(b)
    case Via(root, i, depth) => Through(d, root, i, depth)
    case Nowhere => None
  }

  function Through(d: Disk, root: nat, idx: nat, depth: nat): Option<seq<Byte>>
    requires PerBlock(d) > 0 && depth <= 2 && (depth == 2 ==> idx < Span(PerBlock(d), 2))
  {
    if d.at(root).None? then None else ReadIndirect(d, idx, Pointers(d, root), depth)
  }

  // ---- The flat list of blocks ----

  ghost function Table(d: Disk): Tables {
    b => Pointers(d, b)
  }

  lemma TableFan(d: Disk)
    requires PerBlock(d) > 0
    ensures Fan(Table(d), PerBlock(d))
  {
  }

  /** What the indirect block root leads to, in order. */
  ghost function Part(d: Disk, root: nat, depth: nat): seq<nat> {
    Leaves(Table(d), depth, Pointers(d, root))
  }

  /** The file's block pointers: direct, then what the three indirect blocks lead to. */
  ghost function Flat(d: Disk, inode: Inode): seq<nat> {
    inode.direct + Part(d, inode.single, 0) + Part(d, inode.double, 1) + Part(d, inode.triple, 2)
  }

  /** Block idx of a file through the tree it is in: which of the inode's pointers, and which leaf of it. */
  ghost function Place(d: Disk, inode: Inode, idx: nat): (r: Route)
    requires InodeOk(inode)
    ensures r.Via? ==> r.depth <= 2 && r.idx < Span(PerBlock(d), r.depth)
  {
    var a, sq, cube := PerBlock(d), Span(PerBlock(d), 1), Span(PerBlock(d), 2);
    if idx < 12 then Direct(inode.direct[idx])
    else if idx < 12 + a then Via(inode.single, idx - 12, 0)
    else if idx < 12 + a + sq then Via(inode.double, idx - 12 - a, 1)
    else if idx < 12 + a + sq + cube then Via(inode.triple, idx - 12 - a - sq, 2)
    else Nowhere
  }

  /** Every table that read_indirect goes through below the current one can be read. */
  ghost predicate PathOk(d: Disk, idx: nat, cur: seq<nat>, depth: nat)
    requires 0 < PerBlock(d) == |cur| && depth <= 2 && (depth == 2 ==> idx < Span(PerBlock(d), 2))
    decreases depth
  {
    CurIdxBound(PerBlock(d), idx, depth);
    var k := CurIdx(PerBlock(d), idx, depth);
    depth > 0 ==> d.at(cur[k]).Some? && PathOk(d, idx, Pointers(d, cur[k]), depth - 1)
  }

  /** The inode's own pointer is not zero, and every table on the way to block idx can be read. */
  ghost predicate Reached(d: Disk, inode: Inode, idx: nat)
    requires PerBlock(d) > 0 && InodeOk(inode)
  {
    match Place(d, inode, idx)
    case Direct(b) => b != 0
    case Via(root, i, depth) => root != 0 && d.at(root).Some? && PathOk(d, i, Pointers(d, root), depth)
    case Nowhere => false
  }

  /** The data block, unless its pointer is zero. */
  ghost function Leaf(d: Disk, leaf: nat): Option<seq<Byte>> {
    if leaf == 0 then None else d.at(leaf)
  }

  /** On every device: read_indirect delivers the leaf the walk ends at if it can read the tables on the way. */
  lemma {:induction false} IndirectIsWalk(d: Disk, idx: nat, cur: seq<nat>, depth: nat)
    requires 0 < PerBlock(d) == |cur| && depth <= 2 && (depth == 2 ==> idx < Span(PerBlock(d), 2))
    requires Fan(Table(d), PerBlock(d))
    ensures ReadIndirect(d, idx, cur, depth)
              == if PathOk(d, idx, cur, depth) then Leaf(d, Walk(Table(d), PerBlock(d), idx, cur, depth)) else None
    decreases depth
  {
    var k := CurIdx(PerBlock(d), idx, depth);
    CurIdxBound(PerBlock(d), idx, depth);
    if depth > 0 {
      IndirectIsWalk(d, idx, Pointers(d, cur[k]), depth - 1);
    }
  }

  lemma ThroughLeaf(d: Disk, root: nat, idx: nat, depth: nat)
    requires PerBlock(d) > 0 && depth <= 2 && idx < Span(PerBlock(d), depth)
    ensures |Part(d, root, depth)| == Span(PerBlock(d), depth)
    ensures Through(d, root, idx, depth)
              == if d.at(root).Some? && PathOk(d, idx, Pointers(d, root), depth)
                 then Leaf(d, Part(d, root, depth)[idx]) else None
  {
    TableFan(d);
    IndirectIsWalk(d, idx, Pointers(d, root), depth);
    WalkFindsLeaf(Table(d), PerBlock(d), idx, Pointers(d, root), depth);
  }

  // ---- Routes ----

  /** With at most 1024 pointers a block, a wrapped index is out of every indirect range. */
  lemma SmallSpans(a: nat)
    requires 1 <= a <= 1024
    ensures a <= Span(a, 1) <= 0x10_0000 && Span(a, 1) <= Span(a, 2) <= 0x4000_0000
  {
    SpanIs(a);
    MulMono(a, 1024, a);
    MulMono(1, a, a);
    MulMono(a, 1024, a * a);
    MulMono(1, a, a * a);
    assert a * (a * a) == a * a * a;
  }

  /** Each subtraction of read_i_block lands in range exactly for its own indices, else it wraps far out. */
  lemma WrapsOut(idx: nat, a: nat, sq: nat, cube: nat)
    requires idx < WORD && a <= sq <= 0x10_0000 && sq <= cube <= 0x4000_0000
    ensures var i1 := Minus(idx, 12); var i2 := Minus(i1, a); var i3 := Minus(i2, sq);
      && (i1 < a <==> 12 <= idx < 12 + a) && (i1 < a ==> i1 == idx - 12)
      && (i2 < sq <==> 12 + a <= idx < 12 + a + sq) && (i2 < sq ==> i2 == idx - 12 - a)
      && (i3 < cube <==> 12 + a + sq <= idx < 12 + a + sq + cube) && (i3 < cube ==> i3 == idx - 12 - a - sq)
  {
  }

  /** So read_i_block goes where the file's tree has the block, unless the inode's pointer is zero. */
  lemma RouteIsPlace(d: Disk, inode: Inode, idx: nat)
    requires DiskOk(d) && InodeOk(inode) && idx < WORD
    ensures var a, p := PerBlock(d), Place(d, inode, idx);
      RouteTo(inode, idx, a, Span(a, 1), Span(a, 2))
        == match p
           case Direct(b) => if b != 0 then p else Nowhere
           case Via(root, i, depth) => if root != 0 then p else Nowhere
           case Nowhere => Nowhere
  {
    var a := PerBlock(d);
    SmallSpans(a);
    WrapsOut(idx, a, Span(a, 1), Span(a, 2));
  }

  lemma PartLength(d: Disk, root: nat, depth: nat)
    requires PerBlock(d) > 0
    ensures |Part(d, root, depth)| == Span(PerBlock(d), depth)
  {
    TableFan(d);
    LeavesLength(Table(d), PerBlock(d), depth, Pointers(d, root));
  }

  lemma ConcatAt(w: seq<nat>, x: seq<nat>, y: seq<nat>, z: seq<nat>, i: nat)
    requires i < |w| + |x| + |y| + |z|
    ensures (w + x + y + z)[i] == if i < |w| then w[i]
                                  else if i < |w| + |x| then x[i - |w|]
                                  else if i < |w| + |x| + |y| then y[i - |w| - |x|]
                                  else z[i - |w| - |x| - |y|]
  {
  }

  /** The flat list has exactly the blocks that have a place in the tree, each at its index. */
  lemma FlatAt(d: Disk, inode: Inode, idx: nat)
    requires PerBlock(d) > 0 && InodeOk(inode)
    ensures idx < |Flat(d, inode)| <==> !Place(d, inode, idx).Nowhere?
    ensures var p := Place(d, inode, idx);
      && (p.Direct? ==> Flat(d, inode)[idx] == p.b)
      && (p.Via? ==> p.idx < |Part(d, p.root, p.depth)| && Flat(d, inode)[idx] == Part(d, p.root, p.depth)[p.idx])
  {
    PartLength(d, inode.single, 0);
    PartLength(d, inode.double, 1);
    PartLength(d, inode.triple, 2);
    if idx < |Flat(d, inode)| {
      ConcatAt(inode.direct, Part(d, inode.single, 0), Part(d, inode.double, 1), Part(d, inode.triple, 2), idx);
    }
  }

  /**
   read_i_block is a lookup in the flat list. For every inode and every device, block idx reads
   as block Flat[idx] exactly when the inode's own pointer and the last pointer on the way are
   not zero and every table on the way can be read; otherwise, and past the end of the list, it
   fails.
   */
  lemma ReadIBlockIsFlat(d: Disk, inode: Inode, idx: nat)
    requires DiskOk(d) && InodeOk(inode) && idx < WORD
    ensures Reached(d, inode, idx) ==> idx < |Flat(d, inode)|
    ensures ReadIBlock(d, inode, idx) == if Reached(d, inode, idx) then Leaf(d, Flat(d, inode)[idx]) else None
  {
    RouteIsPlace(d, inode, idx);
    FlatAt(d, inode, idx);
    match Place(d, inode, idx) {
      case Via(root, i, depth) => ThroughLeaf(d, root, i, depth);
      case Direct(_) =>
      case Nowhere =>
    }
  }

  /** Block idx of the file is there: no zero pointer at either end, and everything on the way can be read. */
  ghost predicate Backed(d: Disk, inode: Inode, idx: nat)
    requires PerBlock(d) > 0 && InodeOk(inode)
  {
    && idx < |Flat(d, inode)| && Reached(d, inode, idx)
    && Flat(d, inode)[idx] != 0 && d.at(Flat(d, inode)[idx]).Some?
  }

  /** Exactly the blocks that are there read, and as the flat list says. */
  lemma ReadsIffBacked(d: Disk, inode: Inode, idx: nat)
    requires DiskOk(d) && InodeOk(inode) && idx < WORD
    ensures ReadIBlock(d, inode, idx).Some? <==> Backed(d, inode, idx)
    ensures Backed(d, inode, idx) ==> ReadIBlock(d, inode, idx) == d.at(Flat(d, inode)[idx])
  {
    ReadIBlockIsFlat(d, inode, idx);
  }

  lemma {:induction false} IndirectLength(d: Disk, idx: nat, cur: seq<nat>, depth: nat)
    requires 0 < PerBlock(d) == |cur| && depth <= 2 && (depth == 2 ==> idx < Span(PerBlock(d), 2))
    requires Sized(d.at, d.blockSize) && ReadIndirect(d, idx, cur, depth).Some?
    ensures |ReadIndirect(d, idx, cur, depth).value| == d.blockSize
    decreases depth
  {
    CurIdxBound(PerBlock(d), idx, depth);
    var k := CurIdx(PerBlock(d), idx, depth);
    if depth > 0 {
      IndirectLength(d, idx, Pointers(d, cur[k]), depth - 1);
    }
  }

  /** Whatever read_i_block delivers is a whole block. */
  lemma BlockRead(d: Disk, inode: Inode, idx: nat)
    requires DiskOk(d) && InodeOk(inode) && ReadIBlock(d, inode, idx).Some?
    ensures |ReadIBlock(d, inode, idx).value| == d.blockSize
  {
    var a := PerBlock(d);
    match RouteTo(inode, idx, a, Span(a, 1), Span(a, 2)) {
      case Direct(b) =>
      case Via(root, i, depth) => IndirectLength(d, i, Pointers(d, root), depth);
      case Nowhere =>
    }
  }

  // ---- Tables written to the disk ----

  /** With the pointers ps in its indirect block, block 12 + k of a file is the block that ps[k] names. */
  lemma SingleTableReads(d: Disk, inode: Inode, ps: seq<nat>, k: nat)
    requires DiskOk(d) && InodeOk(inode) && inode.single != 0
    requires AllWords(ps) && |ps| == PerBlock(d) && d.at(inode.single) == Some(Encoded(ps)) && k < |ps|
    ensures ReadIBlock(d, inode, 12 + k) == if ps[k] == 0 then None else d.at(ps[k])
  {
    PointersReadBack(d, inode.single, ps);
    RouteIsPlace(d, inode, 12 + k);
    DivModUnique(k, PerBlock(d), 0, k);
  }
}
