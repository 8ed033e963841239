/**
 A file as a run of blocks of equal size, and a loop that copies from it block by block, starting
 at the same position within every block. How a block is found is a parameter.
 */
module BlockFile {
  import opened Common
  import opened Arith
  import opened Machine

  /** The contents of each block, or None where reading it fails. */
  type Reader = nat -> Option<seq<Byte>>

  ghost predicate Sized(get: Reader, bs: nat) {
    bs > 0 && forall k :: get(k).Some? ==> |get(k).value| == bs
  }

  /** The first n blocks, if all of them can be read. */
  function Whole(get: Reader, n: nat): Option<seq<Byte>> {
    if n == 0 then Some([])
    else match Whole(get, n - 1)
      case None => None
      case Some(data) =>
        match get(n - 1)
        case None => None
        case Some(block) => Some(data + block)
  }

  lemma {:induction false} WholeLength(get: Reader, bs: nat, n: nat)
    requires Sized(get, bs) && Whole(get, n).Some?
    ensures |Whole(get, n).value| == n * bs
  {
    if n > 0 {
      WholeLength(get, bs, n - 1);
      MulStep(n - 1, bs);
    }
  }

  lemma {:induction false} WholeIff(get: Reader, n: nat)
    ensures Whole(get, n).Some? <==> forall k :: 0 <= k < n ==> get(k).Some?
  {
    if n > 0 {
      WholeIff(get, n - 1);
    }
  }

  /** Fewer blocks are the front of more blocks. */
  lemma {:induction false} WholePrefix(get: Reader, a: nat, m: nat)
    requires a <= m && Whole(get, m).Some?
    ensures Whole(get, a).Some? && Whole(get, a).value <= Whole(get, m).value
    decreases m
  {
    if a < m {
      WholePrefix(get, a, m - 1);
    }
  }

  ghost predicate AllRead(at: Reader, blocks: seq<nat>) {
    forall i :: 0 <= i < |blocks| ==> at(blocks[i]).Some?
  }

  /** The contents of the given blocks, one after the other. */
  ghost function Contents(at: Reader, blocks: seq<nat>): seq<Byte>
    requires AllRead(at, blocks)
  {
    if blocks == [] then [] else
      Contents(at, blocks[..|blocks| - 1]) + at(blocks[|blocks| - 1]).value
  }

  /** If block k of the file is the block that f[k] names, the file is the contents of f. */
  lemma {:induction false} WholeIsContents(get: Reader, at: Reader, f: seq<nat>, n: nat)
    requires n <= |f| && forall k :: 0 <= k < n ==> get(k).Some? && get(k) == at(f[k])
    ensures AllRead(at, f[..n]) && Whole(get, n) == Some(Contents(at, f[..n]))
    decreases n
  {
    if n > 0 {
      WholeIsContents(get, at, f, n - 1);
      assert f[..n][..n - 1] == f[..n - 1] && f[..n][n - 1] == f[n - 1];
    }
  }

  // ---- How many blocks a read touches ----

  /** The blocks a read of `toRead` bytes goes through: its loop runs at least once. */
  function Blocks(bs: nat, toRead: nat): nat
    requires bs > 0
  {
    if toRead == 0 then 1 else (toRead - 1) / bs + 1
  }

  lemma BlocksCover(bs: nat, n: nat)
    requires bs > 0
    ensures 0 < Blocks(bs, n) <= n + 1 && n <= Blocks(bs, n) * bs
  {
    if n > 0 {
      DivIdentity(n - 1, bs);
      DivAtMost(n - 1, bs);
      MulStep((n - 1) / bs, bs);
    }
  }

  lemma BlocksWithin(bs: nat, n: nat, m: nat)
    requires bs > 0 && 0 < m && n <= m * bs
    ensures Blocks(bs, n) <= m
  {
    if n > 0 {
      DivIdentity(n - 1, bs);
      if m <= (n - 1) / bs {
        MulMono(m, (n - 1) / bs, bs);
      }
    }
  }

  lemma LastBlock(bs: nat, toRead: nat, k: nat, done: nat)
    requires bs > 0 && done == k * bs && toRead <= done + bs && (done < toRead || (toRead == 0 && k == 0))
    ensures Blocks(bs, toRead) == k + 1
  {
    if toRead > 0 {
      DivModUnique(toRead - 1, bs, k, toRead - 1 - done);
    }
  }

  lemma MoreBlocks(bs: nat, toRead: nat, k: nat)
    requires bs > 0 && (k + 1) * bs < toRead
    ensures k + 1 < Blocks(bs, toRead)
  {
    var q := (toRead - 1) / bs;
    DivIdentity(toRead - 1, bs);
    if q < k + 1 {
      MulLess(q, k + 1, bs);
    }
  }

  // ---- The copy ----

  /**
   Element j of the destination after a copy from start within each block: the byte of the file,
   or None for a byte from behind the block buffer.
   */
  function Cell(file: seq<Byte>, bs: nat, start: nat, j: nat): Option<Byte>
    requires bs > 0
  {
    if start + j % bs < bs && start + j < |file| then Some(file[start + j]) else None
  }

  function Copy(file: seq<Byte>, bs: nat, start: nat, n: nat): (r: seq<Option<Byte>>)
    requires bs > 0
    ensures |r| == n && forall j :: 0 <= j < n ==> r[j] == Cell(file, bs, start, j)
  {
    seq(n, j requires 0 <= j < n => Cell(file, bs, start, j))
  }

  /** n bytes from start on of the buffer that holds one block. */
  function Chunk(block: seq<Byte>, start: nat, n: nat): (r: seq<Option<Byte>>)
    ensures |r| == n && forall i :: 0 <= i < n ==> r[i] == if start + i < |block| then Some(block[start + i]) else None
  {
    seq(n, i requires 0 <= i < n => if start + i < |block| then Some(block[start + i]) else None)
  }

  /** What the loop leaves in the destination, or None where reading a block fails. */
  function CopySpec(get: Reader, bs: nat, start: nat, toRead: nat): Option<seq<Option<Byte>>>
    requires bs > 0
  {
    match Whole(get, Blocks(bs, toRead))
    case None => None
    case Some(file) => Some(Copy(file, bs, start, toRead))
  }

  /** The loop of ext2_read: the block index counts the bytes copied so far. */
  method CopyLoop(get: Reader, bs: nat, start: nat, toRead: nat) returns (r: Option<seq<Option<Byte>>>)
    requires start < bs && Sized(get, bs)
    ensures r == CopySpec(get, bs, start, toRead) && (r.Some? ==> |r.value| == toRead)
  {
    var buf: seq<Option<Byte>> := [];
    ghost var k, file := 0, [];
    BlocksCover(bs, toRead);
    while true
      invariant k < Blocks(bs, toRead) && |buf| == |file| == k * bs
      invariant |buf| <= toRead && (k > 0 ==> |buf| < toRead)
      invariant Whole(get, k) == Some(file) && buf == Copy(file, bs, start, |buf|)
      decreases Blocks(bs, toRead) - k
    {
      MultipleMod(k, bs);
      var block := get(|buf| / bs);
      if block.None? {
        WholeIff(get, Blocks(bs, toRead));
        return None;
      }
      var n := if toRead - |buf| <= bs then toRead - |buf| else bs;
      Advance(bs, toRead, k, file, block.value, start, n);
      file := file + block.value;
      buf := buf + Chunk(block.value, start, n);
      if |buf| >= toRead {
        break;
      }
      k := k + 1;
    }
    r := Some(buf);
  }

  /** One round of the loop; it is the last one exactly when it copied the last of the blocks. */
  lemma Advance(bs: nat, toRead: nat, k: nat, file: seq<Byte>, block: seq<Byte>, start: nat, n: nat)
    requires start < bs == |block| && |file| == k * bs && |file| <= toRead && (k > 0 ==> |file| < toRead)
    requires n == if toRead - |file| <= bs then toRead - |file| else bs
    ensures Copy(file, bs, start, |file|) + Chunk(block, start, n) == Copy(file + block, bs, start, |file| + n)
    ensures if |file| + n >= toRead then |file| + n == toRead && Blocks(bs, toRead) == k + 1
            else k + 1 < Blocks(bs, toRead) && |file| + n == |file + block| == (k + 1) * bs
  {
    CopyMore(file, block, bs, start, k, n);
    MulStep(k, bs);
    if |file| + n >= toRead {
      LastBlock(bs, toRead, k, |file|);
    } else {
      MoreBlocks(bs, toRead, k);
    }
  }

  /** A copy of whole blocks, and a chunk of the next block, are one copy of all of them. */
  lemma CopyMore(file: seq<Byte>, block: seq<Byte>, bs: nat, start: nat, k: nat, n: nat)
    requires start < bs == |block| && |file| == k * bs && n <= bs
    ensures Copy(file, bs, start, |file|) + Chunk(block, start, n) == Copy(file + block, bs, start, |file| + n)
  {
    var l, r := Copy(file, bs, start, |file|) + Chunk(block, start, n), Copy(file + block, bs, start, |file| + n);
    forall j | 0 <= j < |file| + n
      ensures l[j] == r[j]
    {
      if j < |file| {
        OldCell(file, block, bs, start, k, j);
      } else {
        DivModUnique(j, bs, k, j - |file|);
      }
    }
  }

  /** A cell of an earlier block does not see the later ones. */
  lemma OldCell(file: seq<Byte>, block: seq<Byte>, bs: nat, start: nat, k: nat, j: nat)
    requires bs > 0 && |file| == k * bs && j < |file|
    ensures Cell(file + block, bs, start, j) == Cell(file, bs, start, j)
  {
    if start + j % bs < bs {
      DivIdentity(j, bs);
      var q := j / bs;
      if k <= q {
        MulMono(k, q, bs);
      } else {
        MulLess(q, k, bs);
      }
    }
  }

  lemma CopyPrefix(part: seq<Byte>, file: seq<Byte>, bs: nat, start: nat, n: nat, k: nat)
    requires bs > 0 && part <= file && |part| == k * bs && n <= |part|
    ensures Copy(part, bs, start, n) == Copy(file, bs, start, n)
  {
    var block := file[|part|..];
    assert file == part + block;
    forall j | 0 <= j < n
      ensures Copy(part, bs, start, n)[j] == Copy(file, bs, start, n)[j]
    {
      OldCell(part, block, bs, start, k, j);
    }
  }

  // ---- Which bytes were copied ----

  function Known(s: seq<Byte>): (r: seq<Option<Byte>>)
    ensures |r| == |s| && forall j :: 0 <= j < |s| ==> r[j] == Some(s[j])
  {
    seq(|s|, j requires 0 <= j < |s| => Some(s[j]))
  }

  lemma KnownInjective(s: seq<Byte>, t: seq<Byte>)
    ensures Known(s) == Known(t) <==> s == t
  {
    if Known(s) == Known(t) {
      forall j | 0 <= j < |s|
        ensures s[j] == t[j]
      {
        assert Known(s)[j] == Known(t)[j];
      }
    }
  }

  /** No byte comes from behind the block buffer. */
  predicate InBuffer(bs: nat, start: nat, n: nat) {
    n == 0 || start == 0 || start + n <= bs
  }

  /** What the copy comes to: the bytes from start on, as long as it stays inside the buffer. */
  lemma CopyIs(file: seq<Byte>, bs: nat, start: nat, n: nat)
    requires start < bs && start + n <= |file|
    ensures InBuffer(bs, start, n) ==> Copy(file, bs, start, n) == Known(file[start..start + n])
    ensures !InBuffer(bs, start, n) ==> bs - start < n && Copy(file, bs, start, n)[bs - start] == None
  {
    if InBuffer(bs, start, n) {
      forall j | 0 <= j < n
        ensures Copy(file, bs, start, n)[j] == Known(file[start..start + n])[j]
      {
        if start == 0 {
          DivIdentity(j, bs);
        } else {
          DivModUnique(j, bs, 0, j);
        }
      }
    } else {
      DivModUnique(bs - start, bs, 0, bs - start);
    }
  }

  /** A copy for the given offset returned the bytes that follow the offset in the file. */
  ghost predicate Right(file: seq<Byte>, bs: nat, offset: nat, n: nat)
    requires bs > 0 && offset + n <= |file|
  {
    Copy(file, bs, offset % bs, n) == Known(file[offset..offset + n])
  }

  /**
   The block index ignores the offset. So the bytes copied are the right ones exactly when the copy
   stays inside the buffer and the file happens to read the same at offset % bs.
   */
  lemma RightIff(file: seq<Byte>, bs: nat, offset: nat, n: nat)
    requires bs > 0 && offset + n <= |file|
    ensures offset % bs + n <= |file|
    ensures Right(file, bs, offset, n) <==>
              InBuffer(bs, offset % bs, n) && file[offset % bs..offset % bs + n] == file[offset..offset + n]
  {
    var start := offset % bs;
    DivIdentity(offset, bs);
    MulNonNegative(offset / bs, bs);
    CopyIs(file, bs, start, n);
    if InBuffer(bs, start, n) {
      KnownInjective(file[start..start + n], file[offset..offset + n]);
    } else {
      assert Known(file[offset..offset + n])[bs - start].Some?;
    }
  }

  /** Whatever the file holds, the copy is right: exactly from offset 0, or within the first block. */
  lemma CopyRightIff(bs: nat, offset: nat, n: nat)
    requires bs > 0
    ensures (forall file: seq<Byte> :: offset + n <= |file| ==> Right(file, bs, offset, n))
              <==> n == 0 || offset == 0 || offset + n <= bs
  {
    if n == 0 || offset == 0 || offset + n <= bs {
      forall file: seq<Byte> | offset + n <= |file|
        ensures Right(file, bs, offset, n)
      {
        RightIff(file, bs, offset, n);
        if offset < bs {
          DivModUnique(offset, bs, 0, offset);
        }
      }
    } else {
      WrongOnMarked(bs, offset, n);
    }
  }

  /** A file in which the byte at the offset differs from everything before it. */
  ghost function Marked(offset: nat, n: nat): (file: seq<Byte>)
    ensures |file| == offset + n
    ensures forall j :: 0 <= j < |file| ==> file[j] == if j < offset then 0 else 1
  {
    seq(offset + n, j => if j < offset then 0 else 1)
  }

  lemma WrongOnMarked(bs: nat, offset: nat, n: nat)
    requires bs > 0 && n > 0 && offset > 0 && offset + n > bs
    ensures !Right(Marked(offset, n), bs, offset, n)
  {
    var file := Marked(offset, n);
    RightIff(file, bs, offset, n);
    if offset < bs {
      DivModUnique(offset, bs, 0, offset);
    } else {
      assert file[offset..offset + n][0] == 1 && file[offset % bs..offset % bs + n][0] == 0;
    }
  }

  /**
   For the loop itself, on a file of m blocks that can all be read: it delivers the n bytes behind
   the offset exactly when the copy stays inside the buffer and finds the same bytes at offset % bs.
   */
  lemma LoopRightIff(get: Reader, bs: nat, offset: nat, n: nat, m: nat, file: seq<Byte>)
    requires Sized(get, bs) && m > 0 && Whole(get, m) == Some(file) && offset + n <= |file|
    ensures var start := offset % bs;
      && start + n <= |file|
      && (CopySpec(get, bs, start, n) == Some(Known(file[offset..offset + n])) <==>
            InBuffer(bs, start, n) && file[start..start + n] == file[offset..offset + n])
  {
    WholeLength(get, bs, m);
    BlocksCover(bs, n);
    BlocksWithin(bs, n, m);
    WholePrefix(get, Blocks(bs, n), m);
    WholeLength(get, bs, Blocks(bs, n));
    CopyPrefix(Whole(get, Blocks(bs, n)).value, file, bs, offset % bs, n, Blocks(bs, n));
    RightIff(file, bs, offset, n);
  }

  /** From offset 0 the loop delivers the front of the file. */
  lemma LoopFromStart(get: Reader, bs: nat, n: nat)
    requires Sized(get, bs)
    ensures 0 % bs == 0
    ensures CopySpec(get, bs, 0, n).Some? <==> Whole(get, Blocks(bs, n)).Some?
    ensures CopySpec(get, bs, 0, n).Some? ==>
              var file := Whole(get, Blocks(bs, n)).value;
              n <= |file| && CopySpec(get, bs, 0, n) == Some(Known(file[..n]))
  {
    var m := Blocks(bs, n);
    DivModUnique(0, bs, 0, 0);
    BlocksCover(bs, n);
    if Whole(get, m).Some? {
      WholeLength(get, bs, m);
      CopyIs(Whole(get, m).value, bs, 0, n);
    }
  }
}
