/** ext2_read: which bytes of a file it returns, and for which file offsets those are the right ones. */
module Ext2Read {
  import opened Common
  import opened Arith
  import opened Machine
  import opened BlockFile
  import opened InodeBlocks
  import opened Ext2

  /** read_i_block of one inode. */
  function FileBlocks(d: Disk, inode: Inode): Reader
    requires PerBlock(d) > 0 && InodeOk(inode)
  {
    (idx: nat) => ReadIBlock(d, inode, idx)
  }

  lemma FileBlocksSized(d: Disk, inode: Inode)
    requires DiskOk(d) && InodeOk(inode)
    ensures Sized(FileBlocks(d, inode), d.blockSize)
  {
    forall k | FileBlocks(d, inode)(k).Some?
      ensures |FileBlocks(d, inode)(k).value| == d.blockSize
    {
      BlockRead(d, inode, k);
    }
  }

  /** The file's first n blocks are all there. */
  ghost predicate AllBacked(d: Disk, inode: Inode, n: nat)
    requires PerBlock(d) > 0 && InodeOk(inode)
  {
    forall k: nat :: k < n ==> Backed(d, inode, k)
  }

  /** The first n blocks of a file read exactly when they are there, and are then those of the flat list. */
  lemma FileIsFlat(d: Disk, inode: Inode, n: nat)
    requires DiskOk(d) && InodeOk(inode) && n <= WORD
    ensures Whole(FileBlocks(d, inode), n).Some? <==> AllBacked(d, inode, n)
    ensures AllBacked(d, inode, n) ==>
              && n <= |Flat(d, inode)| && AllRead(d.at, Flat(d, inode)[..n])
              && Whole(FileBlocks(d, inode), n) == Some(Contents(d.at, Flat(d, inode)[..n]))
  {
    var get, f := FileBlocks(d, inode), Flat(d, inode);
    forall k: nat | k < n
      ensures get(k).Some? <==> Backed(d, inode, k)
      ensures Backed(d, inode, k) ==> k < |f| && get(k) == d.at(f[k])
    {
      ReadsIffBacked(d, inode, k);
    }
    WholeIff(get, n);
    if AllBacked(d, inode, n) {
      assert n > 0 ==> Backed(d, inode, n - 1);
      WholeIsContents(get, d.at, f, n);
    }
  }

  /** How many bytes a call asks for; past the end of the file the 32-bit difference wraps. */
  function ToRead(inode: Inode, offset: nat, bytes: nat): nat {
    if bytes <= Minus(inode.size, offset) then bytes else Minus(inode.size, offset)
  }

  /** What ext2_read leaves in the destination, or None where it returns an error. */
  function ReadSpec(d: Disk, inode: Inode, offset: nat, bytes: nat): Option<seq<Option<Byte>>>
    requires PerBlock(d) > 0 && InodeOk(inode)
  {
    CopySpec(FileBlocks(d, inode), d.blockSize, offset % d.blockSize, ToRead(inode, offset, bytes))
  }

  /**
   ext2_read, from any file offset: it fails exactly when one of the blocks it touches does, and
   otherwise copies the bytes of the file from offset % block_size on.
   */
  method Read(fs: Fs, inode: Inode, offset: nat, bytes: nat) returns (r: Option<seq<Option<Byte>>>, newOffset: nat)
    requires FsOk(fs) && InodeOk(inode) && ToRead(inode, offset, bytes) < 0x8000_0000
    ensures r == ReadSpec(DiskOf(fs), inode, offset, bytes)
    ensures newOffset == if r.Some? then (offset + ToRead(inode, offset, bytes)) % WORD else offset
  {
    var remain := Minus(inode.size, offset);
    var toRead := if bytes <= remain then bytes else remain;
    var d := DiskOf(fs);
    DiskOfOk(fs);
    FileBlocksSized(d, inode);
    r := CopyLoop(FileBlocks(d, inode), d.blockSize, offset % d.blockSize, toRead);
    newOffset := if r.Some? then (offset + toRead) % WORD else offset;
  }

  /**
   From offset 0, ext2_read succeeds exactly when every block it needs is there, and then returns
   the first min(bytes, size) bytes of the concatenated blocks of the flat list.
   */
  lemma ReadFromStart(d: Disk, inode: Inode, bytes: nat)
    requires DiskOk(d) && InodeOk(inode) && ToRead(inode, 0, bytes) < 0x8000_0000
    ensures var n := if bytes <= inode.size then bytes else inode.size;
      var m, r, f := Blocks(d.blockSize, n), ReadSpec(d, inode, 0, bytes), Flat(d, inode);
      && (r.Some? <==> AllBacked(d, inode, m))
      && (r.Some? ==>
            && m <= |f| && AllRead(d.at, f[..m]) && n <= |Contents(d.at, f[..m])|
            && r == Some(Known(Contents(d.at, f[..m])[..n])))
  {
    var n := ToRead(inode, 0, bytes);
    BlocksCover(d.blockSize, n);
    FileIsFlat(d, inode, Blocks(d.blockSize, n));
    FileBlocksSized(d, inode);
    LoopFromStart(FileBlocks(d, inode), d.blockSize, n);
  }

  /**
   On a file whose m blocks can all be read, ext2_read returns the bytes that follow the offset
   exactly when the copy stays inside the block buffer and finds the same bytes at
   offset % block_size. CopyRightIff says for which offsets that is so whatever the file holds.
   */
  lemma ReadRightIff(d: Disk, inode: Inode, offset: nat, bytes: nat, m: nat, file: seq<Byte>)
    requires DiskOk(d) && InodeOk(inode) && offset <= inode.size <= |file|
    requires 0 < m && Whole(FileBlocks(d, inode), m) == Some(file)
    ensures var start := offset % d.blockSize;
      var n := if bytes <= inode.size - offset then bytes else inode.size - offset;
      && start + n <= |file|
      && (ReadSpec(d, inode, offset, bytes) == Some(Known(file[offset..offset + n])) <==>
            InBuffer(d.blockSize, start, n) && file[start..start + n] == file[offset..offset + n])
  {
    FileBlocksSized(d, inode);
    LoopRightIff(FileBlocks(d, inode), d.blockSize, offset, ToRead(inode, offset, bytes), m, file);
  }

  // ---- A read that goes wrong ----

  function Filled(b: Byte): seq<Byte> {
    seq(512, _ => b)
  }

  /** Six sectors, each filled with its own number. */
  function SmallFs(): Fs {
    Fs(1024, 512, map l: nat | 0 <= l < 6 :: Filled(l))
  }

  /** A file of two blocks, 1 and 2. */
  function SmallFile(): Inode {
    Inode([1, 2, 0, 0, 0, 0, 0, 0, 0, 0, 0, 0], 0, 0, 0, 2048)
  }

  lemma SmallBlock(b: nat)
    requires 1 <= b <= 2
    ensures FsOk(SmallFs()) && BlockAt(SmallFs(), b) == Some(Filled(2 * b) + Filled(2 * b + 1))
  {
    var fs := SmallFs();
    assert Lba(fs, b, 0) == 2 * b && Lba(fs, b, 1) == 2 * b + 1;
    assert Sectors(fs, b, 0) == Some([]);
    assert [] + fs.dev[2 * b] == fs.dev[2 * b];
    assert Sectors(fs, b, 1) == Some(fs.dev[2 * b]);
    assert Sectors(fs, b, 2) == Some(fs.dev[2 * b] + fs.dev[2 * b + 1]);
  }

  /** Reading one byte at offset 1024 of that file gives its first byte, 2; the byte there is 4. */
  lemma WrongByte()
    ensures var d, inode := DiskOf(SmallFs()), SmallFile();
      && FsOk(SmallFs()) && ReadSpec(d, inode, 1024, 1) == Some([Some(2)])
      && Whole(FileBlocks(d, inode), 2).Some? && |Whole(FileBlocks(d, inode), 2).value| == 2048
      && Whole(FileBlocks(d, inode), 2).value[1024] == 4
  {
    var d, inode := DiskOf(SmallFs()), SmallFile();
    SmallBlock(1);
    SmallBlock(2);
    var get := FileBlocks(d, inode);
    assert get(0) == d.at(1) && get(1) == d.at(2);
    var one, two := d.at(1).value, d.at(2).value;
    assert [] + one == one;
    assert Whole(get, 0) == Some([]);
    assert Whole(get, 1) == Some(one);
    assert Whole(get, 2) == Some(one + two);
    assert Copy(one, 1024, 0, 1) == [Some(2)];
  }
}
