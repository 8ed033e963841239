/** An ext2 file system on a device of sectors: reading one block. */
module Ext2 {
  import opened Common
  import opened Arith
  import opened Machine
  import opened BlockFile
  import opened InodeBlocks

  /** dev: the sectors that can be read, by LBA. */
  datatype Fs = Fs(blockSize: nat, sectorSize: nat, dev: map<nat, seq<Byte>>)

  predicate FsOk(fs: Fs) {
    && fs.sectorSize > 0 && fs.blockSize % fs.sectorSize == 0
    && ADDR_BYTES <= fs.blockSize <= 4096 && fs.blockSize % ADDR_BYTES == 0
    && forall l :: l in fs.dev ==> |fs.dev[l]| == fs.sectorSize
  }

  /** LBA of the i-th sector of block b; the byte offset is a 32-bit product. */
  function Lba(fs: Fs, b: nat, i: nat): nat
    requires fs.sectorSize > 0
  {
    ((b * fs.blockSize) % WORD + i * fs.sectorSize) / fs.sectorSize
  }

  /** The first n sectors of block b, if all of them can be read. */
  function Sectors(fs: Fs, b: nat, n: nat): (r: Option<seq<Byte>>)
    requires fs.sectorSize > 0
  {
    if n == 0 then Some([])
    else match Sectors(fs, b, n - 1)
      case None => None
      case Some(data) =>
        if Lba(fs, b, n - 1) in fs.dev then Some(data + fs.dev[Lba(fs, b, n - 1)]) else None
  }

  function BlockAt(fs: Fs, b: nat): Option<seq<Byte>>
    requires fs.sectorSize > 0
  {
    Sectors(fs, b, fs.blockSize / fs.sectorSize)
  }

  method ReadBlock(fs: Fs, b: nat) returns (r: Option<seq<Byte>>)
    requires FsOk(fs)
    ensures r == BlockAt(fs, b) && (r.Some? ==> |r.value| == fs.blockSize)
  {
    var data: seq<Byte> := [];
    var n := fs.blockSize / fs.sectorSize;
    for i := 0 to n
      invariant Sectors(fs, b, i) == Some(data)
    {
      var lba := Lba(fs, b, i);
      if lba !in fs.dev {
        SectorsFail(fs, b, i + 1, n);
        return None;
      }
      data := data + fs.dev[lba];
    }
    BlockLength(fs, b);
    r := Some(data);
  }

  lemma {:induction false} SectorsFail(fs: Fs, b: nat, k: nat, n: nat)
    requires fs.sectorSize > 0 && k <= n && Sectors(fs, b, k).None?
    ensures Sectors(fs, b, n).None?
    decreases n
  {
    if k < n {
      SectorsFail(fs, b, k, n - 1);
    }
  }

  lemma {:induction false} SectorsLength(fs: Fs, b: nat, n: nat)
    requires FsOk(fs) && Sectors(fs, b, n).Some?
    ensures |Sectors(fs, b, n).value| == n * fs.sectorSize
  {
    if n > 0 {
      SectorsLength(fs, b, n - 1);
      MulStep(n - 1, fs.sectorSize);
    }
  }

  lemma BlockLength(fs: Fs, b: nat)
    requires FsOk(fs) && BlockAt(fs, b).Some?
    ensures |BlockAt(fs, b).value| == fs.blockSize
  {
    SectorsLength(fs, b, fs.blockSize / fs.sectorSize);
    DivIdentity(fs.blockSize, fs.sectorSize);
  }

  // ---- Where the bytes of a block lie ----

  /** Byte n of the device, if its sector can be read. */
  ghost function DeviceByte(fs: Fs, n: int): Option<Byte>
    requires fs.sectorSize > 0
  {
    var lba, k := n / fs.sectorSize, n % fs.sectorSize;
    if lba in fs.dev && k < |fs.dev[lba]| then Some(fs.dev[lba][k]) else None
  }

  /** Sector i of block b, on a device below 2^32 bytes. */
  lemma LbaIs(fs: Fs, b: nat, i: nat, m: nat)
    requires FsOk(fs) && fs.blockSize == m * fs.sectorSize && b * fs.blockSize < WORD
    ensures Lba(fs, b, i) == b * m + i
  {
    var bs, ss := fs.blockSize, fs.sectorSize;
    MulNonNegative(b, bs);
    DivModUnique(b * bs, WORD, 0, b * bs);
    SectorStart(b, m, i, ss);
    MultipleMod(b * m + i, ss);
  }

  lemma SectorStart(b: nat, m: nat, i: nat, ss: nat)
    ensures b * (m * ss) + i * ss == (b * m + i) * ss
  {
    assert b * (m * ss) == b * m * ss;
    assert (b * m + i) * ss == b * m * ss + i * ss;
  }

  lemma {:induction false} SectorsBytes(fs: Fs, b: nat, n: nat, m: nat, i: nat, k: nat)
    requires FsOk(fs) && fs.blockSize == m * fs.sectorSize && b * fs.blockSize < WORD
    requires Sectors(fs, b, n).Some? && i < n && k < fs.sectorSize
    ensures b * m + i in fs.dev && |fs.dev[b * m + i]| == fs.sectorSize
    ensures 0 <= i * fs.sectorSize && i * fs.sectorSize + k < |Sectors(fs, b, n).value|
    ensures Sectors(fs, b, n).value[i * fs.sectorSize + k] == fs.dev[b * m + i][k]
    decreases n
  {
    LbaIs(fs, b, n - 1, m);
    SectorsLength(fs, b, n - 1);
    SectorsLength(fs, b, n);
    MulNonNegative(i, fs.sectorSize);
    if i < n - 1 {
      SectorsBytes(fs, b, n - 1, m, i, k);
    }
  }

  /** Byte j of block b is byte b * block_size + j of the device, whatever the sector size. */
  lemma BlockBytes(fs: Fs, b: nat, j: nat)
    requires FsOk(fs) && b * fs.blockSize < WORD && BlockAt(fs, b).Some? && j < fs.blockSize
    ensures |BlockAt(fs, b).value| == fs.blockSize
    ensures DeviceByte(fs, b * fs.blockSize + j) == Some(BlockAt(fs, b).value[j])
  {
    var bs, ss := fs.blockSize, fs.sectorSize;
    var m, i, k := bs / ss, j / ss, j % ss;
    DivIdentity(bs, ss);
    DivIdentity(j, ss);
    DivNonNegative(bs, ss);
    DivNonNegative(j, ss);
    BlockLength(fs, b);
    MulNonNegative(b, bs);
    if m <= i {
      MulMono(m, i, ss);
    }
    SectorsBytes(fs, b, m, m, i, k);
    SectorStart(b, m, i, ss);
    MulNonNegative(b, m);
    DivModUnique(b * bs + j, ss, b * m + i, k);
  }

  /** And it can be read exactly when all its sectors can. */
  lemma {:induction false} SectorsReadIff(fs: Fs, b: nat, n: nat, m: nat, first: nat)
    requires FsOk(fs) && fs.blockSize == m * fs.sectorSize && b * fs.blockSize < WORD && first == b * m
    ensures Sectors(fs, b, n).Some? <==> forall i :: first <= i < first + n ==> i in fs.dev
    decreases n
  {
    if n > 0 {
      SectorsReadIff(fs, b, n - 1, m, first);
      LbaIs(fs, b, n - 1, m);
    }
  }

  /** The device as the block layer above sees it. */
  function DiskOf(fs: Fs): Disk
    requires fs.sectorSize > 0
  {
    Disk(b => BlockAt(fs, b), fs.blockSize)
  }

  lemma DiskOfOk(fs: Fs)
    requires FsOk(fs)
    ensures DiskOk(DiskOf(fs))
  {
    var at := DiskOf(fs).at;
    forall b | at(b).Some?
      ensures |at(b).value| == fs.blockSize
    {
      BlockLength(fs, b);
    }
  }
}
