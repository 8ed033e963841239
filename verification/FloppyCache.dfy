/**
 The floppy driver's cylinder cache: 16 purgeable cylinder buffers per drive in
 least-recently-used order, filled through one DMA buffer shared by both drives.
 */
module FloppyCache {
  import opened Common
  import opened Arith
  import opened Machine

  const CYLINDER_CACHE_CYLS := 16
  const DMA_BUF_SIZE := 5 * 4096

  /** sectorBytes: 128 << sector_size of the format table. */
  datatype Format = Format(cyls: nat, heads: nat, sectorsPerTrack: nat, sectorBytes: nat) {
    function CylBytes(): nat {
      heads * sectorsPerTrack * sectorBytes
    }
  }

  predicate FormatOk(f: Format) {
    && 0 < f.cyls <= 80 && 0 < f.heads <= 2 && 0 < f.sectorsPerTrack <= 255 && 0 < f.sectorBytes
    && f.CylBytes() <= DMA_BUF_SIZE
  }

  /** The medium in one drive, as a plain sequence of bytes in LBA order. */
  datatype Disk = Disk(format: Format, bytes: seq<Byte>)

  predicate DiskOk(d: Disk) {
    FormatOk(d.format) && |d.bytes| == d.format.cyls * d.format.CylBytes()
  }

  // ---- LBA arithmetic ----

  /** The conversion of a block number to the 16-bit parameter of the functions below. */
  function Low16(lba: nat): nat {
    lba % 0x1_0000
  }

  /** It loses nothing: no format has as many as 2^16 sectors. */
  lemma FitsIn16(f: Format, lba: nat)
    requires FormatOk(f) && lba < SectorCount(f)
    ensures Low16(lba) == lba
  {
    MulMono(f.heads, 2, f.sectorsPerTrack);
    MulNonNegative(f.heads, f.sectorsPerTrack);
    MulMono(f.cyls, 80, f.heads * f.sectorsPerTrack);
  }

  function LbaToHead(f: Format, lba: nat): nat
    requires FormatOk(f)
  {
    (lba / f.sectorsPerTrack) % f.heads
  }

  function LbaToCyl(f: Format, lba: nat): nat
    requires FormatOk(f)
  {
    MulNonNegative(f.heads, f.sectorsPerTrack);
    lba / (f.heads * f.sectorsPerTrack)
  }

  function LbaToSector(f: Format, lba: nat): nat
    requires FormatOk(f)
  {
    lba % f.sectorsPerTrack + 1
  }

  lemma LbaDigits(f: Format, lba: nat)
    requires FormatOk(f)
    ensures lba == LbaToCyl(f, lba) * (f.heads * f.sectorsPerTrack) + LbaToHead(f, lba) * f.sectorsPerTrack + LbaToSector(f, lba) - 1
    ensures LbaToHead(f, lba) < f.heads && 1 <= LbaToSector(f, lba) <= f.sectorsPerTrack
  {
    ThreeDigits(lba, f.heads, f.sectorsPerTrack);
  }

  lemma ThreeDigits(n: nat, h: nat, s: nat)
    requires h > 0 && s > 0
    ensures h * s > 0 && n == n / (h * s) * (h * s) + n / s % h * s + n % s
    ensures 0 <= n / s % h < h && 0 <= n % s < s
  {
    var top, mid, low := n / s / h, n / s % h, n % s;
    DivIdentity(n, s);
    DivIdentity(n / s, h);
    Distribute(top, h, mid, s);
    MulNonNegative(mid, s);
    MulNonNegative(h, s);
    MulLess(mid, h, s);
    DivModUnique(n, h * s, top, mid * s + low);
  }

  lemma Distribute(c: nat, h: nat, head: nat, s: nat)
    ensures (c * h + head) * s == c * (h * s) + head * s
  {
    assert (c * h + head) * s == c * h * s + head * s;
    assert c * h * s == c * (h * s);
  }

  // ---- One drive's cache ----

  /** NoData: never allocated. Purged: allocated, buffer taken away. */
  datatype Slot = NoData | Purged | Held(buf: seq<Byte>)

  /** struct cylinder; num is -1 when it holds no cylinder. */
  datatype Entry = Entry(num: int, slot: Slot)

  function Cylinder(d: Disk, c: nat): seq<Byte>
    requires DiskOk(d) && c < d.format.cyls
  {
    CylinderBounds(d.format, c);
    d.bytes[c * d.format.CylBytes()..(c + 1) * d.format.CylBytes()]
  }

  lemma CylinderBounds(f: Format, c: nat)
    requires FormatOk(f) && c < f.cyls
    ensures f.CylBytes() > 0 && 0 <= c * f.CylBytes() <= (c + 1) * f.CylBytes() <= f.cyls * f.CylBytes()
    ensures (c + 1) * f.CylBytes() == c * f.CylBytes() + f.CylBytes()
  {
    MulNonNegative(f.heads, f.sectorsPerTrack);
    MulNonNegative(f.heads * f.sectorsPerTrack, f.sectorBytes);
    MulNonNegative(c, f.CylBytes());
    MulMono(c + 1, f.cyls, f.CylBytes());
  }

  /** An entry holds a buffer exactly when it has a number, and then that cylinder's contents. */
  ghost predicate EntryOk(d: Disk, e: Entry)
    requires DiskOk(d)
  {
    if e.num == -1 then !e.slot.Held?
    else 0 <= e.num < d.format.cyls && e.slot == Held(Cylinder(d, e.num))
  }

  ghost predicate CacheOk(d: Disk, es: seq<Entry>)
    requires DiskOk(d)
  {
    && |es| == CYLINDER_CACHE_CYLS
    && (forall i :: 0 <= i < |es| ==> EntryOk(d, es[i]))
    && UniqueNums(es)
  }

  ghost predicate UniqueNums(es: seq<Entry>) {
    forall i, j :: 0 <= i < j < |es| && es[i].num != -1 ==> es[i].num != es[j].num
  }

  /** Position of the entry for cylinder c, or -1. */
  function Find(es: seq<Entry>, c: int): (i: int)
    ensures -1 <= i < |es|
    ensures i >= 0 ==> es[i].num == c && !es[i].slot.NoData? && forall j :: i < j < |es| ==> !(es[j].num == c && !es[j].slot.NoData?)
    ensures i == -1 ==> forall j :: 0 <= j < |es| ==> !(es[j].num == c && !es[j].slot.NoData?)
  {
    if es == [] then -1
    else
      var n := |es| - 1;
      if es[n].num == c && !es[n].slot.NoData? then n else Find(es[..n], c)
  }

  /** What a successful read of cylinder c does to the list: hit or reused entry goes to the end. */
  function Touch(es: seq<Entry>, c: nat, data: seq<Byte>): seq<Entry>
    requires es != []
  {
    var i := Find(es, c);
    if i >= 0 then ToEnd(es, i) else es[1..] + [Entry(c, Held(data))]
  }

  function ToEnd(es: seq<Entry>, i: nat): seq<Entry>
    requires i < |es|
  {
    es[..i] + es[i + 1..] + [es[i]]
  }

  lemma ToEndKeeps(es: seq<Entry>, i: nat)
    requires i < |es| && UniqueNums(es)
    ensures |ToEnd(es, i)| == |es| && UniqueNums(ToEnd(es, i))
    ensures forall j :: 0 <= j < |es| ==> ToEnd(es, i)[j] == es[if j < i then j else if j == |es| - 1 then i else j + 1]
  {
  }

  lemma ReuseKeeps(es: seq<Entry>, e: Entry)
    requires es != [] && UniqueNums(es) && forall j :: 0 <= j < |es| ==> es[j].num != e.num
    ensures UniqueNums(es[1..] + [e])
  {
  }

  lemma TouchKeeps(d: Disk, es: seq<Entry>, c: nat)
    requires DiskOk(d) && CacheOk(d, es) && c < d.format.cyls
    ensures CacheOk(d, Touch(es, c, Cylinder(d, c)))
    ensures var r := Touch(es, c, Cylinder(d, c)); r[|r| - 1] == Entry(c, Held(Cylinder(d, c)))
  {
    var i := Find(es, c);
    if i >= 0 {
      assert EntryOk(d, es[i]);
      ToEndKeeps(es, i);
      ToEndAll(es, i, e => EntryOk(d, e));
    } else {
      MissKeeps(d, es, Entry(c, Held(Cylinder(d, c))));
    }
  }

  lemma ToEndAll(es: seq<Entry>, i: nat, ok: Entry -> bool)
    requires i < |es| && forall j :: 0 <= j < |es| ==> ok(es[j])
    ensures forall j :: 0 <= j < |ToEnd(es, i)| ==> ok(ToEnd(es, i)[j])
  {
  }

  lemma MissKeeps(d: Disk, es: seq<Entry>, e: Entry)
    requires DiskOk(d) && CacheOk(d, es) && 0 <= e.num && EntryOk(d, e) && Find(es, e.num) == -1
    ensures CacheOk(d, es[1..] + [e])
  {
    forall j | 0 <= j < |es|
      ensures es[j].num != e.num
    {
      assert EntryOk(d, es[j]);
    }
    ReuseKeeps(es, e);
    forall j | 0 <= j < |es|
      ensures EntryOk(d, (es[1..] + [e])[j])
    {
      if j < |es| - 1 { assert EntryOk(d, es[j + 1]); }
    }
  }

  lemma HitKeeps(d: Disk, es: seq<Entry>, c: nat, i: nat)
    requires DiskOk(d) && CacheOk(d, es) && c < d.format.cyls && i == Find(es, c)
    ensures CacheOk(d, ToEnd(es, i)) && es[i].slot == Held(Cylinder(d, c))
    ensures Touch(es, c, Cylinder(d, c)) == ToEnd(es, i)
  {
    TouchKeeps(d, es, c);
    assert EntryOk(d, es[i]);
  }

  // ---- Sectors ----

  ghost function SectorCount(f: Format): nat {
    f.cyls * (f.heads * f.sectorsPerTrack)
  }

  lemma CylInRange(f: Format, lba: nat)
    requires FormatOk(f) && lba < SectorCount(f)
    ensures LbaToCyl(f, lba) < f.cyls
  {
    var n, c := f.heads * f.sectorsPerTrack, LbaToCyl(f, lba);
    MulNonNegative(f.heads, f.sectorsPerTrack);
    DivIdentity(lba, n);
    if f.cyls < c {
      MulLess(f.cyls, c, n);
    }
  }

  /** Where flop_block_read copies from within the cylinder is where the sector lies on the disk. */
  lemma SectorPlace(f: Format, lba: nat)
    requires FormatOk(f) && lba < SectorCount(f)
    ensures var b := f.sectorBytes;
      var off := LbaToHead(f, lba) * (f.sectorsPerTrack * b) + (LbaToSector(f, lba) - 1) * b;
      && 0 <= off && off + b <= f.CylBytes()
      && LbaToCyl(f, lba) * f.CylBytes() + off == lba * b
  {
    var b, s, h := f.sectorBytes, f.sectorsPerTrack, f.heads;
    var cyl, head, sec := LbaToCyl(f, lba), LbaToHead(f, lba), LbaToSector(f, lba) - 1;
    LbaDigits(f, lba);
    var within := head * s + sec;
    Distribute(head, s, sec, b);
    Distribute(cyl, h * s, within, b);
    assert within * b == head * (s * b) + sec * b;
    MulNonNegative(within, b) by { MulNonNegative(head, s); }
    MulLess(within, h * s, b) by { MulLess(head, h, s); }
  }

  lemma SectorOfCylinder(d: Disk, lba: nat)
    requires DiskOk(d) && lba < SectorCount(d.format)
    ensures var f := d.format;
      var b, c := f.sectorBytes, LbaToCyl(f, lba);
      var off := LbaToHead(f, lba) * (f.sectorsPerTrack * b) + (LbaToSector(f, lba) - 1) * b;
      && c < f.cyls && 0 <= off && off + b <= |Cylinder(d, c)| && 0 <= lba * b && lba * b + b <= |d.bytes|
      && Cylinder(d, c)[off..off + b] == d.bytes[lba * b..lba * b + b]
  {
    var f := d.format;
    CylInRange(f, lba);
    CylinderBounds(f, LbaToCyl(f, lba));
    SectorPlace(f, lba);
  }

  // ---- The driver's state ----

  class Floppy {
    const disks: seq<Disk>
    /** One list per drive, least recently used first; empty while the cache pointer is NULL. */
    var caches: seq<seq<Entry>>
    var dmaBuf: seq<Byte>
    var dmaCyl: int
    var dmaDrv: int

    ghost predicate Valid()
      reads this
    {
      && |disks| == |caches|
      && (forall n :: 0 <= n < |disks| ==> DiskOk(disks[n]) && (caches[n] == [] || CacheOk(disks[n], caches[n])))
      && |dmaBuf| == DMA_BUF_SIZE
      && (dmaCyl >= 0 ==> DmaHolds())
    }

    /** The DMA buffer holds the cylinder that dma_buf_cyl and dma_buf_drv name. */
    ghost predicate DmaHolds()
      reads this
      requires |dmaBuf| == DMA_BUF_SIZE && forall n :: 0 <= n < |disks| ==> DiskOk(disks[n])
    {
      && 0 <= dmaDrv < |disks| && 0 <= dmaCyl < disks[dmaDrv].format.cyls
      && DiskOk(disks[dmaDrv]) && disks[dmaDrv].format.CylBytes() <= |dmaBuf|
      && dmaBuf[..disks[dmaDrv].format.CylBytes()] == Cylinder(disks[dmaDrv], dmaCyl)
    }

    constructor (disks: seq<Disk>, dmaBuf: seq<Byte>)
      requires |dmaBuf| == DMA_BUF_SIZE && forall n :: 0 <= n < |disks| ==> DiskOk(disks[n])
      ensures Valid() && this.disks == disks && forall n :: 0 <= n < |disks| ==> caches[n] == []
    {
      this.disks, this.dmaBuf := disks, dmaBuf;
      caches, dmaCyl, dmaDrv := seq(|disks|, _ => []), -1, -1;
    }

    /** A transfer that succeeds: the DMA buffer becomes that cylinder of that drive. */
    method ReadCyl(drv: nat, cyl: nat)
      requires Valid() && drv < |disks| && cyl < disks[drv].format.cyls
      modifies this`dmaBuf, this`dmaCyl, this`dmaDrv
      ensures Valid() && dmaCyl == cyl && dmaDrv == drv
    {
      CylinderBounds(disks[drv].format, cyl);
      var data := Cylinder(disks[drv], cyl);
      dmaBuf := data + dmaBuf[|data|..];
      dmaCyl, dmaDrv := cyl, drv;
    }

    method CacheInit(drv: nat)
      requires Valid() && drv < |disks|
      modifies this`caches
      ensures Valid() && caches == old(caches)[drv := FreshCache()]
    {
      var es: seq<Entry> := [];
      for i := 0 to CYLINDER_CACHE_CYLS
        invariant |es| == i && forall j :: 0 <= j < i ==> es[j] == Entry(-1, NoData)
      {
        es := es + [Entry(-1, NoData)];
      }
      assert es == FreshCache();
      caches := caches[drv := es];
    }

    /** The cylinder's contents; -EINVAL for a negative number. */
    method CylCacheRead(drv: nat, cyl: int) returns (r: Option<seq<Byte>>)
      requires Valid() && drv < |disks| && cyl < disks[drv].format.cyls
      modifies this
      ensures Valid() && (r.None? <==> cyl < 0)
      ensures cyl < 0 ==> caches == old(caches)
      ensures cyl >= 0 ==>
        && r.value == Cylinder(disks[drv], cyl)
        && caches[drv] == Touch(Opened(old(caches)[drv]), cyl, Cylinder(disks[drv], cyl))
        && forall n :: 0 <= n < |disks| && n != drv ==> caches[n] == old(caches)[n]
    {
      if cyl < 0 {
        return None;
      }
      if caches[drv] == [] {
        CacheInit(drv);
      }
      var data := ReadThrough(drv, cyl);
      r := Some(data);
    }

    /** cyl_cache_read once the drive has a cache. */
    method ReadThrough(drv: nat, cyl: nat) returns (data: seq<Byte>)
      requires Valid() && drv < |disks| && cyl < disks[drv].format.cyls && caches[drv] != []
      modifies this
      ensures Valid() && data == Cylinder(disks[drv], cyl)
      ensures caches == old(caches)[drv := Touch(old(caches)[drv], cyl, Cylinder(disks[drv], cyl))]
    {
      var i := FindRev(caches[drv], cyl);
      if i >= 0 {
        data := Hit(drv, cyl, i);
      } else {
        data := Miss(drv, cyl);
      }
    }

    /** Bring the entry found to the most recently used end. */
    method Hit(drv: nat, cyl: nat, i: nat) returns (data: seq<Byte>)
      requires Valid() && drv < |disks| && cyl < disks[drv].format.cyls && caches[drv] != []
      requires i == Find(caches[drv], cyl)
      modifies this`caches
      ensures Valid() && data == Cylinder(disks[drv], cyl)
      ensures caches == old(caches)[drv := Touch(old(caches)[drv], cyl, Cylinder(disks[drv], cyl))]
    {
      HitKeeps(disks[drv], caches[drv], cyl, i);
      data := caches[drv][i].slot.buf;
      caches := caches[drv := ToEnd(caches[drv], i)];
    }

    /** Reuse the least recently used entry. */
    method Miss(drv: nat, cyl: nat) returns (dst: seq<Byte>)
      requires Valid() && drv < |disks| && cyl < disks[drv].format.cyls && caches[drv] != []
      requires Find(caches[drv], cyl) == -1
      modifies this
      ensures Valid() && dst == Cylinder(disks[drv], cyl)
      ensures caches == old(caches)[drv := Touch(old(caches)[drv], cyl, Cylinder(disks[drv], cyl))]
    {
      TouchKeeps(disks[drv], caches[drv], cyl);
      if cyl != dmaCyl || drv != dmaDrv {
        ReadCyl(drv, cyl);
      }
      dst := dmaBuf[..disks[drv].format.CylBytes()];
      caches := caches[drv := caches[drv][1..] + [Entry(cyl, Held(dst))]];
    }

    /** flop_block_read returns the sector of the plain disk, whatever was cached or purged before. */
    method BlockRead(drv: nat, lba: nat) returns (out: seq<Byte>)
      requires Valid() && drv < |disks| && lba < SectorCount(disks[drv].format)
      modifies this
      ensures Valid()
      ensures var b := disks[drv].format.sectorBytes;
        && 0 <= lba * b && lba * b + b <= |disks[drv].bytes| && out == disks[drv].bytes[lba * b..lba * b + b]
      ensures forall n :: 0 <= n < |disks| && n != drv ==> caches[n] == old(caches)[n]
    {
      var f := disks[drv].format;
      FitsIn16(f, lba);
      var c, h, s := LbaToCyl(f, Low16(lba)), LbaToHead(f, Low16(lba)), LbaToSector(f, Low16(lba)) - 1;
      SectorOfCylinder(disks[drv], lba);
      var buf := CylCacheRead(drv, c);
      var trackBytes := f.sectorsPerTrack * f.sectorBytes;
      var off := h * trackBytes + s * f.sectorBytes;
      out := buf.value[off..off + f.sectorBytes];
    }

    /** mem_purge of one buffer with its callback; the callback's assertion always holds. */
    method Purge(drv: nat, i: nat) returns (purged: bool)
      requires Valid() && drv < |disks| && i < |caches[drv]|
      modifies this`caches
      ensures Valid() && purged == old(caches)[drv][i].slot.Held?
      ensures purged ==> caches == old(caches)[drv := old(caches)[drv][i := Entry(-1, Purged)]]
      ensures !purged ==> caches == old(caches)
    {
      var e := caches[drv][i];
      assert EntryOk(disks[drv], e);
      purged := e.slot.Held?;
      if purged {
        assert e.num >= 0;
        caches := caches[drv := caches[drv][i := Entry(-1, Purged)]];
      }
    }
  }

  /** The list cyl_cache_read works on: a new one if the drive has none yet. */
  function Opened(es: seq<Entry>): (r: seq<Entry>)
    ensures r != []
  {
    if es == [] then FreshCache() else es
  }

  function FreshCache(): (es: seq<Entry>)
    ensures |es| == CYLINDER_CACHE_CYLS && forall i :: 0 <= i < |es| ==> es[i] == Entry(-1, NoData)
  {
    seq(CYLINDER_CACHE_CYLS, _ => Entry(-1, NoData))
  }

  /** The reverse scan of the list. */
  method FindRev(es: seq<Entry>, c: int) returns (i: int)
    ensures i == Find(es, c)
  {
    i := |es| - 1;
    while i >= 0
      invariant -1 <= i < |es| && Find(es[..i + 1], c) == Find(es, c)
    {
      assert es[..i + 1][..i] == es[..i];
      if es[i].num == c && !es[i].slot.NoData? {
        return;
      }
      i := i - 1;
    }
  }
}
