/** A mounted, writable ext4 volume as values: its geometry, the disk as blocks of
    bytes, the cached group-descriptor table, and the superblock's free counter. */
module Volume {
  import opened Bytes
  import opened Arith

  datatype Geometry = Geometry(
    blockSize: nat,
    blocksCount: nat,
    blocksPerGroup: nat,
    groupCount: nat,
    firstDataBlock: nat,
    descSize: nat,
    has64: bool,
    inodesPerGroup: nat,
    inodeSize: nat,
    inodesCount: nat,
    largeFile: bool)
  {
    /** What mounting has established, for a volume without metadata checksums. */
    predicate Ok() {
      && (blockSize == 1024 || blockSize == 2048 || blockSize == 4096 || blockSize == 8192)
      && 0 < blocksPerGroup <= 8 * blockSize && blocksPerGroup < U16
      && firstDataBlock < blocksCount < 0x1_0000_0000_0000
      && 0 < groupCount <= U16
      && groupCount == CeilDiv(blocksCount - firstDataBlock, blocksPerGroup)
      && 32 <= descSize <= 128 && (has64 ==> 64 <= descSize)
      && 128 <= inodeSize <= 256
      && 0 < inodesPerGroup && inodesCount <= Mul(groupCount, inodesPerGroup) < U32
    }

    /** Descriptors per block of the descriptor table. */
    function PerBlock(): (n: nat)
      requires Ok()
      ensures 0 < n && Mul(n, descSize) <= blockSize
    {
      Div(blockSize, descSize)
    }

    /** The disk block holding group `g`'s descriptor. */
    function GdtBlock(g: nat): nat
      requires Ok()
    {
      firstDataBlock + 1 + Div(g, PerBlock())
    }

    /** The byte offset of group `g`'s descriptor in its block. */
    function SlotOff(g: nat): (off: nat)
      requires Ok()
      ensures off + descSize <= blockSize
    {
      SlotsApart(Mod(g, PerBlock()), PerBlock(), descSize);
      Mul(Mod(g, PerBlock()), descSize)
    }

    /** How many bits of group `g`'s bitmap stand for blocks; the last group may be short. */
    function GroupBits(g: nat): (n: nat)
      requires Ok() && g < groupCount
      ensures 0 < n <= blocksPerGroup
    {
      if g == groupCount - 1 then blocksCount - firstDataBlock - Mul(g, blocksPerGroup) else blocksPerGroup
    }

    function BlkOf(g: nat, i: nat): nat {
      firstDataBlock + Mul(g, blocksPerGroup) + i
    }

    function GroupOf(b: nat): (g: nat)
      requires Ok() && firstDataBlock <= b < blocksCount
      ensures g < groupCount
    {
      DivBound(b - firstDataBlock, groupCount, blocksPerGroup);
      Div(b - firstDataBlock, blocksPerGroup)
    }

    /** The position of block `b` in its group; together with the group it names the block. */
    function IndexOf(b: nat): (i: nat)
      requires Ok() && firstDataBlock <= b < blocksCount
      ensures i < GroupBits(GroupOf(b)) && BlkOf(GroupOf(b), i) == b
    {
      Mod(b - firstDataBlock, blocksPerGroup)
    }

    /** Blocks of one group's inode table. */
    function TableLen(): nat
      requires Ok()
    {
      CeilDiv(Mul(inodesPerGroup, inodeSize), blockSize)
    }

    lemma BlkOfInverts(g: nat, i: nat)
      requires Ok() && g < groupCount && i < GroupBits(g)
      ensures firstDataBlock <= BlkOf(g, i) < blocksCount
      ensures GroupOf(BlkOf(g, i)) == g && IndexOf(BlkOf(g, i)) == i
    {
      if g < groupCount - 1 {
        SlotsApart(g, groupCount - 1, blocksPerGroup);
      }
      DivModUnique(g, i, blocksPerGroup);
    }
  }

  /** Blocks are numbered through the groups, from the first data block on. */
  lemma BlkLayout(geo: Geometry, g: nat, i: nat)
    ensures geo.BlkOf(0, 0) == geo.firstDataBlock && geo.BlkOf(g, i + 1) == geo.BlkOf(g, i) + 1
    ensures geo.BlkOf(g + 1, i) == geo.BlkOf(g, i) + geo.blocksPerGroup
  {
    MulNext(g, geo.blocksPerGroup);
  }

  /** Descriptors lie end to end in the blocks behind the superblock's, as many to a block as fit. */
  lemma DescLayout(geo: Geometry, q: nat, r: nat)
    requires geo.Ok() && r < geo.PerBlock()
    ensures var g := Mul(q, geo.PerBlock()) + r;
      geo.GdtBlock(g) == geo.firstDataBlock + 1 + q && geo.SlotOff(g) == Mul(r, geo.descSize)
    ensures geo.blockSize < Mul(geo.PerBlock() + 1, geo.descSize)
  {
    hide Mul, Div, Mod;
    DivModUnique(q, r, geo.PerBlock());
    MulNext(geo.PerBlock(), geo.descSize);
  }

  // ---------------- group descriptors ----------------

  /** Where a group keeps its block bitmap, its inode bitmap and its inode table. */
  datatype Loc = Loc(bitmap: nat, inodeBitmap: nat, table: nat)

  function LocOf(geo: Geometry, gd: seq<Byte>): Loc
    requires geo.Ok() && |gd| == geo.descSize
  {
    Loc(Get32(gd, 0) + (if geo.has64 then U32 * Get32(gd, 32) else 0),
        Get32(gd, 4) + (if geo.has64 then U32 * Get32(gd, 36) else 0),
        Get32(gd, 8) + (if geo.has64 then U32 * Get32(gd, 40) else 0))
  }

  /** The block numbers as the format stores them: low words first, high words from byte 32 on. */
  function StoreLoc(geo: Geometry, gd: seq<Byte>, loc: Loc): (r: seq<Byte>)
    requires geo.Ok() && |gd| == geo.descSize && loc.bitmap < U32 * U32 && loc.inodeBitmap < U32 * U32 && loc.table < U32 * U32
    ensures |r| == |gd|
  {
    var low := Put32(Put32(Put32(gd, 0, loc.bitmap % U32), 4, loc.inodeBitmap % U32), 8, loc.table % U32);
    if geo.has64 then Put32(Put32(Put32(low, 32, loc.bitmap / U32), 36, loc.inodeBitmap / U32), 40, loc.table / U32) else low
  }

  /** A descriptor's block numbers read back as stored, in 64 bits or in 32. */
  lemma LocStored(geo: Geometry, gd: seq<Byte>, loc: Loc)
    requires geo.Ok() && |gd| == geo.descSize && loc.bitmap < U32 * U32 && loc.inodeBitmap < U32 * U32 && loc.table < U32 * U32
    ensures LocOf(geo, StoreLoc(geo, gd, loc))
         == if geo.has64 then loc else Loc(loc.bitmap % U32, loc.inodeBitmap % U32, loc.table % U32)
  {
    hide Put32;
    var a := Put32(gd, 0, loc.bitmap % U32);
    var b := Put32(a, 4, loc.inodeBitmap % U32);
    var low := Put32(b, 8, loc.table % U32);
    assert Get32(low, 0) == Get32(a, 0) && Get32(low, 4) == Get32(b, 4);
    if geo.has64 {
      var c := Put32(low, 32, loc.bitmap / U32);
      var d := Put32(c, 36, loc.inodeBitmap / U32);
      var r := Put32(d, 40, loc.table / U32);
      assert Get32(r, 0) == Get32(low, 0) && Get32(r, 4) == Get32(low, 4) && Get32(r, 8) == Get32(low, 8);
      assert Get32(r, 32) == Get32(c, 32) && Get32(r, 36) == Get32(d, 36);
    }
  }

  function FreeCount(gd: seq<Byte>): nat
    requires 32 <= |gd|
  {
    Get16(gd, 12)
  }

  function Clamp(n: int): nat { if n < 0 then 0 else n }

  /** The descriptor half of adjust_free_blocks. */
  function AdjustDesc(geo: Geometry, gd: seq<Byte>, delta: int): (r: seq<Byte>)
    requires geo.Ok() && |gd| == geo.descSize
    ensures |r| == |gd|
    ensures LocOf(geo, r) == LocOf(geo, gd)
    ensures 0 <= FreeCount(gd) + delta < U16 ==> FreeCount(r) == FreeCount(gd) + delta
  {
    var n := Clamp(FreeCount(gd) + delta);
    var lo := Put16(gd, 12, n % U16);
    if geo.has64 then Put16(lo, 44, n / U16 % U16) else lo
  }

  /** Byte `j` of a descriptor belongs to its free-block count. */
  predicate CountByte(geo: Geometry, j: int) {
    12 <= j < 14 || (geo.has64 && 44 <= j < 46)
  }

  /** Two versions of a descriptor that differ in the free-block count at most. */
  predicate DescKept(geo: Geometry, a: seq<Byte>, b: seq<Byte>) {
    |a| == |b| && forall j :: 0 <= j < |a| && !CountByte(geo, j) ==> a[j] == b[j]
  }

  lemma AdjustDescKeeps(geo: Geometry, gd: seq<Byte>, delta: int)
    requires geo.Ok() && |gd| == geo.descSize
    ensures var r := AdjustDesc(geo, gd, delta);
      && DescKept(geo, gd, r)
      && (geo.has64 && 0 <= FreeCount(gd) + delta < U16 ==> FreeCount(r) == FreeCount(gd) + delta && Get16(r, 44) == 0)
  {
    hide Put16;
  }

  // ---------------- the volume ----------------

  datatype Vol = Vol(disk: seq<Block>, gdt: seq<seq<Byte>>, sbFreeLo: nat, sbFreeHi: nat)

  function SbFree(v: Vol): nat { v.sbFreeLo + U32 * v.sbFreeHi }

  predicate Shape(geo: Geometry, v: Vol) {
    && geo.Ok()
    && DiskOk(geo, v.disk)
    && |v.gdt| == geo.groupCount && (forall g :: 0 <= g < |v.gdt| ==> |v.gdt[g]| == geo.descSize)
    && v.sbFreeLo < U32 && v.sbFreeHi < U32
    && LocsOk(geo, Locs(geo, v.gdt))
  }

  predicate DiskOk(geo: Geometry, disk: seq<Block>) {
    IsDisk(disk, geo.blocksCount, geo.blockSize)
  }

  function Locs(geo: Geometry, gdt: seq<seq<Byte>>): (r: seq<Loc>)
    requires geo.Ok() && forall g :: 0 <= g < |gdt| ==> |gdt[g]| == geo.descSize
    ensures |r| == |gdt| && forall g :: 0 <= g < |gdt| ==> r[g] == LocOf(geo, gdt[g])
  {
    seq(|gdt|, g requires 0 <= g < |gdt| => LocOf(geo, gdt[g]))
  }

  lemma ShapeDiskOk(geo: Geometry, v: Vol)
    requires Shape(geo, v)
    ensures DiskOk(geo, v.disk)
  {
  }

  // ---------------- where the metadata lives ----------------

  /** The blocks of group `g`'s inode table. */
  predicate InTable(geo: Geometry, loc: Loc, b: nat)
    requires geo.Ok()
  {
    loc.table <= b < loc.table + geo.TableLen()
  }

  ghost predicate IsTable(geo: Geometry, locs: seq<Loc>, b: nat)
    requires geo.Ok()
  {
    exists g :: 0 <= g < |locs| && InTable(geo, locs[g], b)
  }

  ghost predicate IsBitmap(locs: seq<Loc>, b: nat) {
    exists g :: 0 <= g < |locs| && locs[g].bitmap == b
  }

  ghost predicate IsGdt(geo: Geometry, b: nat)
    requires geo.Ok()
  {
    geo.GdtBlock(0) <= b <= geo.GdtBlock(geo.groupCount - 1)
  }

  /** The blocks the allocator itself writes. */
  ghost predicate AllocMeta(geo: Geometry, locs: seq<Loc>, b: nat)
    requires geo.Ok()
  {
    IsGdt(geo, b) || IsBitmap(locs, b)
  }

  ghost predicate IsInodeBitmap(locs: seq<Loc>, b: nat) {
    exists g :: 0 <= g < |locs| && locs[g].inodeBitmap == b
  }

  /** Blocks that never hold file contents: the boot block, the superblock's block, descriptors,
      bitmaps and inode tables. */
  ghost predicate Meta(geo: Geometry, locs: seq<Loc>, b: nat)
    requires geo.Ok()
  {
    b == 0 || b == SuperBlockAt(geo.blockSize) || AllocMeta(geo, locs, b) || IsInodeBitmap(locs, b) || IsTable(geo, locs, b)
  }

  /** Descriptors, bitmaps and inode tables lie on the disk and apart from each other. */
  predicate LocsOk(geo: Geometry, locs: seq<Loc>)
    requires geo.Ok()
  {
    && |locs| == geo.groupCount
    && geo.GdtBlock(geo.groupCount - 1) < geo.blocksCount
    && (forall g :: 0 <= g < |locs| ==> LocOk(geo, locs[g]))
    && (forall g, h :: 0 <= g < |locs| && 0 <= h < |locs| ==> !InTable(geo, locs[g], locs[h].bitmap))
    && (forall g, h :: 0 <= g < h < |locs| ==> LocsApart(geo, locs[g], locs[h]))
  }

  predicate LocOk(geo: Geometry, a: Loc)
    requires geo.Ok()
  {
    && a.bitmap < geo.blocksCount
    && a.table + geo.TableLen() <= geo.blocksCount
    && !(geo.GdtBlock(0) <= a.bitmap <= geo.GdtBlock(geo.groupCount - 1))
    && (a.table + geo.TableLen() <= geo.GdtBlock(0) || geo.GdtBlock(geo.groupCount - 1) < a.table)
  }

  predicate LocsApart(geo: Geometry, a: Loc, b: Loc)
    requires geo.Ok()
  {
    && a.bitmap != b.bitmap
    && (a.table + geo.TableLen() <= b.table || b.table + geo.TableLen() <= a.table)
  }

  lemma GdtBlockBound(geo: Geometry, g: nat)
    requires geo.Ok() && g < geo.groupCount
    ensures IsGdt(geo, geo.GdtBlock(g))
  {
    DivMono(0, g, geo.PerBlock());
    DivMono(g, geo.groupCount - 1, geo.PerBlock());
  }

  lemma TableApartFromAllocMeta(geo: Geometry, locs: seq<Loc>, b: nat)
    requires geo.Ok() && LocsOk(geo, locs) && IsTable(geo, locs, b)
    ensures !AllocMeta(geo, locs, b) && b < geo.blocksCount
  {
  }

  // ---------------- allocation bits ----------------

  /** The bit of block `b` is set. */
  predicate Used(geo: Geometry, locs: seq<Loc>, disk: seq<Block>, b: nat)
    requires geo.Ok() && DiskOk(geo, disk) && LocsOk(geo, locs)
    requires geo.firstDataBlock <= b < geo.blocksCount
  {
    BitAt(disk[locs[geo.GroupOf(b)].bitmap], geo.IndexOf(b))
  }

  ghost function FreeIn(geo: Geometry, locs: seq<Loc>, disk: seq<Block>): set<nat>
    requires geo.Ok() && DiskOk(geo, disk) && LocsOk(geo, locs)
  {
    set b | geo.firstDataBlock <= b < geo.blocksCount && !Used(geo, locs, disk, b)
  }

  /** The abstract state of the allocator: which blocks are free. */
  ghost function FreeSet(geo: Geometry, v: Vol): set<nat>
    requires Shape(geo, v)
  {
    FreeIn(geo, Locs(geo, v.gdt), v.disk)
  }

  /** The blocks of group `g` whose bit is clear. */
  function GroupFree(geo: Geometry, locs: seq<Loc>, disk: seq<Block>, g: nat): nat
    requires geo.Ok() && DiskOk(geo, disk) && LocsOk(geo, locs) && g < geo.groupCount
  {
    ClearCount(disk[locs[g].bitmap], geo.GroupBits(g))
  }

  function SumFree(geo: Geometry, locs: seq<Loc>, disk: seq<Block>, n: nat): nat
    requires geo.Ok() && DiskOk(geo, disk) && LocsOk(geo, locs) && n <= geo.groupCount
  {
    if n == 0 then 0 else SumFree(geo, locs, disk, n - 1) + GroupFree(geo, locs, disk, n - 1)
  }

  // ---------------- the invariant ----------------

  function Slot(geo: Geometry, disk: seq<Block>, g: nat): (s: seq<Byte>)
    requires geo.Ok() && DiskOk(geo, disk) && g < geo.groupCount && geo.GdtBlock(g) < |disk|
  {
    disk[geo.GdtBlock(g)][geo.SlotOff(g)..geo.SlotOff(g) + geo.descSize]
  }

  /** The descriptor of group `g` on disk is the cached one. */
  predicate InSync(geo: Geometry, disk: seq<Block>, g: nat, gd: seq<Byte>)
    requires geo.Ok() && DiskOk(geo, disk) && g < geo.groupCount
  {
    geo.GdtBlock(g) < |disk| && Slot(geo, disk, g) == gd
  }

  ghost predicate Synced(geo: Geometry, v: Vol)
    requires Shape(geo, v)
  {
    forall g :: 0 <= g < |v.gdt| ==> InSync(geo, v.disk, g, v.gdt[g])
  }

  /** Byte `j` of block `b` belongs to the free-block count of some group. */
  ghost predicate CountByteAt(geo: Geometry, b: nat, j: nat)
    requires geo.Ok()
  {
    exists g :: 0 <= g < geo.groupCount && geo.GdtBlock(g) == b && CountByte(geo, j - geo.SlotOff(g))
  }

  /** Of all descriptors, cached and on disk, only free-block counts differ. */
  ghost predicate DescriptorsKept(geo: Geometry, v: Vol, r: Vol)
    requires Shape(geo, v) && Shape(geo, r)
  {
    && (forall g :: 0 <= g < |v.gdt| ==> DescKept(geo, v.gdt[g], r.gdt[g]))
    && (forall b, j :: 0 <= b < |v.disk| && 0 <= j < geo.blockSize && IsGdt(geo, b) && !CountByteAt(geo, b, j) ==>
          r.disk[b][j] == v.disk[b][j])
  }

  lemma DescriptorsTwice(geo: Geometry, u: Vol, v: Vol, w: Vol)
    requires Shape(geo, u) && Shape(geo, v) && Shape(geo, w) && DescriptorsKept(geo, u, v) && DescriptorsKept(geo, v, w)
    ensures DescriptorsKept(geo, u, w)
  {
    hide LocsOk, IsGdt, CountByteAt, CountByte;
  }

  /** Every group's counter, and the superblock's, equals the clear bits it stands for. */
  ghost predicate Counted(geo: Geometry, v: Vol)
    requires Shape(geo, v)
  {
    var locs := Locs(geo, v.gdt);
    && (forall g :: 0 <= g < |v.gdt| ==> FreeCount(v.gdt[g]) == GroupFree(geo, locs, v.disk, g))
    && SbFree(v) == SumFree(geo, locs, v.disk, geo.groupCount)
  }

  /** No metadata block is free. */
  ghost predicate MetaUsed(geo: Geometry, v: Vol)
    requires Shape(geo, v)
  {
    forall b :: b in FreeSet(geo, v) ==> !Meta(geo, Locs(geo, v.gdt), b)
  }

  ghost predicate Valid(geo: Geometry, v: Vol) {
    Shape(geo, v) && MetaUsed(geo, v) && Synced(geo, v) && Counted(geo, v)
  }
}
