/** Block allocation on a volume: one bit flipped, both counters moved, the descriptor
    written through to disk. */
module Allocator {
  import opened Bytes
  import opened Arith
  import opened Volume

  /** Writing the cached descriptor of group `g` back to its slot on disk. */
  function SyncGd(geo: Geometry, disk: seq<Block>, g: nat, gd: seq<Byte>): (r: seq<Block>)
    requires geo.Ok() && DiskOk(geo, disk) && g < geo.groupCount && geo.GdtBlock(g) < |disk|
    requires |gd| == geo.descSize
    ensures DiskOk(geo, r)
  {
    var b := geo.GdtBlock(g);
    disk[b := Patch(disk[b], geo.SlotOff(g), gd)]
  }

  /** The superblock half of adjust_free_blocks. */
  function AdjustSuper(v: Vol, delta: int): (r: Vol)
    ensures r.disk == v.disk && r.gdt == v.gdt
    ensures r.sbFreeLo < U32 && r.sbFreeHi < U32
    ensures 0 <= SbFree(v) + delta < U32 * U32 ==> SbFree(r) == SbFree(v) + delta
  {
    var total := Clamp(SbFree(v) + delta);
    v.(sbFreeLo := total % U32, sbFreeHi := total / U32 % U32)
  }

  lemma AdjustKeepsLocs(geo: Geometry, gdt: seq<seq<Byte>>, g: nat, delta: int)
    requires geo.Ok() && g < |gdt| && forall h :: 0 <= h < |gdt| ==> |gdt[h]| == geo.descSize
    ensures Locs(geo, gdt[g := AdjustDesc(geo, gdt[g], delta)]) == Locs(geo, gdt)
  {
  }

  /** Marking bit `i` of group `g`: bitmap, both counters, and the descriptor on disk. */
  function Flip(geo: Geometry, v: Vol, g: nat, i: nat, on: bool): (r: Vol)
    requires Shape(geo, v) && g < geo.groupCount && i < geo.GroupBits(g)
    ensures Shape(geo, r) && Locs(geo, r.gdt) == Locs(geo, v.gdt)
  {
    var delta := if on then -1 else 1;
    var gd := AdjustDesc(geo, v.gdt[g], delta);
    AdjustKeepsLocs(geo, v.gdt, g, delta);
    GdtBlockBound(geo, g);
    var bb := LocOf(geo, v.gdt[g]).bitmap;
    var disk := SyncGd(geo, v.disk, g, gd);
    var w := AdjustSuper(v, delta);
    Vol(disk[bb := SetBitAt(v.disk[bb], i, on)], v.gdt[g := gd], w.sbFreeLo, w.sbFreeHi)
  }

  /** Only the group's descriptor block and its bitmap are written. */
  lemma FlipDisk(geo: Geometry, v: Vol, g: nat, i: nat, on: bool)
    requires Shape(geo, v) && g < geo.groupCount && i < geo.GroupBits(g)
    ensures var d := Flip(geo, v, g, i, on).disk; var locs := Locs(geo, v.gdt);
      && d[locs[g].bitmap] == SetBitAt(v.disk[locs[g].bitmap], i, on)
      && (forall b :: 0 <= b < |v.disk| && b != geo.GdtBlock(g) && b != locs[g].bitmap ==> d[b] == v.disk[b])
      && (forall h :: 0 <= h < |locs| && h != g ==> d[locs[h].bitmap] == v.disk[locs[h].bitmap])
  {
    GdtBlockBound(geo, g);
    var locs := Locs(geo, v.gdt);
    assert LocOk(geo, locs[g]);
    forall h | 0 <= h < |locs| && h != g
      ensures locs[h].bitmap != locs[g].bitmap && locs[h].bitmap != geo.GdtBlock(g)
    {
      assert LocOk(geo, locs[h]);
      assert LocsApart(geo, locs[if g < h then g else h], locs[if g < h then h else g]);
    }
  }

  /** The free set gains or loses exactly the block the bit stands for. */
  lemma FlipFreeSet(geo: Geometry, v: Vol, g: nat, i: nat, on: bool)
    requires Shape(geo, v) && g < geo.groupCount && i < geo.GroupBits(g)
    ensures var r := Flip(geo, v, g, i, on); var b := geo.BlkOf(g, i);
      FreeSet(geo, r) == if on then FreeSet(geo, v) - {b} else FreeSet(geo, v) + {b}
  {
    hide Flip;
    var r := Flip(geo, v, g, i, on);
    var locs := Locs(geo, v.gdt);
    FlipDisk(geo, v, g, i, on);
    geo.BlkOfInverts(g, i);
    SetBitAtReads(v.disk[locs[g].bitmap], i, on);
    forall b | geo.firstDataBlock <= b < geo.blocksCount
      ensures Used(geo, locs, r.disk, b) == if b == geo.BlkOf(g, i) then on else Used(geo, locs, v.disk, b)
    {
      if geo.GroupOf(b) == g {
        assert b == geo.BlkOf(g, geo.IndexOf(b));
      }
    }
  }

  lemma DifferentSlots(geo: Geometry, g: nat, h: nat)
    requires geo.Ok() && g != h && geo.GdtBlock(g) == geo.GdtBlock(h)
    ensures geo.SlotOff(h) + geo.descSize <= geo.SlotOff(g) || geo.SlotOff(g) + geo.descSize <= geo.SlotOff(h)
  {
    var a, b := Mod(g, geo.PerBlock()), Mod(h, geo.PerBlock());
    SlotsApart(if a < b then a else b, if a < b then b else a, geo.descSize);
  }

  /** Syncing one descriptor leaves every other group's slot as it was. */
  lemma SyncGdSlots(geo: Geometry, disk: seq<Block>, g: nat, gd: seq<Byte>, h: nat)
    requires geo.Ok() && DiskOk(geo, disk) && g < geo.groupCount && h < geo.groupCount
    requires geo.GdtBlock(g) < |disk| && geo.GdtBlock(h) < |disk| && |gd| == geo.descSize
    ensures Slot(geo, SyncGd(geo, disk, g, gd), h) == if h == g then gd else Slot(geo, disk, h)
  {
    if h != g && geo.GdtBlock(g) == geo.GdtBlock(h) {
      DifferentSlots(geo, g, h);
    }
  }

  lemma FlipSynced(geo: Geometry, v: Vol, g: nat, i: nat, on: bool)
    requires Shape(geo, v) && Synced(geo, v) && g < geo.groupCount && i < geo.GroupBits(g)
    ensures Synced(geo, Flip(geo, v, g, i, on))
  {
    var r := Flip(geo, v, g, i, on);
    var bb := Locs(geo, v.gdt)[g].bitmap;
    assert LocOk(geo, Locs(geo, v.gdt)[g]);
    GdtBlockBound(geo, g);
    forall h | 0 <= h < |r.gdt|
      ensures InSync(geo, r.disk, h, r.gdt[h])
    {
      GdtBlockBound(geo, h);
      SyncGdSlots(geo, v.disk, g, r.gdt[g], h);
      assert InSync(geo, v.disk, h, v.gdt[h]);
      assert geo.GdtBlock(h) != bb;
    }
  }

  /** The bytes on disk a flip can change: one of the bitmap, and the group's free-block count. */
  lemma FlipBytes(geo: Geometry, v: Vol, g: nat, i: nat, on: bool, b: nat, j: nat)
    requires Shape(geo, v) && g < geo.groupCount && i < geo.GroupBits(g) && b < |v.disk| && j < geo.blockSize
    requires InSync(geo, v.disk, g, v.gdt[g])
    ensures var r := Flip(geo, v, g, i, on);
      || r.disk[b][j] == v.disk[b][j]
      || (b == Locs(geo, v.gdt)[g].bitmap && j == i / 8)
      || (b == geo.GdtBlock(g) && CountByte(geo, j - geo.SlotOff(g)))
  {
    hide AdjustDesc, LocsOk, WithBit;
    GdtBlockBound(geo, g);
    var gd := AdjustDesc(geo, v.gdt[g], if on then -1 else 1);
    AdjustDescKeeps(geo, v.gdt[g], if on then -1 else 1);
    if b == geo.GdtBlock(g) && geo.SlotOff(g) <= j < geo.SlotOff(g) + geo.descSize {
      var k := j - geo.SlotOff(g);
      assert Slot(geo, v.disk, g)[k] == v.disk[b][j] && Slot(geo, SyncGd(geo, v.disk, g, gd), g)[k] == gd[k];
    }
  }

  /** A flip changes no descriptor but for free-block counts, and no cached one but its own group's. */
  lemma FlipDescriptors(geo: Geometry, v: Vol, g: nat, i: nat, on: bool)
    requires Shape(geo, v) && Synced(geo, v) && g < geo.groupCount && i < geo.GroupBits(g)
    ensures DescriptorsKept(geo, v, Flip(geo, v, g, i, on))
    ensures forall h :: 0 <= h < |v.gdt| && h != g ==> Flip(geo, v, g, i, on).gdt[h] == v.gdt[h]
  {
    hide AdjustDesc, SyncGd, SetBitAt;
    AdjustDescKeeps(geo, v.gdt[g], if on then -1 else 1);
    var r := Flip(geo, v, g, i, on);
    assert LocOk(geo, Locs(geo, v.gdt)[g]);
    forall b, j | 0 <= b < |v.disk| && 0 <= j < geo.blockSize && IsGdt(geo, b) && !CountByteAt(geo, b, j)
      ensures r.disk[b][j] == v.disk[b][j]
    {
      FlipBytes(geo, v, g, i, on, b, j);
    }
  }

  lemma {:induction false} SumFreeSame(geo: Geometry, locs: seq<Loc>, a: seq<Block>, b: seq<Block>, n: nat)
    requires geo.Ok() && DiskOk(geo, a) && DiskOk(geo, b) && LocsOk(geo, locs) && n <= geo.groupCount
    requires forall h :: 0 <= h < n ==> a[locs[h].bitmap] == b[locs[h].bitmap]
    ensures SumFree(geo, locs, a, n) == SumFree(geo, locs, b, n)
  {
    if n > 0 {
      SumFreeSame(geo, locs, a, b, n - 1);
    }
  }

  lemma {:induction false} SumFreeBound(geo: Geometry, locs: seq<Loc>, disk: seq<Block>, n: nat)
    requires geo.Ok() && DiskOk(geo, disk) && LocsOk(geo, locs) && n <= geo.groupCount
    ensures SumFree(geo, locs, disk, n) <= U16 * n
  {
    if n > 0 {
      SumFreeBound(geo, locs, disk, n - 1);
    }
  }

  /** One group's count moves by `delta` and the others stand: so does their sum. */
  lemma {:induction false} SumFreeMoves(geo: Geometry, locs: seq<Loc>, a: seq<Block>, b: seq<Block>, n: nat,
                                        g: nat, delta: int)
    requires geo.Ok() && DiskOk(geo, a) && DiskOk(geo, b) && LocsOk(geo, locs) && g < n <= geo.groupCount
    requires forall h :: 0 <= h < |locs| && h != g ==> a[locs[h].bitmap] == b[locs[h].bitmap]
    requires GroupFree(geo, locs, b, g) == GroupFree(geo, locs, a, g) + delta
    ensures SumFree(geo, locs, b, n) == SumFree(geo, locs, a, n) + delta
  {
    if g == n - 1 {
      SumFreeSame(geo, locs, a, b, n - 1);
    } else {
      SumFreeMoves(geo, locs, a, b, n - 1, g, delta);
    }
  }

  lemma FlipGroup(geo: Geometry, v: Vol, g: nat, i: nat, on: bool)
    requires Shape(geo, v) && g < geo.groupCount && i < geo.GroupBits(g)
    requires BitAt(v.disk[Locs(geo, v.gdt)[g].bitmap], i) != on
    ensures GroupFree(geo, Locs(geo, v.gdt), Flip(geo, v, g, i, on).disk, g)
         == GroupFree(geo, Locs(geo, v.gdt), v.disk, g) + (if on then -1 else 1)
  {
    FlipDisk(geo, v, g, i, on);
    ClearCountFlip(v.disk[Locs(geo, v.gdt)[g].bitmap], geo.GroupBits(g), i, on);
  }

  lemma FlipGroupCounters(geo: Geometry, v: Vol, g: nat, i: nat, on: bool, h: nat)
    requires Shape(geo, v) && Counted(geo, v) && g < geo.groupCount && i < geo.GroupBits(g)
    requires BitAt(v.disk[Locs(geo, v.gdt)[g].bitmap], i) != on && h < geo.groupCount
    ensures var r := Flip(geo, v, g, i, on);
      FreeCount(r.gdt[h]) == GroupFree(geo, Locs(geo, v.gdt), r.disk, h)
  {
    if h == g {
      FlipGroup(geo, v, g, i, on);
    } else {
      FlipDisk(geo, v, g, i, on);
    }
    assert FreeCount(v.gdt[h]) == GroupFree(geo, Locs(geo, v.gdt), v.disk, h);
  }

  lemma FlipSuper(geo: Geometry, v: Vol, g: nat, i: nat, on: bool)
    requires Shape(geo, v) && g < geo.groupCount && i < geo.GroupBits(g)
    requires 0 <= SbFree(v) + (if on then -1 else 1) < U32 * U32
    ensures SbFree(Flip(geo, v, g, i, on)) == SbFree(v) + (if on then -1 else 1)
    ensures |Flip(geo, v, g, i, on).gdt| == |v.gdt|
  {
  }

  lemma FlipCounted(geo: Geometry, v: Vol, g: nat, i: nat, on: bool)
    requires Shape(geo, v) && Counted(geo, v) && g < geo.groupCount && i < geo.GroupBits(g)
    requires BitAt(v.disk[Locs(geo, v.gdt)[g].bitmap], i) != on
    ensures Counted(geo, Flip(geo, v, g, i, on))
  {
    hide Flip, GroupFree, SumFree;
    var r := Flip(geo, v, g, i, on);
    var locs := Locs(geo, v.gdt);
    FlipDisk(geo, v, g, i, on);
    FlipGroup(geo, v, g, i, on);
    SumFreeMoves(geo, locs, v.disk, r.disk, geo.groupCount, g, if on then -1 else 1);
    SumFreeBound(geo, locs, v.disk, geo.groupCount);
    FlipSuper(geo, v, g, i, on);
    hide SbFree;
    forall h | 0 <= h < |r.gdt|
      ensures FreeCount(r.gdt[h]) == GroupFree(geo, locs, r.disk, h)
    {
      FlipGroupCounters(geo, v, g, i, on, h);
    }
  }

  /** Flipping a bit the other way, of a block that is not metadata, keeps the volume valid. */
  lemma FlipValid(geo: Geometry, v: Vol, g: nat, i: nat, on: bool)
    requires Valid(geo, v) && g < geo.groupCount && i < geo.GroupBits(g)
    requires BitAt(v.disk[Locs(geo, v.gdt)[g].bitmap], i) != on
    requires on || !Meta(geo, Locs(geo, v.gdt), geo.BlkOf(g, i))
    ensures Valid(geo, Flip(geo, v, g, i, on))
  {
    FlipFreeSet(geo, v, g, i, on);
    FlipSynced(geo, v, g, i, on);
    FlipCounted(geo, v, g, i, on);
  }

  // ---------------- writing file contents ----------------

  function WriteBlock(v: Vol, b: nat, data: Block): (r: Vol)
    requires b < |v.disk|
  {
    v.(disk := v.disk[b := data])
  }

  lemma WriteBlockFreeSet(geo: Geometry, v: Vol, b: nat, data: Block)
    requires Shape(geo, v) && b < geo.blocksCount && |data| == geo.blockSize
    requires !IsBitmap(Locs(geo, v.gdt), b)
    ensures FreeSet(geo, WriteBlock(v, b, data)) == FreeSet(geo, v)
  {
    var locs := Locs(geo, v.gdt);
    forall x | geo.firstDataBlock <= x < geo.blocksCount
      ensures Used(geo, locs, v.disk[b := data], x) == Used(geo, locs, v.disk, x)
    {
      assert locs[geo.GroupOf(x)].bitmap != b;
    }
  }

  lemma WriteBlockSynced(geo: Geometry, v: Vol, b: nat, data: Block)
    requires Shape(geo, v) && Synced(geo, v) && b < geo.blocksCount && |data| == geo.blockSize
    requires !IsGdt(geo, b)
    ensures Synced(geo, WriteBlock(v, b, data))
  {
    var r := WriteBlock(v, b, data);
    forall h | 0 <= h < |r.gdt|
      ensures InSync(geo, r.disk, h, r.gdt[h])
    {
      GdtBlockBound(geo, h);
      assert InSync(geo, v.disk, h, v.gdt[h]);
    }
  }

  lemma WriteBlockCounted(geo: Geometry, v: Vol, b: nat, data: Block)
    requires Shape(geo, v) && Counted(geo, v) && b < geo.blocksCount && |data| == geo.blockSize
    requires !IsBitmap(Locs(geo, v.gdt), b)
    ensures Counted(geo, WriteBlock(v, b, data))
  {
    var r := WriteBlock(v, b, data);
    var locs := Locs(geo, v.gdt);
    SumFreeSame(geo, locs, v.disk, r.disk, geo.groupCount);
    forall h | 0 <= h < |r.gdt|
      ensures FreeCount(r.gdt[h]) == GroupFree(geo, locs, r.disk, h)
    {
      assert FreeCount(v.gdt[h]) == GroupFree(geo, locs, v.disk, h);
    }
  }

  /** Writing a block the allocator does not own changes nothing it keeps track of. */
  lemma WriteBlockValid(geo: Geometry, v: Vol, b: nat, data: Block)
    requires Valid(geo, v) && b < geo.blocksCount && |data| == geo.blockSize
    requires !AllocMeta(geo, Locs(geo, v.gdt), b)
    ensures Valid(geo, WriteBlock(v, b, data))
    ensures FreeSet(geo, WriteBlock(v, b, data)) == FreeSet(geo, v)
  {
    WriteBlockFreeSet(geo, v, b, data);
    WriteBlockSynced(geo, v, b, data);
    WriteBlockCounted(geo, v, b, data);
  }
}
