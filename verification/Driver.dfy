/** The mounted driver: the global record `e4` with its cached descriptors, the shared
    scratch buffers, and the operations of fs/ext4_core.c that update them in place. */
module Driver {
  import opened Bytes
  import opened Arith
  import opened Volume
  import opened Allocator

  /** The group tried in round `k`: the sum is taken in 32 bits before it is reduced. */
  function Visit(geo: Geometry, hint: nat, k: nat): (g: nat)
    requires geo.Ok()
    ensures g < geo.groupCount
  {
    Mod((hint + k) % U32, geo.groupCount)
  }

  ghost predicate SetBelow(bm: Block, n: nat)
    requires n <= 8 * |bm|
  {
    forall i :: 0 <= i < n ==> BitAt(bm, i)
  }

  /** Every block of group `g` is in use. */
  ghost predicate GroupFull(geo: Geometry, v: Vol, g: nat)
    requires Shape(geo, v) && g < geo.groupCount
  {
    SetBelow(v.disk[Locs(geo, v.gdt)[g].bitmap], geo.GroupBits(g))
  }

  ghost predicate AllFullBefore(geo: Geometry, v: Vol, hint: nat, k: nat)
    requires Shape(geo, v)
  {
    forall j :: 0 <= j < k ==> GroupFull(geo, v, Visit(geo, hint, j))
  }

  /** Bit `i` of the group of round `k` is the first clear bit in search order. */
  ghost predicate FirstClear(geo: Geometry, v: Vol, hint: nat, k: nat, i: nat)
    requires Shape(geo, v)
  {
    var g := Visit(geo, hint, k);
    && k < geo.groupCount && i < geo.GroupBits(g)
    && AllFullBefore(geo, v, hint, k)
    && SetBelow(v.disk[Locs(geo, v.gdt)[g].bitmap], i)
    && !BitAt(v.disk[Locs(geo, v.gdt)[g].bitmap], i)
  }

  /** Taking bit `i` of group `g`: the bit is set and the block it stands for zeroed. */
  function Take(geo: Geometry, v: Vol, g: nat, i: nat): (r: Vol)
    requires Shape(geo, v) && g < geo.groupCount && i < geo.GroupBits(g)
  {
    geo.BlkOfInverts(g, i);
    WriteBlock(Flip(geo, v, g, i, true), geo.BlkOf(g, i), Zeros(geo.blockSize))
  }

  /** From `v` to `r`, only blocks of `touched` and the allocator's own blocks changed, and of the
      descriptors only free-block counts. */
  ghost predicate Evolved(geo: Geometry, v: Vol, r: Vol, touched: set<nat>) {
    && Valid(geo, v) && Valid(geo, r)
    && Locs(geo, r.gdt) == Locs(geo, v.gdt) && DescriptorsKept(geo, v, r)
    && forall b :: 0 <= b < |v.disk| && b !in touched && !AllocMeta(geo, Locs(geo, v.gdt), b) ==> r.disk[b] == v.disk[b]
  }

  /** What one allocation does: a block that was free, and is no metadata, is now in use and zero. */
  ghost predicate Allocated(geo: Geometry, v: Vol, r: Vol, b: nat) {
    && Evolved(geo, v, r, {b})
    && b in FreeSet(geo, v)
    && FreeSet(geo, r) == FreeSet(geo, v) - {b}
    && !Meta(geo, Locs(geo, v.gdt), b)
    && r.disk[b] == Zeros(geo.blockSize)
  }

  /** A successful search: the first clear bit in search order is the one taken. */
  ghost predicate SearchTakes(geo: Geometry, v: Vol, r: Vol, hint: nat, b: nat)
    requires Shape(geo, v)
  {
    exists k, i :: FirstClear(geo, v, hint, k, i) && b == geo.BlkOf(Visit(geo, hint, k), i)
                && r == Take(geo, v, Visit(geo, hint, k), i)
  }

  /** Every cached descriptor but that of group `g` is the same. */
  ghost predicate OneGroup(v: Vol, r: Vol, g: nat) {
    |r.gdt| == |v.gdt| && forall h :: 0 <= h < |v.gdt| && h != g ==> r.gdt[h] == v.gdt[h]
  }

  lemma TakeOneGroup(geo: Geometry, v: Vol, g: nat, i: nat)
    requires Shape(geo, v) && g < geo.groupCount && i < geo.GroupBits(g)
    ensures OneGroup(v, Take(geo, v, g, i), g)
  {
  }

  lemma FirstClearTaken(geo: Geometry, v: Vol, hint: nat, k: nat, i: nat)
    requires Valid(geo, v) && FirstClear(geo, v, hint, k, i)
    ensures var g := Visit(geo, hint, k); var b := geo.BlkOf(g, i); var r := Take(geo, v, g, i);
      Allocated(geo, v, r, b) && Valid(geo, r) && SearchTakes(geo, v, r, hint, b)
  {
    TakeAllocates(geo, v, Visit(geo, hint, k), i);
  }

  lemma ValidShape(geo: Geometry, v: Vol)
    requires Valid(geo, v)
    ensures Shape(geo, v)
  {
  }

  lemma ValidSynced(geo: Geometry, v: Vol)
    requires Valid(geo, v)
    ensures Shape(geo, v) && Synced(geo, v)
  {
  }

  lemma ClearMeansFree(geo: Geometry, v: Vol, g: nat, i: nat)
    requires Valid(geo, v) && g < geo.groupCount && i < geo.GroupBits(g)
    requires !BitAt(v.disk[Locs(geo, v.gdt)[g].bitmap], i)
    ensures geo.BlkOf(g, i) in FreeSet(geo, v) && !Meta(geo, Locs(geo, v.gdt), geo.BlkOf(g, i))
  {
    geo.BlkOfInverts(g, i);
    assert !Used(geo, Locs(geo, v.gdt), v.disk, geo.BlkOf(g, i));
  }

  lemma TakeAllocates(geo: Geometry, v: Vol, g: nat, i: nat)
    requires Valid(geo, v) && g < geo.groupCount && i < geo.GroupBits(g)
    requires !BitAt(v.disk[Locs(geo, v.gdt)[g].bitmap], i)
    ensures Allocated(geo, v, Take(geo, v, g, i), geo.BlkOf(g, i))
  {
    hide Synced, Counted;
    geo.BlkOfInverts(g, i);
    ClearMeansFree(geo, v, g, i);
    FlipValid(geo, v, g, i, true);
    FlipFreeSet(geo, v, g, i, true);
    FlipDisk(geo, v, g, i, true);
    FlipDescriptors(geo, v, g, i, true);
    GdtBlockBound(geo, g);
    WriteBlockValid(geo, Flip(geo, v, g, i, true), geo.BlkOf(g, i), Zeros(geo.blockSize));
  }

  /** What one free does: the block's bit was set, and now it is among the free ones. */
  ghost predicate Freed(geo: Geometry, v: Vol, r: Vol, b: nat) {
    && Evolved(geo, v, r, {})
    && geo.firstDataBlock <= b < geo.blocksCount
    && b !in FreeSet(geo, v)
    && FreeSet(geo, r) == FreeSet(geo, v) + {b}
  }

  lemma FlipFrees(geo: Geometry, v: Vol, b: nat)
    requires Valid(geo, v) && geo.firstDataBlock <= b < geo.blocksCount
    requires Used(geo, Locs(geo, v.gdt), v.disk, b) && !Meta(geo, Locs(geo, v.gdt), b)
    ensures Freed(geo, v, Flip(geo, v, geo.GroupOf(b), geo.IndexOf(b), false), b)
  {
    hide Synced, Counted;
    var g, i := geo.GroupOf(b), geo.IndexOf(b);
    FlipValid(geo, v, g, i, false);
    FlipFreeSet(geo, v, g, i, false);
    FlipDisk(geo, v, g, i, false);
    FlipDescriptors(geo, v, g, i, false);
    GdtBlockBound(geo, g);
  }

  /** Freeing a block in use keeps the volume valid exactly when the block is not metadata. */
  lemma FreeKeepsValidIff(geo: Geometry, v: Vol, b: nat)
    requires Valid(geo, v) && geo.firstDataBlock <= b < geo.blocksCount && Used(geo, Locs(geo, v.gdt), v.disk, b)
    ensures Valid(geo, Flip(geo, v, geo.GroupOf(b), geo.IndexOf(b), false)) <==> !Meta(geo, Locs(geo, v.gdt), b)
  {
    hide Synced, Counted, Flip, Meta;
    var g, i := geo.GroupOf(b), geo.IndexOf(b);
    FlipFreeSet(geo, v, g, i, false);
    if !Meta(geo, Locs(geo, v.gdt), b) {
      FlipFrees(geo, v, b);
    } else {
      assert b in FreeSet(geo, Flip(geo, v, g, i, false));
    }
  }

  lemma FreedValid(geo: Geometry, v: Vol, r: Vol, b: nat)
    requires Freed(geo, v, r, b)
    ensures Valid(geo, r)
  {
  }

  // ---------------- which groups a search visits ----------------

  ghost predicate Visited(geo: Geometry, hint: nat, g: nat)
    requires geo.Ok()
  {
    exists k :: 0 <= k < geo.groupCount && Visit(geo, hint, k) == g
  }

  /** The group the search misses once its 32-bit sum wraps inside a round of groups. */
  function Missed(geo: Geometry, hint: nat): nat
    requires geo.Ok() && hint < U32 < hint + geo.groupCount
  {
    var before, m := U32 - hint, Mod(U32, geo.groupCount);
    if before <= m then geo.groupCount - 1 else geo.groupCount - before + m - 1
  }

  /** A search starts at its hint and goes on to the next group, from the last one back to the first. */
  lemma VisitSteps(geo: Geometry, hint: nat, k: nat)
    requires geo.Ok() && hint + k + 1 < U32
    ensures Visit(geo, hint, 0) == Mod(hint, geo.groupCount)
    ensures var g := Visit(geo, hint, k); Visit(geo, hint, k + 1) == if g + 1 == geo.groupCount then 0 else g + 1
  {
    hide Mul, Div, Mod, Visit;
    VisitPlain(geo, hint, 0);
    VisitPlain(geo, hint, k);
    VisitPlain(geo, hint, k + 1);
    DivModStep(hint + k, 1, geo.groupCount);
  }

  lemma VisitPlain(geo: Geometry, hint: nat, k: nat)
    requires geo.Ok() && hint + k < U32
    ensures Visit(geo, hint, k) == Mod(hint + k, geo.groupCount)
  {
    hide Mul, Div, Mod, Geometry.Ok;
  }

  lemma MissedIsNotVisited(geo: Geometry, hint: nat, k: nat)
    requires geo.Ok() && hint < U32 < hint + geo.groupCount && k < geo.groupCount
    requires Mod(U32, geo.groupCount) != 0
    ensures Missed(geo, hint) < geo.groupCount && Visit(geo, hint, k) != Missed(geo, hint)
  {
    hide Mul, Div;
    var d, a := geo.groupCount, U32 - hint;
    if k < a {
      DivModStep(hint + k, a - k, d);
    }
  }

  lemma FindVisit(geo: Geometry, hint: nat, g: nat) returns (k: nat)
    requires geo.Ok() && hint < U32 && g < geo.groupCount
    requires hint + geo.groupCount <= U32 || Mod(U32, geo.groupCount) == 0
    ensures k < geo.groupCount && Visit(geo, hint, k) == g
  {
    hide Mul, Div, Mod;
    var d, h := geo.groupCount, Mod(hint, geo.groupCount);
    k := if h <= g then g - h else g - h + d;
    DivModStep(hint, k, d);
    if U32 <= hint + k {
      DivModStep(U32, hint + k - U32, d);
      ModSmall(hint + k - U32, d);
    }
  }

  /** A search covers every group exactly when its sum does not wrap, or wraps harmlessly. */
  lemma SearchCoverage(geo: Geometry, hint: nat)
    requires geo.Ok() && hint < U32
    ensures (forall g :: 0 <= g < geo.groupCount ==> Visited(geo, hint, g))
       <==> (hint + geo.groupCount <= U32 || Mod(U32, geo.groupCount) == 0)
  {
    if hint + geo.groupCount <= U32 || Mod(U32, geo.groupCount) == 0 {
      forall g | 0 <= g < geo.groupCount ensures Visited(geo, hint, g) {
        var k := FindVisit(geo, hint, g);
      }
    } else {
      forall k | 0 <= k < geo.groupCount
        ensures Missed(geo, hint) < geo.groupCount && Visit(geo, hint, k) != Missed(geo, hint)
      {
        MissedIsNotVisited(geo, hint, k);
      }
      MissedIsNotVisited(geo, hint, 0);
      assert !Visited(geo, hint, Missed(geo, hint));
    }
  }

  /** Three groups searched from the last 32-bit hint: groups 0, 0 and 1; the third is never looked at. */
  lemma LastHintMissesGroup(geo: Geometry)
    requires geo.Ok() && geo.groupCount == 3
    ensures Visit(geo, U32 - 1, 0) == 0 && Visit(geo, U32 - 1, 1) == 0 && Visit(geo, U32 - 1, 2) == 1
    ensures !Visited(geo, U32 - 1, 2)
  {
    hide Mod;
    DivModAreBuiltIn(U32 - 1, 3);
    ModSmall(0, 3);
    ModSmall(1, 3);
    assert (U32 - 1 + 1) % U32 == 0 && (U32 - 1 + 2) % U32 == 1;
  }

  /** A failed search under a hint that covers the groups means no block is free at all. */
  lemma FailureMeansFull(geo: Geometry, v: Vol, hint: nat)
    requires Valid(geo, v) && hint < U32
    requires hint + geo.groupCount <= U32 || Mod(U32, geo.groupCount) == 0
    requires AllFullBefore(geo, v, hint, geo.groupCount)
    ensures FreeSet(geo, v) == {} && SbFree(v) == 0
  {
    forall b | geo.firstDataBlock <= b < geo.blocksCount
      ensures Used(geo, Locs(geo, v.gdt), v.disk, b)
    {
      var k := FindVisit(geo, hint, geo.GroupOf(b));
      assert GroupFull(geo, v, Visit(geo, hint, k));
    }
    forall g | 0 <= g < geo.groupCount
      ensures GroupFull(geo, v, g)
    {
      var k := FindVisit(geo, hint, g);
      assert GroupFull(geo, v, Visit(geo, hint, k));
    }
    AllFullSum(geo, v, geo.groupCount);
  }

  lemma FullIsSet(geo: Geometry, v: Vol, g: nat)
    requires Shape(geo, v) && g < geo.groupCount && GroupFull(geo, v, g)
    ensures Locs(geo, v.gdt)[g].bitmap < |v.disk|
    ensures var bm := v.disk[Locs(geo, v.gdt)[g].bitmap]; geo.GroupBits(g) <= 8 * |bm| && SetBelow(bm, geo.GroupBits(g))
  {
  }

  lemma {:induction false} AllFullSum(geo: Geometry, v: Vol, n: nat)
    requires Shape(geo, v) && n <= geo.groupCount
    requires forall g :: 0 <= g < geo.groupCount ==> GroupFull(geo, v, g)
    ensures SumFree(geo, Locs(geo, v.gdt), v.disk, n) == 0
  {
    hide LocsOk, GroupFull, ClearCount;
    if n > 0 {
      AllFullSum(geo, v, n - 1);
      assert GroupFull(geo, v, n - 1);
      FullIsSet(geo, v, n - 1);
      ClearCountZero(v.disk[Locs(geo, v.gdt)[n - 1].bitmap], geo.GroupBits(n - 1));
    }
  }

  /** The byte and bit loops over one bitmap: the lowest clear bit below `n`, if there is one. */
  method FindClearBit(bm: Block, n: nat) returns (found: bool, idx: nat)
    requires n <= 8 * |bm|
    ensures found ==> idx < n && !BitAt(bm, idx) && SetBelow(bm, idx)
    ensures !found ==> SetBelow(bm, n)
  {
    var byteI := 0;
    while byteI < (n + 7) / 8
      invariant 0 <= byteI <= (n + 7) / 8
      invariant forall i :: 0 <= i < n && i < 8 * byteI ==> BitAt(bm, i)
    {
      var v := bm[byteI];
      if v == 0xFF {
        forall i | 8 * byteI <= i < 8 * byteI + 8 ensures BitAt(bm, i) {
          assert Pow2(8) == 256;
          OnesAreSet(8, i % 8);
        }
      } else {
        var bit := 0;
        while bit < 8
          invariant 0 <= bit <= 8
          invariant forall i :: 0 <= i < n && i < 8 * byteI + bit ==> BitAt(bm, i)
        {
          if 8 * byteI + bit >= n {
            break;
          }
          if !Bit(v, bit) {
            assert (8 * byteI + bit) / 8 == byteI && (8 * byteI + bit) % 8 == bit;
            return true, 8 * byteI + bit;
          }
          bit := bit + 1;
        }
      }
      byteI := byteI + 1;
    }
    return false, 0;
  }

  // ---------------- the driver ----------------

  class Ext4 {
    const geo: Geometry
    var disk: seq<Block>
    var gdt: seq<seq<Byte>>
    var sbFreeLo: nat
    var sbFreeHi: nat
    var scratch1: Block
    var scratch2: Block

    ghost function State(): Vol
      reads this
    {
      Vol(disk, gdt, sbFreeLo, sbFreeHi)
    }

    ghost predicate Ready()
      reads this
    {
      Valid(geo, State()) && |scratch1| == geo.blockSize && |scratch2| == geo.blockSize
    }

    constructor (geo: Geometry, image: Vol)
      requires Valid(geo, image)
      ensures Ready() && this.geo == geo && State() == image
    {
      this.geo := geo;
      disk, gdt, sbFreeLo, sbFreeHi := image.disk, image.gdt, image.sbFreeLo, image.sbFreeHi;
      scratch1, scratch2 := Zeros(geo.blockSize), Zeros(geo.blockSize);
    }

    /** adjust_free_blocks: the cached descriptor and the superblock counters. */
    method AdjustFreeBlocks(g: nat, delta: int)
      requires Shape(geo, State()) && g < geo.groupCount
      modifies `gdt, `sbFreeLo, `sbFreeHi
      ensures State() == AdjustSuper(old(State()), delta).(gdt := old(gdt)[g := AdjustDesc(geo, old(gdt)[g], delta)])
    {
      hide Put16, LocsOk, DiskOk;
      var v := if FreeCount(gdt[g]) + delta < 0 then 0 else FreeCount(gdt[g]) + delta;
      gdt := gdt[g := Put16(gdt[g], 12, v % U16)];
      if geo.has64 {
        gdt := gdt[g := Put16(gdt[g], 44, v / U16 % U16)];
      }
      var total := sbFreeLo + U32 * sbFreeHi + delta;
      if total < 0 {
        total := 0;
      }
      sbFreeLo := total % U32;
      sbFreeHi := total / U32 % U32;
    }

    /** e4_sync_gd: read the descriptor block, patch one slot, write it back. */
    method SyncDescriptor(g: nat)
      requires geo.Ok() && DiskOk(geo, disk) && g < geo.groupCount && geo.GdtBlock(g) < |disk|
      requires g < |gdt| && |gdt[g]| == geo.descSize
      modifies `disk, `scratch2
      ensures disk == SyncGd(geo, old(disk), g, gdt[g])
      ensures |scratch2| == geo.blockSize
    {
      var blk := geo.GdtBlock(g);
      scratch2 := disk[blk];
      scratch2 := Patch(scratch2, geo.SlotOff(g), gdt[g]);
      disk := disk[blk := scratch2];
    }
  
    /** The writes of a successful allocation, in the order the driver issues them. */
    method TakeBit(g: nat, i: nat)
      requires Shape(geo, State()) && g < geo.groupCount && i < geo.GroupBits(g)
      requires scratch1 == disk[Locs(geo, gdt)[g].bitmap]
      modifies this
      ensures State() == Take(geo, old(State()), g, i)
      ensures |scratch1| == geo.blockSize && |scratch2| == geo.blockSize
    {
      GdtBlockBound(geo, g);
      geo.BlkOfInverts(g, i);
      var blk := LocOf(geo, gdt[g]).bitmap;
      scratch1 := SetBitAt(scratch1, i, true);
      AdjustFreeBlocks(g, -1);
      SyncDescriptor(g);
      disk := disk[blk := scratch1];
      scratch2 := Zeros(geo.blockSize);
      disk := disk[geo.BlkOf(g, i) := scratch2];
    }

    /** e4_alloc_block_near: the first clear bit in search order is taken; failure leaves the
        volume as it was and means every group searched is full. */
    method AllocBlockNear(hint: nat) returns (ok: bool, b: nat)
      requires Ready() && hint < U32
      modifies this
      ensures Ready()
      ensures ok ==> Allocated(geo, old(State()), State(), b)
      ensures ok ==> SearchTakes(geo, old(State()), State(), hint, b)
      ensures ok ==> OneGroup(old(State()), State(), geo.GroupOf(b))
      ensures !ok ==> State() == old(State()) && AllFullBefore(geo, State(), hint, geo.groupCount)
    {
      hide Valid, Allocated, SearchTakes, Take, OneGroup;
      ValidShape(geo, State());
      var gi := 0;
      while gi < geo.groupCount
        invariant 0 <= gi <= geo.groupCount
        invariant Ready() && State() == old(State())
        invariant AllFullBefore(geo, State(), hint, gi)
      {
        var g := Visit(geo, hint, gi);
        scratch1 := disk[LocOf(geo, gdt[g]).bitmap];
        var found, bidx := FindClearBit(scratch1, geo.GroupBits(g));
        if found {
          assert FirstClear(geo, State(), hint, gi, bidx);
          FirstClearTaken(geo, State(), hint, gi, bidx);
          TakeOneGroup(geo, State(), g, bidx);
          geo.BlkOfInverts(g, bidx);
          TakeBit(g, bidx);
          return true, geo.BlkOf(g, bidx);
        }
        assert GroupFull(geo, State(), g);
        gi := gi + 1;
      }
      return false, 0;
    }
  
    /** The writes of a successful free. */
    method DropBit(g: nat, i: nat)
      requires Shape(geo, State()) && g < geo.groupCount && i < geo.GroupBits(g)
      requires scratch1 == disk[Locs(geo, gdt)[g].bitmap]
      modifies this
      ensures State() == Flip(geo, old(State()), g, i, false)
      ensures |scratch1| == geo.blockSize && |scratch2| == geo.blockSize
    {
      GdtBlockBound(geo, g);
      var blk := LocOf(geo, gdt[g]).bitmap;
      scratch1 := SetBitAt(scratch1, i, false);
      AdjustFreeBlocks(g, 1);
      SyncDescriptor(g);
      disk := disk[blk := scratch1];
    }

    /** e4_free_block: refused outside the volume or when the bit is already clear. */
    method FreeBlock(b: nat) returns (ok: bool)
      requires Ready()
      modifies this
      ensures ok <==> geo.firstDataBlock <= b < geo.blocksCount && b !in FreeSet(geo, old(State()))
      ensures !ok ==> State() == old(State()) && Ready()
      ensures ok ==> State() == Flip(geo, old(State()), geo.GroupOf(b), geo.IndexOf(b), false)
      ensures ok && !Meta(geo, Locs(geo, old(gdt)), b) ==> Freed(geo, old(State()), State(), b)
      ensures ok ==> DescriptorsKept(geo, old(State()), State()) && OneGroup(old(State()), State(), geo.GroupOf(b))
      ensures ok ==> (Ready() <==> !Meta(geo, Locs(geo, old(gdt)), b))
    {
      hide Valid, Freed, Meta, Flip, DescriptorsKept;
      ValidShape(geo, State());
      if b < geo.firstDataBlock || b >= geo.blocksCount {
        return false;
      }
      var g, idx := geo.GroupOf(b), geo.IndexOf(b);
      scratch1 := disk[LocOf(geo, gdt[g]).bitmap];
      if !BitAt(scratch1, idx) {
        assert !Used(geo, Locs(geo, gdt), disk, b);
        return false;
      }
      assert Used(geo, Locs(geo, gdt), disk, b);
      FreeKeepsValidIff(geo, State(), b);
      ValidSynced(geo, State());
      FlipDescriptors(geo, State(), g, idx, false);
      if !Meta(geo, Locs(geo, gdt), b) {
        FlipFrees(geo, State(), b);
        FreedValid(geo, State(), Flip(geo, State(), g, idx, false), b);
      }
      DropBit(g, idx);
      return true;
    }
  }
}
