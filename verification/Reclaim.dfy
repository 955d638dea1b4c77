/** What truncation gives back of what an append took. */
module Reclaim {
  import opened Bytes
  import opened Arith
  import opened Volume
  import opened AllocRuns
  import opened Runs
  import opened Extents
  import opened Tree
  import opened Files
  import opened Release
  import opened Truncate
  import opened SectorCount
  import opened ReadWrite

  // ---------------- sectors ----------------

  /** The sectors of `n` data and `l` leaf blocks added, and of `down` taken off again. */
  lemma SectorsAfter(geo: Geometry, disk: seq<Block>, raw: seq<Byte>, out: seq<Byte>, n: nat, l: nat, down: nat)
    requires geo.Ok() && DiskOk(geo, disk) && 128 <= |raw| == |out|
    requires ExtentMapped(out) && RootOk(Root(out))
    requires SameOutsideRoot(out, AddSectors(geo, AddBlocks(geo, raw, l), Mul(n, geo.blockSize)))
    requires down <= n + l && (if Empty(Root(out)) then down == 0 else FreedUnits(Root(out)) == down)
    requires Sectors(geo, raw) + SectorsIn(geo, n + l) < MaxSectors(geo)
    ensures Sectors(geo, ZeroSize(Emptied(geo, disk, out)))
         == Sectors(geo, raw) + SectorsIn(geo, n + l - down)
  {
    hide AddSectors, AddBlocks, Mul, TreeBlocks, FreedUnits, Sectors, SectorsIn, MaxSectors, Put32, SameOutsideRoot, Empty;
    SectorsUp(geo, raw, out, n, l);
    SectorsSplit(geo, n + l - down, down);
    var e := Emptied(geo, disk, out);
    if !Empty(Root(out)) {
      SectorsDown(geo, out, down);
    } else {
      NoSectors(geo, 0);
    }
    SectorsOfZeroSize(geo, e);
  }

  // ---------------- the free set and the counters ----------------

  ghost predicate SameCounters(geo: Geometry, v: Vol, r: Vol)
    requires Shape(geo, v) && Shape(geo, r)
  {
    SbFree(r) == SbFree(v) && forall g :: 0 <= g < geo.groupCount ==> FreeCount(r.gdt[g]) == FreeCount(v.gdt[g])
  }

  /** Volumes with the same free blocks have the same counters. */
  lemma SameFreeSameCounters(geo: Geometry, v: Vol, r: Vol, g: nat)
    requires Valid(geo, v) && Valid(geo, r) && Locs(geo, v.gdt) == Locs(geo, r.gdt)
    requires FreeSet(geo, v) == FreeSet(geo, r) && g < geo.groupCount
    ensures FreeCount(r.gdt[g]) == FreeCount(v.gdt[g])
  {
    hide Synced, MetaUsed, SumFree;
    var locs := Locs(geo, v.gdt);
    var a, b := v.disk[locs[g].bitmap], r.disk[locs[g].bitmap];
    forall i | 0 <= i < geo.GroupBits(g) ensures BitAt(a, i) == BitAt(b, i) {
      geo.BlkOfInverts(g, i);
      var x := geo.BlkOf(g, i);
      assert Used(geo, locs, v.disk, x) == (x !in FreeSet(geo, v));
      assert Used(geo, locs, r.disk, x) == (x !in FreeSet(geo, r));
    }
    ClearCountSame(a, b, geo.GroupBits(g));
  }

  lemma CountersFollow(geo: Geometry, v: Vol, r: Vol)
    requires Valid(geo, v) && Valid(geo, r) && Shape(geo, v) && Shape(geo, r) && Locs(geo, v.gdt) == Locs(geo, r.gdt)
    ensures FreeSet(geo, v) == FreeSet(geo, r) ==> SameCounters(geo, v, r)
    ensures SameCounters(geo, v, r) ==> SbFree(r) == SbFree(v)
  {
    hide Valid, LocsOk, DiskOk, FreeSet, FreeCount;
    if FreeSet(geo, v) == FreeSet(geo, r) {
      forall g | 0 <= g < geo.groupCount ensures FreeCount(r.gdt[g]) == FreeCount(v.gdt[g]) {
        SameFreeSameCounters(geo, v, r, g);
      }
      SbFreeIsCard(geo, v);
      SbFreeIsCard(geo, r);
    }
  }

  lemma TakenOwned(geo: Geometry, v: Vol, w: Vol, s: set<nat>, blocks: seq<nat>)
    requires TakenAll(geo, v, w, s) && Distinct(blocks) && SetOf(blocks) <= s
    ensures Shape(geo, w) && AllOwned(geo, w, blocks)
  {
    hide Synced, Counted, MetaUsed;
    forall b | b in blocks ensures Owned(geo, w, b) {
      assert b in SetOf(blocks);
    }
  }

  lemma PartBack(free: set<nat>, s: set<nat>, t: set<nat>)
    requires t <= s <= free
    ensures free - s + t == free - (s - t) && |free - s + t| + |s| == |free| + |t|
  {
    var lost := s - t;
    assert free == (free - lost) + lost && s == lost + t;
    assert free - s + t == free - lost;
  }

  /** Taking `s` and giving back part of it leaves the rest missing, from the free set and from the counters. */
  lemma TakenThenPartFreed(geo: Geometry, v: Vol, w: Vol, r: Vol, s: set<nat>, t: set<nat>)
    requires TakenAll(geo, v, w, s) && FreedAll(geo, w, r, t) && t <= s
    ensures Shape(geo, v) && Shape(geo, r)
    ensures FreeSet(geo, r) == FreeSet(geo, v) - (s - t) && s <= FreeSet(geo, v)
    ensures SbFree(r) + |s| == SbFree(v) + |t|
    ensures SameCounters(geo, v, r) <==> s == t
  {
    hide Synced, Counted, MetaUsed, FreeSet, Shape, Meta, AllocMeta, SbFree, SameCounters;
    SbFreeIsCard(geo, v);
    SbFreeIsCard(geo, r);
    PartBack(FreeSet(geo, v), s, t);
    CountersFollow(geo, v, r);
    if s != t {
      assert |s - t| > 0 && |s| == |s - t| + |t| by {
        assert s - t != {} && s == (s - t) + t;
      }
    }
  }

  // ---------------- the theorem ----------------

  /** What truncating the inode an append left behind releases, and how much of it is missing. */
  lemma Released(geo: Geometry, v: Vol, w: Vol, raw: seq<Byte>, out: seq<Byte>, start: nat, blks: seq<nat>,
                 leaves: seq<nat>)
    requires geo.Ok() && 128 <= |raw| && ExtentMapped(raw) && start + |blks| < U32
    requires Distinct(blks) && Distinct(leaves) && SetOf(blks) !! SetOf(leaves)
    requires TakenAll(geo, v, w, SetOf(blks) + SetOf(leaves)) && Appended(geo, w.disk, raw, out, start, blks, leaves)
    ensures ExtentMapped(out) && RootOk(Root(out))
    ensures var t := TreeBlocks(Root(out));
      && Distinct(t) && SetOf(t) <= SetOf(blks) + SetOf(leaves) && |t| <= |blks| + |leaves|
      && (|t| == |blks| + |leaves| <==> Inlineable(start, blks))
      && (if Empty(Root(out)) then |t| == 0 else FreedUnits(Root(out)) == |t|)
  {
    hide TakenAll, Mul, RunsOf, AddSectors, TreeBlocks, Holds, Distinct, Addressable, SetOf, TreeHolds, CountFits;
    var runs := RunsOf(start, blks);
    AppendedFields(geo, raw, out, |leaves|, Mul(|blks|, geo.blockSize));
    TakenBelow(geo, v, w, blks, leaves);
    RunsAddressable(start, blks);
    if |runs| <= ROOT_MAX {
      InlineReleases(out, start, blks);
      EmptyTree(Root(out));
    } else {
      DeepReleases(geo, w.disk, out, runs, leaves);
      NoBlocksNoRuns(start, blks);
    }
  }

  lemma NoBlocksNoRuns(start: nat, blks: seq<nat>)
    ensures RunsOf(start, blks) == [] <==> blks == []
  {
    RunsOfEncodes(start, blks);
    RunsOfNil(start);
  }

  /** Truncation undoes an append exactly when the appended blocks form at most four runs of at most
      32767 blocks. What stays taken otherwise is missing from the free set, from the superblock's
      counter and from the inode's sector count alike. */
  lemma TruncateUndoesAppend(geo: Geometry, v: Vol, w: Vol, r: Vol, raw: seq<Byte>, out: seq<Byte>, start: nat,
                             blks: seq<nat>, leaves: seq<nat>)
    requires geo.Ok() && 128 <= |raw| && ExtentMapped(raw) && start + |blks| < U32
    requires Distinct(blks) && Distinct(leaves) && SetOf(blks) !! SetOf(leaves)
    requires TakenAll(geo, v, w, SetOf(blks) + SetOf(leaves)) && Appended(geo, w.disk, raw, out, start, blks, leaves)
    ensures ExtentMapped(out) && RootOk(Root(out)) && Shape(geo, w) && AllOwned(geo, w, FileBlocks(geo, w.disk, out))
    ensures FreedAll(geo, w, r, SetOf(FileBlocks(geo, w.disk, out))) ==>
              && Shape(geo, v) && Shape(geo, r)
              && (FreeSet(geo, r) == FreeSet(geo, v) <==> Inlineable(start, blks))
              && (SameCounters(geo, v, r) <==> Inlineable(start, blks))
              && SbFree(r) + |blks| + |leaves| == SbFree(v) + |FileBlocks(geo, w.disk, out)|
    ensures Sectors(geo, raw) + SectorsIn(geo, |blks| + |leaves|) < MaxSectors(geo) ==>
              var after := Sectors(geo, ZeroSize(Emptied(geo, w.disk, out)));
              && (after == Sectors(geo, raw) <==> Inlineable(start, blks))
              && |FileBlocks(geo, w.disk, out)| <= |blks| + |leaves|
              && after == (Sectors(geo, raw)
                           + SectorsIn(geo, |blks| + |leaves| - |FileBlocks(geo, w.disk, out)|))
  {
    hide TakenAll, FreedAll, Mul, RunsOf, AddSectors, Sectors, SectorsIn, MaxSectors, TreeBlocks, AllOwned, Emptied, ZeroSize,
         Shape, FreeSet, SameCounters, Distinct, SetOf, Inlineable, InlineTree, DeepTree, FreedUnits, RootOk, Empty;
    Released(geo, v, w, raw, out, start, blks, leaves);
    var t := TreeBlocks(Root(out));
    TakenOwned(geo, v, w, SetOf(blks) + SetOf(leaves), t);
    ShapeDiskOk(geo, w);
    hide Geometry.Ok;
    if FreedAll(geo, w, r, SetOf(t)) {
      BlocksGivenBack(geo, v, w, r, blks, leaves, t);
    }
    if Sectors(geo, raw) + SectorsIn(geo, |blks| + |leaves|) < MaxSectors(geo) {
      SectorsAfter(geo, w.disk, raw, out, |blks|, |leaves|, |t|);
      NoSectors(geo, |blks| + |leaves| - |t|);
    }
  }

  lemma BlocksGivenBack(geo: Geometry, v: Vol, w: Vol, r: Vol, blks: seq<nat>, leaves: seq<nat>, t: seq<nat>)
    requires Distinct(blks) && Distinct(leaves) && SetOf(blks) !! SetOf(leaves) && Distinct(t)
    requires SetOf(t) <= SetOf(blks) + SetOf(leaves)
    requires TakenAll(geo, v, w, SetOf(blks) + SetOf(leaves)) && FreedAll(geo, w, r, SetOf(t))
    ensures Shape(geo, v) && Shape(geo, r)
    ensures FreeSet(geo, r) == FreeSet(geo, v) <==> |t| == |blks| + |leaves|
    ensures SameCounters(geo, v, r) <==> |t| == |blks| + |leaves|
    ensures SbFree(r) + |blks| + |leaves| == SbFree(v) + |t|
  {
    hide TakenAll, FreedAll, Shape, FreeSet, SameCounters, Distinct, SetOf;
    var all := SetOf(blks) + SetOf(leaves);
    DistinctCard(blks);
    DistinctCard(leaves);
    DistinctCard(t);
    assert |all| == |blks| + |leaves|;
    SubsetSame(SetOf(t), all);
    TakenThenPartFreed(geo, v, w, r, all, SetOf(t));
  }

  // ---------------- every kind of map ----------------

  lemma FreedCounts(geo: Geometry, v: Vol, r: Vol, blocks: seq<nat>)
    requires Shape(geo, v) && AllOwned(geo, v, blocks) && FreedAll(geo, v, r, SetOf(blocks))
    ensures SbFree(r) == SbFree(v) + |blocks|
  {
    hide Synced, Counted, MetaUsed, Meta, FreeSet, Shape, SbFree;
    DistinctCard(blocks);
    SbFreeIsCard(geo, v);
    SbFreeIsCard(geo, r);
    assert FreeSet(geo, v) !! SetOf(blocks);
  }

  /** Truncation adds what it releases to the superblock's counter, and takes a legacy map's blocks off
      the inode's sector count, one for one. */
  lemma TruncateCounts(geo: Geometry, v: Vol, r: Vol, raw: seq<Byte>)
    requires geo.Ok() && Shape(geo, v) && 128 <= |raw| && Mappable(raw) && DiskOk(geo, v.disk)
    requires AllOwned(geo, v, FileBlocks(geo, v.disk, raw))
    requires FreedAll(geo, v, r, SetOf(FileBlocks(geo, v.disk, raw)))
    ensures SbFree(r) == SbFree(v) + |FileBlocks(geo, v.disk, raw)|
    ensures !ExtentMapped(raw) && SectorsIn(geo, |FileBlocks(geo, v.disk, raw)|) <= Sectors(geo, raw) ==>
      Sectors(geo, ZeroSize(Emptied(geo, v.disk, raw)))
      == Sectors(geo, raw) - SectorsIn(geo, |FileBlocks(geo, v.disk, raw)|)
  {
    hide AddSectors, Mul, Sectors, SectorsIn, MapBlocks, TreeBlocks, WithRoot, ZeroSize, Shape, AllOwned, FreedAll, FreeSet,
         DiskOk, Root, RootOk, SetOf, SbFree;
    var blocks := FileBlocks(geo, v.disk, raw);
    FreedCounts(geo, v, r, blocks);
    if !ExtentMapped(raw) && SectorsIn(geo, |blocks|) <= Sectors(geo, raw) {
      MapSectors(geo, raw, |blocks|);
      SectorsOfZeroSize(geo, Emptied(geo, v.disk, raw));
    }
  }
}
