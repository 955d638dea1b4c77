/** File contents on a volume: inode fields, appending, truncating, replacing and reading. */
module Files {
  import opened Bytes
  import opened Arith
  import opened Volume
  import opened Allocator
  import opened Driver
  import opened Runs
  import opened Extents
  import opened Tree
  import opened Plan

  // ---------------- inode fields ----------------

  /** The sixty-byte block area of an inode. */
  function Root(raw: seq<Byte>): (node: seq<Byte>)
    requires 128 <= |raw|
    ensures |node| == 60
  {
    raw[40..100]
  }

  function WithRoot(raw: seq<Byte>, node: seq<Byte>): (r: seq<Byte>)
    requires 128 <= |raw| && |node| == 60
    ensures |r| == |raw| && Root(r) == node
    ensures forall j :: 0 <= j < |raw| && (j < 40 || 100 <= j) ==> r[j] == raw[j]
  {
    Patch(raw, 40, node)
  }

  predicate ExtentMapped(raw: seq<Byte>)
    requires 128 <= |raw|
  {
    Get32(raw, 32) / 0x8_0000 % 2 == 1
  }

  /** e4_inode_size: directories have a 32-bit size. */
  function Size(geo: Geometry, raw: seq<Byte>): nat
    requires 128 <= |raw|
  {
    Get32(raw, 4) + (if geo.largeFile && !IsDir(raw) then U32 * Get32(raw, 108) else 0)
  }

  /** A size reads back as stored, 64 bits wide where the volume has large files and the mode does not say
      directory. */
  lemma SizeStored(geo: Geometry, raw: seq<Byte>, n: nat)
    requires 128 <= |raw| && n < U32 * U32
    ensures Size(geo, Put32(Put32(raw, 4, n % U32), 108, n / U32))
         == if geo.largeFile && raw[1] / 16 != 4 then n else n % U32
  {
    hide Put32;
    var a := Put32(raw, 4, n % U32);
    var b := Put32(a, 108, n / U32);
    assert Get32(b, 4) == Get32(a, 4);
  }

  predicate IsDir(raw: seq<Byte>)
    requires 128 <= |raw|
  {
    Get16(raw, 0) / 0x1000 == 4
  }

  /** The sector count: 48 bits in large inodes, 32 in small ones. */
  function Sectors(geo: Geometry, raw: seq<Byte>): nat
    requires 128 <= |raw|
  {
    Get32(raw, 28) + (if geo.inodeSize > 128 then U32 * Get16(raw, 116) else 0)
  }

  // Which byte of an inode belongs to what.
  predicate SectorByte(geo: Geometry, j: int) { 28 <= j < 32 || (geo.inodeSize > 128 && 116 <= j < 118) }

  predicate SizeByte(j: int) { 4 <= j < 8 || 108 <= j < 112 }

  predicate TimeByte(j: int) { 8 <= j < 20 }

  predicate AreaByte(j: int) { 40 <= j < 100 }

  /** C division: the quotient is truncated toward zero. */
  function TruncDiv(a: int, b: nat): int
    requires b > 0
  {
    if a >= 0 then a / b else -((-a) / b)
  }

  /** add_iblocks: the sector count moves by a number of bytes, and never below zero. */
  function AddSectors(geo: Geometry, raw: seq<Byte>, deltaBytes: int): (r: seq<Byte>)
    requires 128 <= |raw|
    ensures |r| == |raw|
    ensures forall j :: 0 <= j < |raw| && !SectorByte(geo, j) ==> r[j] == raw[j]
  {
    var cur := Clamp(Sectors(geo, raw) + TruncDiv(deltaBytes, 512));
    var a := Put32(raw, 28, cur % U32);
    if geo.inodeSize > 128 then Put16(a, 116, cur / U32 % U16) else a
  }

  /** The largest sector count the fields can hold. */
  function MaxSectors(geo: Geometry): nat { if geo.inodeSize > 128 then U32 * U16 else U32 }

  lemma AddSectorsMoves(geo: Geometry, raw: seq<Byte>, deltaBytes: int)
    requires 128 <= |raw| && deltaBytes % 512 == 0
    requires Sectors(geo, raw) + deltaBytes / 512 < MaxSectors(geo)
    ensures Sectors(geo, AddSectors(geo, raw, deltaBytes)) == Clamp(Sectors(geo, raw) + deltaBytes / 512)
  {
    hide Put32, Put16;
    WholeSectors(deltaBytes);
    SectorsStored(geo, raw, Clamp(Sectors(geo, raw) + deltaBytes / 512));
    hide Sectors, TruncDiv;
  }

  lemma WholeSectors(bytes: int)
    requires bytes % 512 == 0
    ensures TruncDiv(bytes, 512) == bytes / 512
  {
  }

  lemma SectorsStored(geo: Geometry, raw: seq<Byte>, cur: nat)
    requires 128 <= |raw| && cur < MaxSectors(geo)
    ensures var a := Put32(raw, 28, cur % U32);
      Sectors(geo, if geo.inodeSize > 128 then Put16(a, 116, cur / U32 % U16) else a) == cur
  {
    hide Put32, Put16;
    var a := Put32(raw, 28, cur % U32);
    if geo.inodeSize > 128 {
      var b := Put16(a, 116, cur / U32 % U16);
      assert Get32(b, 28) == Get32(a, 28);
    }
  }

  /** Fields outside the bytes an update names read as before. */
  lemma FieldsKept(geo: Geometry, a: seq<Byte>, b: seq<Byte>)
    requires 128 <= |a| == |b|
    requires forall j :: 0 <= j < |a| && !SectorByte(geo, j) ==> a[j] == b[j]
    ensures Root(a) == Root(b) && ExtentMapped(a) == ExtentMapped(b) && Size(geo, a) == Size(geo, b)
    ensures IsDir(a) == IsDir(b)
  {
  }

  // ---------------- freeing many blocks ----------------

  /** Blocks a file may own: on the volume, in use, and not metadata. */
  ghost predicate Owned(geo: Geometry, v: Vol, b: nat)
    requires Shape(geo, v)
  {
    geo.firstDataBlock <= b < geo.blocksCount && b !in FreeSet(geo, v) && !Meta(geo, Locs(geo, v.gdt), b)
  }

  ghost predicate FreedAll(geo: Geometry, v: Vol, r: Vol, s: set<nat>) {
    Evolved(geo, v, r, {}) && FreeSet(geo, r) == FreeSet(geo, v) + s
  }

  lemma FreedNone(geo: Geometry, v: Vol)
    requires Valid(geo, v)
    ensures FreedAll(geo, v, v, {})
  {
  }

  lemma FreedOneMore(geo: Geometry, v: Vol, w: Vol, r: Vol, s: set<nat>, b: nat)
    requires FreedAll(geo, v, w, s) && Freed(geo, w, r, b)
    ensures FreedAll(geo, v, r, s + {b})
  {
    hide Valid, DescriptorsKept, LocsOk, FreeSet, AllocMeta;
    ValidShape(geo, v);
    ValidShape(geo, w);
    ValidShape(geo, r);
    DescriptorsTwice(geo, v, w, r);
  }

  lemma StillOwned(geo: Geometry, v: Vol, w: Vol, s: set<nat>, b: nat)
    requires Shape(geo, v) && FreedAll(geo, v, w, s) && Owned(geo, v, b) && b !in s
    ensures Shape(geo, w) && Owned(geo, w, b)
  {
  }

  lemma OwnedMeans(geo: Geometry, v: Vol, b: nat)
    requires Shape(geo, v) && Owned(geo, v, b)
    ensures geo.firstDataBlock <= b < geo.blocksCount && b !in FreeSet(geo, v) && !Meta(geo, Locs(geo, v.gdt), b)
  {
  }

  /** Freeing one more owned block. */
  method FreeOwned(fs: Ext4, b: nat, ghost v: Vol, ghost before: set<nat>)
    requires fs.Ready() && Shape(fs.geo, v) && FreedAll(fs.geo, v, fs.State(), before)
    requires Owned(fs.geo, v, b) && b !in before
    modifies fs
    ensures fs.Ready() && FreedAll(fs.geo, v, fs.State(), before + {b})
  {
    hide Valid, FreedAll, Owned, FreeSet, Flip, Meta, Freed, Shape;
    ghost var w := fs.State();
    StillOwned(fs.geo, v, w, before, b);
    OwnedMeans(fs.geo, w, b);
    var _ := fs.FreeBlock(b);
    FreedOneMore(fs.geo, v, w, fs.State(), before, b);
  }

  /** Freeing the blocks of a run, each owned and not freed before. */
  method FreeRun(fs: Ext4, run: Run, ghost v: Vol, ghost before: set<nat>)
    requires fs.Ready() && Shape(fs.geo, v) && FreedAll(fs.geo, v, fs.State(), before)
    requires forall b :: b in Blocks(run) ==> Owned(fs.geo, v, b) && b !in before
    modifies fs
    ensures fs.Ready() && FreedAll(fs.geo, v, fs.State(), before + SetOf(Blocks(run)))
  {
    hide Valid, FreedAll, Owned, Shape;
    assert before + SetOf(Blocks(run.(count := 0))) == before;
    for j := 0 to run.count
      invariant fs.Ready()
      invariant FreedAll(fs.geo, v, fs.State(), before + SetOf(Blocks(run.(count := j))))
    {
      ghost var done := before + SetOf(Blocks(run.(count := j)));
      assert Blocks(run)[j] == run.start + j;
      FreeOwned(fs, run.start + j, v, done);
      assert Blocks(run.(count := j + 1)) == Blocks(run.(count := j)) + [run.start + j];
      assert done + {run.start + j} == before + SetOf(Blocks(run.(count := j + 1)));
    }
    assert run.(count := run.count) == run;
  }

  // ---------------- the blocks of an extent tree ----------------

  /** An extent as free_extent_tree sees it: an unwritten one holds no blocks. */
  function EntryRun(node: seq<Byte>, i: nat): Run
    requires EntryFits(node, i)
  {
    var e := GetExtent(node, i);
    if Unwritten(e) then e.(count := 0) else e
  }

  function EntryRuns(node: seq<Byte>, n: nat): (r: seq<Run>)
    requires 12 + 12 * n <= |node|
    ensures |r| == n && forall i :: 0 <= i < n ==> r[i] == EntryRun(node, i)
  {
    seq(n, i requires 0 <= i < n => EntryRun(node, i))
  }

  function Leaves(node: seq<Byte>, n: nat): (r: seq<nat>)
    requires 12 + 12 * n <= |node|
  {
    if n == 0 then []
    else Leaves(node, n - 1) + (if GetIndex(node, n - 1).leaf == 0 then [] else [GetIndex(node, n - 1).leaf])
  }

  /** The entries free_extent_tree looks at: four at most in an inline tree, else up to the stated maximum. */
  function Limit(node: seq<Byte>): (n: nat)
    requires |node| == 60
  {
    var max := if Depth(node) == 0 then ROOT_MAX else Get16(node, 4);
    if max < Entries(node) then max else Entries(node)
  }

  /** They lie inside the inode. */
  predicate RootOk(node: seq<Byte>) {
    |node| == 60 && Limit(node) <= ROOT_MAX
  }

  predicate Empty(node: seq<Byte>)
    requires |node| == 60
  {
    !HasMagic(node) || Entries(node) == 0
  }

  /** The blocks truncation releases: an inline tree's data, or a deeper tree's first-level nodes. */
  function TreeBlocks(node: seq<Byte>): (r: seq<nat>)
    requires RootOk(node)
  {
    if Empty(node) then []
    else if Depth(node) == 0 then Expand(EntryRuns(node, Limit(node)))
    else Leaves(node, Limit(node))
  }

  function FreedUnits(node: seq<Byte>): nat
    requires RootOk(node)
  {
    if Depth(node) == 0 then |TreeBlocks(node)| else Entries(node)
  }

  function Cleared(node: seq<Byte>): (r: seq<Byte>)
    requires |node| == 60
    ensures RootOk(r) && Entries(r) == 0 && Depth(r) == 0
  {
    Put16(Put16(node, 2, 0), 6, 0)
  }

  /** The inode free_extent_tree leaves. */
  function TreeFreed(geo: Geometry, raw: seq<Byte>): (r: seq<Byte>)
    requires 128 <= |raw| && RootOk(Root(raw))
    ensures |r| == |raw|
  {
    var node := Root(raw);
    if Empty(node) then raw
    else WithRoot(AddSectors(geo, raw, 0 - Mul(FreedUnits(node), geo.blockSize)), Cleared(node))
  }

  ghost predicate AllOwned(geo: Geometry, v: Vol, blocks: seq<nat>)
    requires Shape(geo, v)
  {
    Distinct(blocks) && forall b :: b in blocks ==> Owned(geo, v, b)
  }

  lemma NextRunFresh(geo: Geometry, v: Vol, runs: seq<Run>, i: nat)
    requires Shape(geo, v) && i < |runs| && AllOwned(geo, v, Expand(runs))
    ensures forall b :: b in Blocks(runs[i]) ==> Owned(geo, v, b) && b !in SetOf(Expand(runs[..i]))
    ensures SetOf(Expand(runs[..i + 1])) == SetOf(Expand(runs[..i])) + SetOf(Blocks(runs[i]))
    ensures |Expand(runs[..i + 1])| == |Expand(runs[..i])| + runs[i].count
  {
    hide Owned, Shape, Expand;
    ExpandSplit(runs, i);
    var a, m := Expand(runs[..i]), Blocks(runs[i]);
    var all := Expand(runs);
    forall b | b in m ensures b in all && b !in a {
      var k :| 0 <= k < |m| && m[k] == b;
      assert all[|a| + k] == b;
      forall j | 0 <= j < |a| ensures a[j] != b {
        assert all[j] == a[j] && all[j] != all[|a| + k];
      }
    }
  }

  /** The depth-zero half of free_extent_tree. */
  method FreeInline(fs: Ext4, node: seq<Byte>) returns (freed: nat)
    requires fs.Ready() && RootOk(node) && Depth(node) == 0
    requires AllOwned(fs.geo, fs.State(), Expand(EntryRuns(node, Limit(node))))
    modifies fs
    ensures fs.Ready()
    ensures FreedAll(fs.geo, old(fs.State()), fs.State(), SetOf(Expand(EntryRuns(node, Limit(node)))))
    ensures freed == |Expand(EntryRuns(node, Limit(node)))|
  {
    hide Valid, FreedAll, Owned, Shape, Expand, GetExtent;
    ghost var v := fs.State();
    ghost var runs := EntryRuns(node, Limit(node));
    ValidShape(fs.geo, v);
    FreedNone(fs.geo, v);
    ExpandNil();
    freed := 0;
    assert runs[..0] == [] && SetOf(Expand(runs[..0])) == {};
    for i := 0 to Limit(node)
      invariant fs.Ready() && FreedAll(fs.geo, v, fs.State(), SetOf(Expand(runs[..i])))
      invariant freed == |Expand(runs[..i])|
    {
      NextRunFresh(fs.geo, v, runs, i);
      var e := GetExtent(node, i);
      if Unwritten(e) {
        assert SetOf(Blocks(runs[i])) == {};
        assert SetOf(Expand(runs[..i + 1])) == SetOf(Expand(runs[..i]));
      } else {
        assert e == runs[i];
        FreeRun(fs, e, v, SetOf(Expand(runs[..i])));
        freed := freed + e.count;
      }
    }
    assert runs[..Limit(node)] == runs;
  }

  lemma ExpandNil()
    ensures Expand([]) == []
  {
  }

  lemma {:induction false} LeavesPrefix(node: seq<Byte>, n: nat, i: nat)
    requires 12 + 12 * n <= |node| && i <= n
    ensures Leaves(node, i) <= Leaves(node, n)
  {
    if i < n {
      LeavesPrefix(node, n - 1, i);
    }
  }

  lemma NextLeafFresh(geo: Geometry, v: Vol, node: seq<Byte>, n: nat, i: nat)
    requires Shape(geo, v) && 12 + 12 * n <= |node| && i < n && AllOwned(geo, v, Leaves(node, n))
    requires GetIndex(node, i).leaf != 0
    ensures var lb := GetIndex(node, i).leaf;
      Owned(geo, v, lb) && lb !in SetOf(Leaves(node, i))
      && SetOf(Leaves(node, i + 1)) == SetOf(Leaves(node, i)) + {lb}
  {
    hide Owned, Shape;
    LeavesPrefix(node, n, i + 1);
    var less, more, all := Leaves(node, i), Leaves(node, i + 1), Leaves(node, n);
    assert more == less + [GetIndex(node, i).leaf];
    assert all[|less|] == GetIndex(node, i).leaf;
    forall j | 0 <= j < |less| ensures less[j] != GetIndex(node, i).leaf {
      assert all[j] == less[j];
    }
  }

  /** The deeper half of free_extent_tree: the index entries' blocks are freed, not what they map. */
  method FreeLeaves(fs: Ext4, node: seq<Byte>)
    requires fs.Ready() && RootOk(node) && AllOwned(fs.geo, fs.State(), Leaves(node, Limit(node)))
    modifies fs
    ensures fs.Ready()
    ensures FreedAll(fs.geo, old(fs.State()), fs.State(), SetOf(Leaves(node, Limit(node))))
  {
    hide Valid, FreedAll, Owned, Shape, GetIndex;
    ghost var v := fs.State();
    ValidShape(fs.geo, v);
    FreedNone(fs.geo, v);
    assert SetOf(Leaves(node, 0)) == {};
    for i := 0 to Limit(node)
      invariant fs.Ready() && FreedAll(fs.geo, v, fs.State(), SetOf(Leaves(node, i)))
    {
      var lb := GetIndex(node, i).leaf;
      if lb != 0 {
        NextLeafFresh(fs.geo, v, node, Limit(node), i);
        FreeOwned(fs, lb, v, SetOf(Leaves(node, i)));
      } else {
        assert SetOf(Leaves(node, i + 1)) == SetOf(Leaves(node, i));
      }
    }
  }

  /** free_extent_tree: exactly `TreeBlocks` become free, which leaves out all data under an index root,
      and the inode is emptied. */
  method FreeExtentTree(fs: Ext4, raw: seq<Byte>) returns (out: seq<Byte>)
    requires fs.Ready() && |raw| == fs.geo.inodeSize >= 128 && RootOk(Root(raw))
    requires AllOwned(fs.geo, fs.State(), TreeBlocks(Root(raw)))
    modifies fs
    ensures fs.Ready()
    ensures FreedAll(fs.geo, old(fs.State()), fs.State(), SetOf(TreeBlocks(Root(raw))))
    ensures out == TreeFreed(fs.geo, raw)
  {
    hide Valid, FreedAll, Owned, Shape, Expand, AddSectors, Leaves, AllOwned;
    var node := Root(raw);
    if !HasMagic(node) || Entries(node) == 0 {
      FreedNone(fs.geo, fs.State());
      assert SetOf([]) == {};
      return raw;
    }
    var freed := 0;
    if Depth(node) == 0 {
      freed := FreeInline(fs, node);
    } else {
      FreeLeaves(fs, node);
      freed := Entries(node);
    }
    out := AddSectors(fs.geo, raw, 0 - Mul(freed, fs.geo.blockSize));
    out := WithRoot(out, Put16(Root(out), 2, 0));
    out := WithRoot(out, Put16(Root(out), 6, 0));
    assert Root(AddSectors(fs.geo, raw, 0 - Mul(freed, fs.geo.blockSize))) == node;
  }

  // ---------------- allocating many blocks ----------------

  /** `s` was free and now is in use; nothing else changed but `s` and the allocator's blocks. */
  ghost predicate TakenAll(geo: Geometry, v: Vol, r: Vol, s: set<nat>) {
    && Evolved(geo, v, r, s) && s <= FreeSet(geo, v)
    && FreeSet(geo, r) == FreeSet(geo, v) - s
    && forall b :: b in s ==> !Meta(geo, Locs(geo, v.gdt), b)
  }

  lemma TakenNone(geo: Geometry, v: Vol)
    requires Valid(geo, v)
    ensures TakenAll(geo, v, v, {})
  {
  }

  /** One more block taken, and then written. */
  lemma TakenOneMore(geo: Geometry, v: Vol, w: Vol, r: Vol, s: set<nat>, b: nat, data: Block)
    requires TakenAll(geo, v, w, s) && Allocated(geo, w, r, b) && |data| == geo.blockSize
    ensures b !in s && b < geo.blocksCount && Shape(geo, r) && |r.disk| == geo.blocksCount
    ensures TakenAll(geo, v, WriteBlock(r, b, data), s + {b})
    ensures forall x :: x in s ==> x < |w.disk| && r.disk[x] == w.disk[x]
  {
    hide Synced, Counted, MetaUsed;
    WriteBlockValid(geo, r, b, data);
  }

  function Chunk(data: seq<Byte>, blockSize: nat, j: nat): (c: seq<Byte>)
    requires Mul(j + 1, blockSize) <= |data|
    ensures |c| == blockSize
  {
    data[Mul(j, blockSize)..Mul(j, blockSize) + blockSize]
  }

  /** What file block `j` of an append gets: the caller's bytes, or zeros when there are none. */
  function Content(data: Option<seq<Byte>>, blockSize: nat, j: nat): (c: seq<Byte>)
    requires data.Some? ==> Mul(j + 1, blockSize) <= |data.value|
    ensures |c| == blockSize
  {
    if data.Some? then Chunk(data.value, blockSize, j) else Zeros(blockSize)
  }

  /** Disk block `blks[j]` holds file block `j` of the data. */
  ghost predicate Filled(disk: seq<Block>, blks: seq<nat>, data: Option<seq<Byte>>, blockSize: nat) {
    && (data.Some? ==> Mul(|blks|, blockSize) <= |data.value|)
    && forall j :: 0 <= j < |blks| ==> FilledAt(disk, blks[j], data, blockSize, j)
  }

  ghost predicate FilledAt(disk: seq<Block>, b: nat, data: Option<seq<Byte>>, blockSize: nat, j: nat) {
    && (data.Some? ==> Mul(j + 1, blockSize) <= |data.value|)
    && b < |disk| && disk[b] == Content(data, blockSize, j)
  }

  /** Byte `x` of the block holding file block `j`: the data's, or zero without data. */
  lemma FilledBytes(disk: seq<Block>, blks: seq<nat>, data: Option<seq<Byte>>, blockSize: nat, j: nat, x: nat)
    requires Filled(disk, blks, data, blockSize) && j < |blks| && x < blockSize
    ensures blks[j] < |disk| && |disk[blks[j]]| == blockSize
    ensures data.None? ==> disk[blks[j]][x] == 0
    ensures data.Some? ==> Mul(j, blockSize) + x < |data.value| && disk[blks[j]][x] == data.value[Mul(j, blockSize) + x]
  {
    assert FilledAt(disk, blks[j], data, blockSize, j);
    MulNext(j, blockSize);
  }

  lemma FilledOneMore(w: seq<Block>, r: seq<Block>, blks: seq<nat>, b: nat, data: Option<seq<Byte>>, blockSize: nat)
    requires Filled(w, blks, data, blockSize) && |w| == |r|
    requires forall x :: x in SetOf(blks) ==> x < |w| && r[x] == w[x]
    requires b < |r| && (data.Some? ==> Mul(|blks| + 1, blockSize) <= |data.value|)
    requires r[b] == Content(data, blockSize, |blks|)
    ensures Filled(r, blks + [b], data, blockSize)
  {
    hide Content;
    forall j | 0 <= j < |blks| + 1 ensures FilledAt(r, (blks + [b])[j], data, blockSize, j) {
      if j < |blks| {
        assert FilledAt(w, blks[j], data, blockSize, j);
        assert blks[j] in SetOf(blks);
      }
    }
  }

  /** The allocation loop of e4_append_blocks: each new block gets its data, and the runs collected
      are those of the blocks in order. Blocks taken before a failure stay taken. */
  method AllocateRuns(fs: Ext4, start: nat, count: nat, data: Option<seq<Byte>>)
    returns (ok: bool, runs: seq<Run>, ghost blks: seq<nat>)
    requires fs.Ready() && start + count < U32
    requires data.Some? ==> Mul(count, fs.geo.blockSize) <= |data.value|
    modifies fs
    ensures fs.Ready()
    ensures runs == RunsOf(start, blks) && Distinct(blks)
    ensures TakenAll(fs.geo, old(fs.State()), fs.State(), SetOf(blks))
    ensures Filled(fs.disk, blks, data, fs.geo.blockSize)
    ensures PickedFrom(fs.geo, old(fs.State()), start, blks) && (if ok then |blks| == count else |blks| < count)
    ensures AllCovered(fs.geo, start, count) ==>
      (ok <==> count <= |FreeSet(fs.geo, old(fs.State()))|) && (!ok ==> FreeSet(fs.geo, fs.State()) == {})
  {
    hide Valid, TakenAll, Allocated, SearchTakes, Shape, AllFullBefore, Content, RunsOf, AddBlock, PickedFrom, FreeSet,
         Covers, HintFor;
    ghost var v := fs.State();
    TakenNone(fs.geo, v);
    ValidShape(fs.geo, v);
    NothingPicked(fs.geo, v, start);
    runs, blks := [], [];
    assert SetOf(blks) == {} && RunsOf(start, []) == [] by { RunsOfNil(start); }
    var done := 0;
    while done < count
      invariant fs.Ready() && 0 <= done == |blks| <= count
      invariant runs == RunsOf(start, blks) && Distinct(blks)
      invariant TakenAll(fs.geo, v, fs.State(), SetOf(blks))
      invariant Filled(fs.disk, blks, data, fs.geo.blockSize)
      invariant PickedFrom(fs.geo, v, start, blks)
    {
      ghost var w := fs.State();
      ValidShape(fs.geo, w);
      ShapePositive(fs.geo, w);
      MulMono(done + 1, count, fs.geo.blockSize);
      var got, blk := fs.AllocBlockNear(HintFor(fs.geo, start + done));
      if !got {
        if AllCovered(fs.geo, start, count) {
          RanOut(fs.geo, v, w, HintFor(fs.geo, start + done), blks);
        }
        return false, runs, blks;
      }
      ghost var r := fs.State();
      PickedOneMore(fs.geo, v, w, r, start, blks, blk);
      fs.scratch2 := Content(data, fs.geo.blockSize, done);
      TakenOneMore(fs.geo, v, w, r, SetOf(blks), blk, fs.scratch2);
      fs.disk := fs.disk[blk := fs.scratch2];
      assert fs.State() == WriteBlock(r, blk, fs.scratch2);
      FilledOneMore(w.disk, fs.disk, blks, blk, data, fs.geo.blockSize);
      assert SetOf(blks) + {blk} == SetOf(blks + [blk]);
      TakenValid(fs.geo, v, fs.State(), SetOf(blks + [blk]));
      RunsOfStep(start, blks, blk);
      runs := AddBlock(runs, blk, start + done);
      blks := blks + [blk];
      done := done + 1;
    }
    TakenFit(fs.geo, v, fs.State(), blks);
    ok := true;
  }

  lemma NothingPicked(geo: Geometry, v: Vol, start: nat)
    requires Shape(geo, v)
    ensures PickedFrom(geo, v, start, [])
  {
  }

  lemma PickedOneMore(geo: Geometry, v: Vol, w: Vol, r: Vol, start: nat, blks: seq<nat>, b: nat)
    requires Shape(geo, v) && TakenAll(geo, v, w, SetOf(blks)) && PickedFrom(geo, v, start, blks) && geo.Ok()
    requires Shape(geo, w) && Allocated(geo, w, r, b) && SearchTakes(geo, w, r, HintFor(geo, start + |blks|), b)
    ensures PickedFrom(geo, v, start, blks + [b])
  {
    hide Valid, Picked, IsPick, HintFor, SearchTakes, Allocated, Shape;
    TakenValid(geo, v, w, SetOf(blks));
    FreeOnVolume(geo, v);
    SearchPicks(geo, w, r, HintFor(geo, start + |blks|), b);
    PickedStep(geo, FreeSet(geo, v), start, blks, b);
  }

  /** A search that covers the groups fails only when the blocks taken so far were all there were. */
  lemma RanOut(geo: Geometry, v: Vol, w: Vol, hint: nat, blks: seq<nat>)
    requires Shape(geo, v) && Shape(geo, w) && TakenAll(geo, v, w, SetOf(blks)) && Distinct(blks)
    requires hint < U32 && Covers(geo, hint) && AllFullBefore(geo, w, hint, geo.groupCount)
    ensures FreeSet(geo, w) == {} && |FreeSet(geo, v)| == |blks|
  {
    hide Valid, Shape, FreeSet, AllFullBefore;
    TakenValid(geo, v, w, SetOf(blks));
    FailureMeansFull(geo, w, hint);
    TakenFit(geo, v, w, blks);
  }

  lemma TakenFit(geo: Geometry, v: Vol, w: Vol, blks: seq<nat>)
    requires Shape(geo, v) && TakenAll(geo, v, w, SetOf(blks)) && Distinct(blks)
    ensures Shape(geo, w) && |FreeSet(geo, w)| + |blks| == |FreeSet(geo, v)|
  {
    hide Valid, FreeSet;
    TakenValid(geo, v, w, SetOf(blks));
    ValidShape(geo, w);
    DistinctCard(blks);
    assert FreeSet(geo, v) == FreeSet(geo, w) + SetOf(blks) && FreeSet(geo, w) !! SetOf(blks);
  }

  lemma RunsOfNil(start: nat)
    ensures RunsOf(start, []) == []
  {
  }

  lemma RunsOfStep(start: nat, blks: seq<nat>, b: nat)
    ensures RunsOf(start, blks + [b]) == AddBlock(RunsOf(start, blks), b, start + |blks|)
  {
    assert (blks + [b])[..|blks|] == blks;
  }

  lemma ShapePositive(geo: Geometry, v: Vol)
    requires Shape(geo, v)
    ensures geo.Ok() && 0 < geo.blocksPerGroup && |v.disk| == geo.blocksCount
  {
  }

  lemma TakenValid(geo: Geometry, v: Vol, r: Vol, s: set<nat>)
    requires TakenAll(geo, v, r, s)
    ensures Valid(geo, v) && Valid(geo, r)
  {
  }

  // ---------------- building the tree ----------------

  /** The inode's root is an inline tree holding exactly these runs. */
  ghost predicate InlineTree(raw: seq<Byte>, runs: seq<Run>) {
    128 <= |raw| && HeaderIs(Root(raw), |runs|, ROOT_MAX, 0) && Holds(Root(raw), runs)
  }

  lemma HoldsFilled(node: seq<Byte>, full: seq<Byte>, runs: seq<Run>, from: nat, n: nat)
    requires 12 <= |node| == |full| && 12 + 12 * n <= |node| && from + n <= |runs|
    requires Entries(node) == n
    requires forall i :: 0 <= i < n ==> GetExtent(full, i) == Stored(runs[from + i])
    requires forall j :: 0 <= j < 12 ==> full[j] == node[j]
    ensures Holds(full, runs[from..from + n])
    ensures forall max: nat, depth: nat :: HeaderIs(node, n, max, depth) ==> HeaderIs(full, n, max, depth)
  {
    hide GetExtent, Stored;
    forall i | 0 <= i < n ensures GetExtent(full, i) == Stored(runs[from..from + n][i]) {
      assert runs[from..from + n][i] == runs[from + i];
    }
  }

  ghost predicate SameOutsideRoot(a: seq<Byte>, b: seq<Byte>) {
    128 <= |a| == |b| && forall j :: 0 <= j < |a| && (j < 40 || 100 <= j) ==> a[j] == b[j]
  }

  lemma AddSectorsOutsideRoot(geo: Geometry, a: seq<Byte>, b: seq<Byte>, delta: int)
    requires SameOutsideRoot(a, b)
    ensures SameOutsideRoot(AddSectors(geo, a, delta), AddSectors(geo, b, delta))
    ensures Root(AddSectors(geo, a, delta)) == Root(a)
  {
  }

  /** The inline half of build_tree. */
  method BuildInline(raw: seq<Byte>, runs: seq<Run>) returns (out: seq<Byte>)
    requires 128 <= |raw| && |runs| <= ROOT_MAX
    ensures |out| == |raw| && InlineTree(out, runs) && RootOk(Root(out))
    ensures forall j :: 0 <= j < |raw| && (j < 40 || 100 <= j) ==> out[j] == raw[j]
  {
    hide GetExtent, Stored, PutHeader;
    var head := PutHeader(Root(raw), |runs|, ROOT_MAX, 0);
    var node := FillExtents(head, runs, 0, |runs|);
    HoldsFilled(head, node, runs, 0, |runs|);
    assert runs[0..0 + |runs|] == runs;
    out := WithRoot(raw, node);
  }

  /** write_leaf: a fresh block holding the runs from `from` on. */
  method WriteLeaf(fs: Ext4, runs: seq<Run>, from: nat, n: nat, ghost v: Vol, ghost s: set<nat>)
    returns (ok: bool, blk: nat)
    requires fs.Ready() && from + n <= |runs| && fs.geo.Ok() && n <= LeafCap(fs.geo)
    requires TakenAll(fs.geo, v, fs.State(), s)
    modifies fs
    ensures fs.Ready()
    ensures !ok ==> TakenAll(fs.geo, v, fs.State(), s) && FreeSet(fs.geo, fs.State()) == {}
    ensures ok ==> TakenAll(fs.geo, v, fs.State(), s + {blk}) && blk !in s
    ensures ok ==> blk < fs.geo.blocksCount == |fs.disk| && Holds(fs.disk[blk], runs[from..from + n])
    ensures ok ==> HeaderIs(fs.disk[blk], n, LeafCap(fs.geo), 0)
    ensures ok ==> forall x :: x in s ==> x < |old(fs.disk)| && x < |fs.disk| && fs.disk[x] == old(fs.disk)[x]
  {
    hide Valid, TakenAll, Allocated, SearchTakes, Shape, AllFullBefore, GetExtent, Stored, Holds, HeaderIs;
    ghost var w := fs.State();
    ValidShape(fs.geo, w);
    ShapePositive(fs.geo, w);
    ok, blk := fs.AllocBlockNear(0);
    if !ok {
      FailureMeansFull(fs.geo, w, 0);
      return;
    }
    ghost var r := fs.State();
    var head := PutHeader(Zeros(fs.geo.blockSize), n, LeafCap(fs.geo), 0);
    fs.scratch1 := FillExtents(head, runs, from, n);
    HoldsFilled(head, fs.scratch1, runs, from, n);
    TakenOneMore(fs.geo, v, w, r, s, blk, fs.scratch1);
    ShapePositive(fs.geo, r);
    fs.disk := fs.disk[blk := fs.scratch1];
    assert fs.State() == WriteBlock(r, blk, fs.scratch1);
    TakenValid(fs.geo, v, fs.State(), s + {blk});
  }

  /** The first `l` leaves are written. */
  ghost predicate LeavesWritten(disk: seq<Block>, blks: seq<nat>, runs: seq<Run>, cap: nat, l: nat) {
    && cap > 0 && l <= |blks| && l <= LeafCount(|runs|, cap)
    && forall k :: 0 <= k < l ==> LeafWritten(disk, blks[k], runs, cap, k)
  }

  ghost predicate LeafWritten(disk: seq<Block>, b: nat, runs: seq<Run>, cap: nat, k: nat)
    requires cap > 0 && k < LeafCount(|runs|, cap)
  {
    LeafStart(|runs|, cap, k);
    && b < |disk| && HeaderIs(disk[b], LeafEnd(|runs|, cap, k) - Mul(k, cap), cap, 0)
    && Holds(disk[b], runs[Mul(k, cap)..LeafEnd(|runs|, cap, k)])
  }

  lemma LeavesOneMore(a: seq<Block>, b: seq<Block>, blks: seq<nat>, blk: nat, runs: seq<Run>, cap: nat)
    requires LeavesWritten(a, blks, runs, cap, |blks|) && |a| == |b| && |blks| < LeafCount(|runs|, cap)
    requires forall x :: x in SetOf(blks) ==> x < |a| && b[x] == a[x]
    requires LeafWritten(b, blk, runs, cap, |blks|)
    ensures LeavesWritten(b, blks + [blk], runs, cap, |blks| + 1)
  {
    hide Holds, Mul;
    forall k | 0 <= k < |blks| + 1 ensures LeafWritten(b, (blks + [blk])[k], runs, cap, k) {
      if k < |blks| {
        assert LeafWritten(a, blks[k], runs, cap, k);
        assert blks[k] in SetOf(blks);
      }
    }
  }

  /** The sector count after `n` more blocks. */
  function AddBlocks(geo: Geometry, raw: seq<Byte>, n: nat): (r: seq<Byte>)
    requires 128 <= |raw|
    ensures |r| == |raw|
    ensures forall j :: 0 <= j < |raw| && !SectorByte(geo, j) ==> r[j] == raw[j]
  {
    if n == 0 then raw else AddSectors(geo, AddBlocks(geo, raw, n - 1), geo.blockSize)
  }

  /** The leaf loop of build_tree. */
  method WriteLeaves(fs: Ext4, raw: seq<Byte>, runs: seq<Run>, leaves: nat)
    returns (ok: bool, out: seq<Byte>, blks: seq<nat>)
    requires fs.Ready() && fs.geo.Ok() && 128 <= |raw| && leaves == LeafCount(|runs|, LeafCap(fs.geo))
    modifies fs
    ensures fs.Ready()
    ensures TakenAll(fs.geo, old(fs.State()), fs.State(), SetOf(blks)) && Distinct(blks)
    ensures ok <==> leaves <= |FreeSet(fs.geo, old(fs.State()))|
    ensures !ok ==> FreeSet(fs.geo, fs.State()) == {}
    ensures ok ==> |blks| == leaves && LeavesWritten(fs.disk, blks, runs, LeafCap(fs.geo), leaves)
    ensures ok ==> forall b :: b in blks ==> b < fs.geo.blocksCount
    ensures ok ==> out == AddBlocks(fs.geo, raw, leaves)
  {
    hide Valid, TakenAll, Shape, Holds, AddSectors, Mul, LeafWritten, FreeSet, HeaderIs;
    var cap, n := LeafCap(fs.geo), |runs|;
    ghost var v := fs.State();
    ValidShape(fs.geo, v);
    TakenNone(fs.geo, v);
    blks, out := [], raw;
    assert SetOf(blks) == {};
    var written := 0;
    MulZero(cap);
    for l := 0 to leaves
      invariant fs.Ready() && |blks| == l && Distinct(blks)
      invariant TakenAll(fs.geo, v, fs.State(), SetOf(blks))
      invariant LeavesWritten(fs.disk, blks, runs, cap, l)
      invariant l < leaves ==> written == Mul(l, cap)
      invariant forall b :: b in blks ==> b < fs.geo.blocksCount
      invariant out == AddBlocks(fs.geo, raw, l)
    {
      LeafStart(n, cap, l);
      ghost var w := fs.disk;
      ValidShape(fs.geo, fs.State());
      ShapePositive(fs.geo, fs.State());
      var here := if n - written < cap then n - written else cap;
      var got, blk := WriteLeaf(fs, runs, written, here, v, SetOf(blks));
      if !got {
        TakenFit(fs.geo, v, fs.State(), blks);
        return false, raw, blks;
      }
      LeafWrittenIs(fs.disk, blk, runs, cap, l);
      LeavesOneMore(w, fs.disk, blks, blk, runs, cap);
      assert SetOf(blks) + {blk} == SetOf(blks + [blk]);
      blks := blks + [blk];
      written := written + here;
      out := AddSectors(fs.geo, out, fs.geo.blockSize);
    }
    TakenFit(fs.geo, v, fs.State(), blks);
    ok := true;
  }

  lemma MulZero(d: nat)
    ensures Mul(0, d) == 0
  {
  }

  lemma LeafWrittenIs(disk: seq<Block>, b: nat, runs: seq<Run>, cap: nat, k: nat)
    requires cap > 0 && k < LeafCount(|runs|, cap) && b < |disk|
    requires Mul(k, cap) <= LeafEnd(|runs|, cap, k) <= |runs|
    requires HeaderIs(disk[b], LeafEnd(|runs|, cap, k) - Mul(k, cap), cap, 0)
    requires Holds(disk[b], runs[Mul(k, cap)..LeafEnd(|runs|, cap, k)])
    ensures LeafWritten(disk, b, runs, cap, k)
  {
  }

  /** The index loop of build_tree: entry `l` is keyed by the first file block of leaf `l`. */
  method FillIndex(node: seq<Byte>, runs: seq<Run>, blks: seq<nat>, cap: nat) returns (r: seq<Byte>)
    requires cap > 0 && |blks| == LeafCount(|runs|, cap) && 12 + 12 * |blks| <= |node|
    requires forall b :: b in blks ==> b < 0x1_0000_0000_0000
    requires forall i :: 0 <= i < |runs| ==> runs[i].first < U32
    ensures |r| == |node| && forall j :: 0 <= j < 12 ==> r[j] == node[j]
    ensures forall l :: 0 <= l < |blks| ==> Mul(l, cap) < |runs| && GetIndex(r, l) == Index(runs[Mul(l, cap)].first, blks[l])
  {
    hide GetIndex, PutIndex, Mul;
    var n, written := |runs|, 0;
    MulZero(cap);
    r := node;
    for l := 0 to |blks|
      invariant |r| == |node| && forall j :: 0 <= j < 12 ==> r[j] == node[j]
      invariant l < |blks| ==> written == Mul(l, cap)
      invariant forall k :: 0 <= k < l ==> Mul(k, cap) < n && GetIndex(r, k) == Index(runs[Mul(k, cap)].first, blks[k])
    {
      LeafStart(n, cap, l);
      assert blks[l] in blks;
      var was, x := r, Index(runs[written].first, blks[l]);
      r := PutIndex(r, l, x);
      PutIndexReads(was, l, x);
      forall k | 0 <= k < l ensures GetIndex(r, k) == GetIndex(was, k) {
        GetIndexSame(r, was, k);
      }
      written := written + (if n - written < cap then n - written else cap);
    }
  }

  lemma TreeBuilt(disk: seq<Block>, root: seq<Byte>, runs: seq<Run>, blks: seq<nat>, cap: nat)
    requires LeavesWritten(disk, blks, runs, cap, |blks|) && |blks| == LeafCount(|runs|, cap)
    requires 12 <= |root| && 12 + 12 * |blks| <= |root| && Entries(root) == |blks|
    requires forall l :: 0 <= l < |blks| ==> Mul(l, cap) < |runs| && GetIndex(root, l) == Index(runs[Mul(l, cap)].first, blks[l])
    ensures TreeHolds(disk, root, runs, cap)
  {
    hide Holds, Mul, GetIndex;
    forall l | 0 <= l < |blks| ensures LeafHolds(disk, GetIndex(root, l), runs, cap, l) {
      assert LeafWritten(disk, blks[l], runs, cap, l);
    }
  }

  /** build_tree: an inline root for up to four runs, otherwise one level of leaves under it.
      Too many leaves, or no block for one, is a failure. */
  method BuildTree(fs: Ext4, raw: seq<Byte>, runs: seq<Run>) returns (ok: bool, out: seq<Byte>, blks: seq<nat>)
    requires fs.Ready() && fs.geo.Ok() && 128 <= |raw| && Addressable(runs)
    modifies fs
    ensures fs.Ready()
    ensures TakenAll(fs.geo, old(fs.State()), fs.State(), SetOf(blks)) && Distinct(blks)
    ensures |out| == |raw|
    ensures ok <==> TreeFits(fs.geo, |runs|, |FreeSet(fs.geo, old(fs.State()))|)
    ensures !ok ==> if TooDeep(fs.geo, |runs|) then blks == [] else FreeSet(fs.geo, fs.State()) == {}
    ensures |runs| <= ROOT_MAX ==> fs.State() == old(fs.State()) && blks == [] && InlineTree(out, runs)
    ensures |runs| <= ROOT_MAX ==> SameOutsideRoot(out, raw)
    ensures |runs| > ROOT_MAX && ok ==>
      && HeaderIs(Root(out), |blks|, ROOT_MAX, 1)
      && TreeHolds(fs.disk, Root(out), runs, LeafCap(fs.geo))
      && |blks| == LeafCount(|runs|, LeafCap(fs.geo)) <= ROOT_MAX
      && (forall l :: 0 <= l < |blks| ==> GetIndex(Root(out), l).leaf == blks[l])
      && SameOutsideRoot(out, AddBlocks(fs.geo, raw, |blks|))
  {
    hide Valid, TakenAll, Shape, Holds, AddSectors, Mul, GetIndex, LeavesWritten, TreeHolds;
    assert SetOf([]) == {};
    if |runs| <= ROOT_MAX {
      out := BuildInline(raw, runs);
      TakenNone(fs.geo, fs.State());
      return true, out, [];
    }
    var leaves := LeafCount(|runs|, LeafCap(fs.geo));
    if leaves > ROOT_MAX {
      TakenNone(fs.geo, fs.State());
      return false, raw, [];
    }
    ok, out, blks := WriteLeaves(fs, raw, runs, leaves);
    if !ok {
      return false, raw, blks;
    }
    var head := PutHeader(Root(out), leaves, ROOT_MAX, 1);
    GeoBound(fs.geo);
    var node := FillIndex(head, runs, blks, LeafCap(fs.geo));
    assert HeaderIs(node, leaves, ROOT_MAX, 1);
    TreeBuilt(fs.disk, node, runs, blks, LeafCap(fs.geo));
    out := WithRoot(out, node);
  }

  lemma GeoBound(geo: Geometry)
    requires geo.Ok()
    ensures geo.blocksCount < 0x1_0000_0000_0000
  {
  }

  lemma TakenTwice(geo: Geometry, v: Vol, w: Vol, r: Vol, s: set<nat>, t: set<nat>)
    requires TakenAll(geo, v, w, s) && TakenAll(geo, w, r, t)
    ensures TakenAll(geo, v, r, s + t) && s !! t
    ensures |r.disk| == |w.disk| && forall x :: x in s ==> x < |w.disk| && r.disk[x] == w.disk[x]
  {
    hide Synced, Counted, MetaUsed;
  }

  lemma FilledKept(w: seq<Block>, r: seq<Block>, blks: seq<nat>, data: Option<seq<Byte>>, blockSize: nat)
    requires Filled(w, blks, data, blockSize) && |r| == |w|
    requires forall x :: x in SetOf(blks) ==> x < |w| && r[x] == w[x]
    ensures Filled(r, blks, data, blockSize)
  {
    hide Content;
    forall j | 0 <= j < |blks| ensures FilledAt(r, blks[j], data, blockSize, j) {
      assert FilledAt(w, blks[j], data, blockSize, j) && blks[j] in SetOf(blks);
    }
  }

  lemma RunsAddressable(start: nat, blks: seq<nat>)
    requires start + |blks| < U32 && forall b :: b in blks ==> b < 0x1_0000_0000_0000
    ensures Addressable(RunsOf(start, blks))
  {
    hide RunsOf, Expand;
    var runs := RunsOf(start, blks);
    RunsOfEncodes(start, blks);
    forall i | 0 <= i < |runs|
      ensures runs[i].first + runs[i].count < U32 && runs[i].start < 0x1_0000_0000_0000
    {
      EndsByEnd(runs, start, i);
      ExpandAt(runs, start, i, runs[i].first);
      assert blks[runs[i].first - start] in blks;
    }
  }

  lemma TakenBound(geo: Geometry, v: Vol, r: Vol, blks: seq<nat>)
    requires TakenAll(geo, v, r, SetOf(blks))
    ensures geo.Ok() && forall b :: b in blks ==> b < geo.blocksCount < 0x1_0000_0000_0000
  {
    hide Synced, Counted, MetaUsed, LocsOk;
    forall b | b in blks ensures b < geo.blocksCount {
      assert b in SetOf(blks);
    }
  }

  /** The inode's root indexes these leaf blocks, and the leaves hold the runs. */
  ghost predicate DeepTree(geo: Geometry, disk: seq<Block>, out: seq<Byte>, runs: seq<Run>, leaves: seq<nat>)
    requires geo.Ok() && 128 <= |out|
  {
    && HeaderIs(Root(out), |leaves|, ROOT_MAX, 1)
    && TreeHolds(disk, Root(out), runs, LeafCap(geo))
    && |leaves| == LeafCount(|runs|, LeafCap(geo)) <= ROOT_MAX
    && forall l :: 0 <= l < |leaves| ==> GetIndex(Root(out), l).leaf == leaves[l]
  }

  /** What a successful append leaves in the inode and on disk for the blocks `blks`. */
  ghost predicate Appended(geo: Geometry, disk: seq<Block>, raw: seq<Byte>, out: seq<Byte>, start: nat,
                           blks: seq<nat>, leaves: seq<nat>)
    requires geo.Ok() && 128 <= |raw|
  {
    var runs := RunsOf(start, blks);
    && |out| == |raw|
    && SameOutsideRoot(out, AddSectors(geo, AddBlocks(geo, raw, |leaves|), Mul(|blks|, geo.blockSize)))
    && if |runs| <= ROOT_MAX
       then leaves == [] && InlineTree(out, runs)
       else DeepTree(geo, disk, out, runs, leaves)
  }

  lemma NothingSet()
    ensures SetOf([]) == {} && Distinct([])
  {
  }

  /** With its data blocks taken, an append fits exactly when the tree over them does. */
  lemma AppendFitsIs(geo: Geometry, v: Vol, w: Vol, start: nat, count: nat, blks: seq<nat>)
    requires Shape(geo, v) && geo.Ok() && TakenAll(geo, v, w, SetOf(blks)) && Distinct(blks)
    requires PickedFrom(geo, v, start, blks)
    ensures Shape(geo, w)
    ensures |blks| == count ==> (AppendFits(geo, v, start, count) <==> TreeFits(geo, |RunsOf(start, blks)|, |FreeSet(geo, w)|))
    ensures |FreeSet(geo, v)| < count ==> !AppendFits(geo, v, start, count)
  {
    hide TakenAll, Picked, RunsOf, TreeFits, FreeSet;
    FreeOnVolume(geo, v);
    TakenFit(geo, v, w, blks);
    WillFitIs(geo, FreeSet(geo, v), start, blks);
  }

  /** e4_append_blocks. Blocks taken before a failure are not given back. */
  method AppendBlocks(fs: Ext4, raw: seq<Byte>, start: nat, count: nat, data: Option<seq<Byte>>)
    returns (ok: bool, out: seq<Byte>, ghost blks: seq<nat>, ghost leaves: seq<nat>)
    requires fs.Ready() && fs.geo.Ok() && 128 <= |raw| && start + count < U32
    requires data.Some? ==> Mul(count, fs.geo.blockSize) <= |data.value|
    modifies fs
    ensures fs.Ready()
    ensures TakenAll(fs.geo, old(fs.State()), fs.State(), SetOf(blks) + SetOf(leaves))
    ensures Distinct(blks) && Distinct(leaves) && SetOf(blks) !! SetOf(leaves)
    ensures |out| == |raw|
    ensures PickedFrom(fs.geo, old(fs.State()), start, blks) && Filled(fs.disk, blks, data, fs.geo.blockSize)
    ensures AllCovered(fs.geo, start, count) ==> (ok <==> AppendFits(fs.geo, old(fs.State()), start, count))
    ensures AllCovered(fs.geo, start, count) && !ok ==>
      FreeSet(fs.geo, fs.State()) == {} || (|blks| == count && leaves == [] && TooDeep(fs.geo, |RunsOf(start, blks)|))
    ensures ok ==> |blks| == count
    ensures ok ==> Appended(fs.geo, fs.disk, raw, out, start, blks, leaves)
  {
    hide Valid, TakenAll, Shape, Holds, AddSectors, Mul, Filled, TreeHolds, RunsOf, Distinct, PickedFrom, AppendFits,
         FreeSet, TreeFits, AllCovered;
    ghost var v := fs.State();
    ValidShape(fs.geo, v);
    var runs: seq<Run>;
    ok, runs, blks := AllocateRuns(fs, start, count, data);
    AppendFitsIs(fs.geo, v, fs.State(), start, count, blks);
    leaves := [];
    NothingSet();
    assert SetOf(blks) + SetOf(leaves) == SetOf(blks);
    if !ok {
      return false, raw, blks, leaves;
    }
    ghost var w := fs.State();
    TakenBound(fs.geo, v, w, blks);
    RunsAddressable(start, blks);
    var more: seq<nat>;
    ok, out, more := BuildTree(fs, raw, runs);
    leaves := more;
    TakenTwice(fs.geo, v, w, fs.State(), SetOf(blks), SetOf(leaves));
    FilledKept(w.disk, fs.disk, blks, data, fs.geo.blockSize);
    if ok {
      AddSectorsOutsideRoot(fs.geo, out, AddBlocks(fs.geo, raw, |leaves|), Mul(count, fs.geo.blockSize));
      out := AddSectors(fs.geo, out, Mul(count, fs.geo.blockSize));
    }
  }
}
