/** A small volume: one group of 24 blocks of 1024 bytes. Block 1 is the superblock's, block 2 holds the
    descriptor, 3 and 4 the bitmaps, 5 the eight inodes, and the rest is for files. On it a replacement
    that fails loses its file, and an append gets blocks that truncation does not give back. */
module Sample {
  import opened Bytes
  import opened Arith
  import opened Volume
  import opened Driver
  import opened Inodes
  import opened Runs
  import opened Extents
  import opened Plan
  import opened Files
  import opened Release
  import opened ReadWrite

  function Geo(): Geometry {
    Geometry(1024, 25, 24, 1, 1, 32, false, 8, 128, 8, false)
  }

  function Desc(count: Byte): seq<Byte> {
    [3, 0, 0, 0, 4, 0, 0, 0, 5, 0, 0, 0, count, 0, 0, 0] + Zeros(16)
  }

  function Disk(count: Byte, bm: Block, table: Block): (disk: seq<Block>)
    ensures |disk| == 25
  {
    var zero := Zeros(1024);
    [zero, zero, Desc(count) + Zeros(992), bm, zero, table] + seq(19, _ => zero)
  }

  function Image(count: Byte, bm: Block, table: Block): Vol {
    Vol(Disk(count, bm, table), [Desc(count)], count as int, 0)
  }

  /** Sets the first three bytes of the bitmap: the bits of blocks 1 to 24. */
  function Bitmap(a: Byte, b: Byte, c: Byte): (bm: Block)
    ensures |bm| == 1024
  {
    [a, b, c] + Zeros(1021)
  }

  // ---------------- the volume is valid ----------------

  lemma GeoOk()
    ensures Geo().Ok() && Geo().PerBlock() == 32 && Geo().GdtBlock(0) == 2 && Geo().SlotOff(0) == 0
    ensures Geo().TableLen() == 1 && Geo().GroupBits(0) == 24
  {
    DivModAreBuiltIn(47, 24);
    MulIsProduct(1, 8);
    DivModAreBuiltIn(1024, 32);
    DivModAreBuiltIn(0, 32);
    MulIsProduct(0, 32);
    MulIsProduct(8, 128);
    DivModAreBuiltIn(2047, 1024);
    MulIsProduct(0, 24);
  }

  lemma Places(b: nat)
    requires 1 <= b < 25
    ensures Geo().Ok() && Geo().GroupOf(b) == 0 && Geo().IndexOf(b) == b - 1
  {
    GeoOk();
    DivModAreBuiltIn(b - 1, 24);
  }

  lemma ImageShape(count: Byte, bm: Block, table: Block)
    requires |bm| == 1024 && |table| == 1024
    ensures Shape(Geo(), Image(count, bm, table))
    ensures Locs(Geo(), Image(count, bm, table).gdt) == [Loc(3, 4, 5)]
  {
    GeoOk();
    hide Geometry.Ok, Geometry.TableLen, Geometry.GdtBlock;
    assert LocOf(Geo(), Desc(count)) == Loc(3, 4, 5);
  }

  predicate IsClear(bm: Block, b: nat)
    requires |bm| == 1024 && 1 <= b < 25
  {
    !BitAt(bm, b - 1)
  }

  ghost function ClearBlocks(bm: Block): set<nat>
    requires |bm| == 1024
  {
    set b | 1 <= b < 25 && IsClear(bm, b)
  }

  lemma ImageFree(count: Byte, bm: Block, table: Block)
    requires |bm| == 1024 && |table| == 1024
    ensures Shape(Geo(), Image(count, bm, table)) && FreeSet(Geo(), Image(count, bm, table)) == ClearBlocks(bm)
  {
    hide Geometry.Ok, Shape, LocsOk, DiskOk;
    ImageShape(count, bm, table);
    forall b | 1 <= b < 25 ensures Geo().Ok() && Geo().GroupOf(b) == 0 && Geo().IndexOf(b) == b - 1 {
      Places(b);
    }
  }

  lemma ImageMeta(count: Byte, bm: Block, table: Block)
    requires |bm| == 1024 && |table| == 1024
    ensures Shape(Geo(), Image(count, bm, table))
    ensures forall b: nat :: Meta(Geo(), Locs(Geo(), Image(count, bm, table).gdt), b) <==> b < 6
  {
    GeoOk();
    ImageShape(count, bm, table);
    hide Geometry.Ok, Geometry.TableLen, Geometry.GdtBlock, Shape, Image;
    assert forall g :: 0 <= g < 1 ==> [Loc(3, 4, 5)][g] == Loc(3, 4, 5);
    var locs := [Loc(3, 4, 5)];
    assert IsBitmap(locs, 3) by {
      assert locs[0].bitmap == 3;
    }
    assert IsInodeBitmap(locs, 4) by {
      assert locs[0].inodeBitmap == 4;
    }
    assert IsTable(Geo(), locs, 5) by {
      assert InTable(Geo(), locs[0], 5);
    }
  }

  lemma ImageCounted(count: Byte, bm: Block, table: Block)
    requires |bm| == 1024 && |table| == 1024 && ClearCount(bm, 24) == count as int
    ensures Shape(Geo(), Image(count, bm, table))
    ensures Synced(Geo(), Image(count, bm, table)) && Counted(Geo(), Image(count, bm, table))
  {
    hide Geometry.Ok, LocsOk, ClearCount;
    GeoOk();
    ImageShape(count, bm, table);
    var v := Image(count, bm, table);
    assert v.disk[2][0..32] == Desc(count);
    assert SumFree(Geo(), Locs(Geo(), v.gdt), v.disk, 1) == GroupFree(Geo(), Locs(Geo(), v.gdt), v.disk, 0);
  }

  /** Valid as soon as the metadata blocks are marked and the counter is right. */
  lemma ImageValid(count: Byte, bm: Block, table: Block)
    requires |bm| == 1024 && |table| == 1024 && ClearCount(bm, 24) == count as int
    requires forall i :: 0 <= i < 5 ==> BitAt(bm, i)
    ensures Valid(Geo(), Image(count, bm, table))
  {
    hide Geometry.Ok, Shape, Synced, Counted, Meta, FreeSet, ClearCount, BitAt;
    ImageMeta(count, bm, table);
    ImageFree(count, bm, table);
    ImageCounted(count, bm, table);
  }

  // ---------------- a replacement that fails ----------------

  /** An extent-mapped inode whose only block is 6. */
  function FileInode(): (raw: seq<Byte>)
    ensures |raw| == 128
  {
    Zeros(32) + [0, 0, 8, 0, 0, 0, 0, 0]
    + [0x0A, 0xF3, 1, 0, 4, 0, 0, 0, 0, 0, 0, 0] + [0, 0, 0, 0, 1, 0, 0, 0, 6, 0, 0, 0] + Zeros(64)
  }

  lemma FileInodeMaps()
    ensures ExtentMapped(FileInode()) && RootOk(Root(FileInode())) && TreeBlocks(Root(FileInode())) == [6]
  {
    var root := Root(FileInode());
    assert HasMagic(root) && Entries(root) == 1 && Depth(root) == 0;
    assert GetExtent(root, 0) == Run(6, 0, 1);
    var runs := EntryRuns(root, 1);
    assert runs == [EntryRun(root, 0)] && runs[..0] == [];
    assert Blocks(runs[0]) == [6];
  }

  /** No block is free, and inode 1 is that file. */
  function FullVolume(): Vol {
    Image(0, Bitmap(255, 255, 255), FileInode() + Zeros(896))
  }

  lemma FullBits(i: nat)
    requires i < 24
    ensures BitAt(Bitmap(255, 255, 255), i)
  {
    OnesAreSet(8, i % 8);
    assert Pow2(8) == 256;
  }

  lemma FullVolumeValid()
    ensures Valid(Geo(), FullVolume()) && FreeSet(Geo(), FullVolume()) == {}
    ensures IsIno(Geo(), 1) && RawAt(Geo(), Locs(Geo(), FullVolume().gdt), FullVolume().disk, 1) == FileInode()
  {
    hide BitAt, ClearCount, FreeSet, Valid, Image, Bitmap, RawAt, FileInode;
    var bm, table := Bitmap(255, 255, 255), FileInode() + Zeros(896);
    forall i | 0 <= i < 24 ensures BitAt(bm, i) {
      FullBits(i);
    }
    ClearCountZero(bm, 24);
    ImageValid(0, bm, table);
    ImageFree(0, bm, table);
    FirstInode(0, bm, table);
    assert table[..128] == FileInode();
  }

  lemma FirstInode(count: Byte, bm: Block, table: Block)
    requires |bm| == 1024 && |table| == 1024
    ensures Shape(Geo(), Image(count, bm, table)) && IsIno(Geo(), 1)
    ensures RawAt(Geo(), Locs(Geo(), Image(count, bm, table).gdt), Image(count, bm, table).disk, 1) == table[..128]
  {
    hide Geometry.Ok, LocsOk;
    ImageShape(count, bm, table);
    GeoOk();
    DivModAreBuiltIn(0, 8);
    DivModAreBuiltIn(0, 1024);
    MulIsProduct(0, 128);
  }

  lemma FullVolumeUnfit()
    ensures Shape(Geo(), FullVolume()) && AllOwned(Geo(), FullVolume(), [6])
    ensures CeilDiv(2048, 1024) == 2 && Mul(2, 1024) == 2048
    ensures !ReplaceFits(Geo(), FullVolume(), [6], 2)
  {
    hide FreeSet, Meta, Picked, Synced, Counted, MetaUsed, Shape;
    FullVolumeValid();
    ImageMeta(0, Bitmap(255, 255, 255), FileInode() + Zeros(896));
    DivModAreBuiltIn(3071, 1024);
    MulIsProduct(2, 1024);
    assert SetOf([6]) == {6};
    assert FreeSet(Geo(), FullVolume()) + SetOf([6]) == {6};
  }

  /** Two blocks do not fit where only the file's own one is to be had: the replacement fails, and the
      inode on disk still names block 6, which is no longer the file's. */
  method ReplaceOnFullVolume(data: seq<Byte>, now: nat) returns (fs: Ext4, ok: bool, ghost orphans: set<nat>)
    requires |data| == 2048
    ensures fs.geo == Geo() && !ok && Shape(fs.geo, fs.State())
    ensures RawAt(fs.geo, Locs(fs.geo, fs.gdt), fs.disk, 1) == FileInode()
    ensures RootOk(Root(FileInode())) && !OwnsBlocks(fs.geo, fs.State(), Root(FileInode()), orphans)
  {
    hide FileInode, Root, RootOk, Shape, Valid, RawAt, ReplaceFits, OwnsBlocks, FullVolume, AllOwned, Mul, CeilDiv,
         TreeBlocks, FreeSet, OthersKept, Filled, TooDeep, Replaced, DiskOk, LocsOk;
    FullVolumeValid();
    FullVolumeUnfit();
    FileInodeMaps();
    GeoOk();
    ShapeDiskOk(Geo(), FullVolume());
    fs := new Ext4(Geo(), FullVolume());
    ghost var blks, leaves;
    var out;
    ok, out, blks, leaves := DoReplace(fs, 1, FileInode(), data, 2048, now);
    orphans := SetOf(blks) + SetOf(leaves);
  }

  // ---------------- an append that is not undone ----------------

  /** Blocks 10, 12, 14, 16, 18 and 20 are free. */
  function GapVolume(): Vol {
    Image(6, Bitmap(255, 0x55, 0xF5), Zeros(1024))
  }

  lemma GapBits(bm: Block)
    requires bm == Bitmap(255, 0x55, 0xF5)
    ensures forall i :: 0 <= i < 24 ==> BitAt(bm, i) == (i !in {9, 11, 13, 15, 17, 19})
  {
    forall i | 0 <= i < 24 ensures BitAt(bm, i) == (i !in {9, 11, 13, 15, 17, 19}) {
      assert bm[0] == 255 && bm[1] == 0x55 && bm[2] == 0xF5;
      if i < 8 {
        OnesAreSet(8, i);
      }
    }
  }

  lemma GapVolumeValid()
    ensures Valid(Geo(), GapVolume()) && FreeSet(Geo(), GapVolume()) == {10, 12, 14, 16, 18, 20}
  {
    hide BitAt, FreeSet, Valid, Image, Bitmap;
    var bm := Bitmap(255, 0x55, 0xF5);
    GapBits(bm);
    ClearCountZero(bm, 8);
    assert ClearCount(bm, 10) == 1 && ClearCount(bm, 12) == 2 && ClearCount(bm, 14) == 3;
    assert ClearCount(bm, 16) == 4 && ClearCount(bm, 18) == 5 && ClearCount(bm, 20) == 6;
    assert ClearCount(bm, 22) == 6 && ClearCount(bm, 24) == 6;
    hide ClearCount;
    ImageValid(6, bm, Zeros(1024));
    ImageFree(6, bm, Zeros(1024));
  }

  /** With one group, a search always takes the lowest free block. */
  lemma LowestIsPick(free: set<nat>, hint: nat, b: nat)
    requires Geo().Ok() && OnVolume(Geo(), free) && b in free && forall c :: c in free ==> b <= c
    ensures IsPick(Geo(), free, hint, b)
  {
    hide Geometry.Ok;
    forall c | c in free ensures Geo().GroupOf(c) == 0 && Geo().IndexOf(c) == c - 1 {
      Places(c);
    }
    assert PickAt(Geo(), free, hint, b, 0);
  }

  lemma PickNext(free: set<nat>, taken: seq<nat>, b: nat)
    requires Geo().Ok() && OnVolume(Geo(), free) && Picked(Geo(), free, 0, taken)
    requires b in free && b !in taken && forall c :: c in free ==> c in taken || b <= c
    ensures Picked(Geo(), free, 0, taken + [b])
  {
    hide IsPick, HintFor, Geometry.Ok, Picked;
    LowestIsPick(free - SetOf(taken), HintFor(Geo(), |taken|), b);
    PickedStep(Geo(), free, 0, taken, b);
  }

  function Scattered(): seq<nat> { [10, 12, 14, 16, 18] }

  lemma ScatteredPicked(free: set<nat>)
    requires free == {10, 12, 14, 16, 18, 20} && Geo().Ok() && OnVolume(Geo(), free)
    ensures Picked(Geo(), free, 0, Scattered())
  {
    hide Picked, Geometry.Ok, OnVolume;
    NonePicked(free);
    PickNext(free, [], 10);
    assert [] + [10] == [10];
    PickNext(free, [10], 12);
    assert [10] + [12] == [10, 12];
    PickNext(free, [10, 12], 14);
    assert [10, 12] + [14] == [10, 12, 14];
    PickNext(free, [10, 12, 14], 16);
    assert [10, 12, 14] + [16] == [10, 12, 14, 16];
    PickNext(free, [10, 12, 14, 16], 18);
    assert [10, 12, 14, 16] + [18] == Scattered();
  }

  lemma NonePicked(free: set<nat>)
    requires Geo().Ok() && OnVolume(Geo(), free)
    ensures Picked(Geo(), free, 0, [])
  {
  }

  lemma ScatteredRuns()
    ensures |RunsOf(0, Scattered())| == 5 && |RunsOf(0, [10, 12, 14, 16])| == 4
  {
    hide RunsOf;
    RunsOfNil(0);
    RunsOfStep(0, [], 10);
    RunsOfStep(0, [10], 12);
    RunsOfStep(0, [10, 12], 14);
    RunsOfStep(0, [10, 12, 14], 16);
    RunsOfStep(0, [10, 12, 14, 16], 18);
    assert [] + [10] == [10] && [10] + [12] == [10, 12] && [10, 12] + [14] == [10, 12, 14];
    assert [10, 12, 14] + [16] == [10, 12, 14, 16] && [10, 12, 14, 16] + [18] == Scattered();
  }

  /** Four blocks that do not touch are still held inline. */
  lemma FourRunsFit()
    ensures Inlineable(0, [10, 12, 14, 16])
  {
    hide RunsOf;
    ScatteredRuns();
    RunsOfEncodes(0, [10, 12, 14, 16]);
    var runs := RunsOf(0, [10, 12, 14, 16]);
    forall i | 0 <= i < |runs| ensures CountFits(runs[i]) {
      EndsByEnd(runs, 0, i);
    }
  }

  /** An append of five blocks to an empty file succeeds there, with the sixth block for its leaf. It gets
      five blocks that do not touch, and so truncation does not give its data back. */
  lemma FiveRunsLost(blks: seq<nat>)
    requires |blks| == 5
    ensures Valid(Geo(), GapVolume()) && Shape(Geo(), GapVolume()) && AppendFits(Geo(), GapVolume(), 0, 5)
    ensures PickedFrom(Geo(), GapVolume(), 0, blks) <==> blks == Scattered()
    ensures !Inlineable(0, Scattered())
  {
    hide FreeSet, Valid, Shape, GapVolume, Picked, RunsOf, Geometry.Ok;
    GapVolumeValid();
    ValidShape(Geo(), GapVolume());
    ScatteredRuns();
    var free := {10, 12, 14, 16, 18, 20};
    FreeOnVolume(Geo(), GapVolume());
    var s := Scattered();
    ScatteredPicked(free);
    WillFitIs(Geo(), free, 0, s);
    DivModAreBuiltIn(88, 84);
    if PickedFrom(Geo(), GapVolume(), 0, blks) {
      PickedUnique(Geo(), free, 0, blks, s);
    }
  }
}
