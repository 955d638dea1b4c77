/** e4_truncate: releasing an inode's blocks. Of a legacy map these are its data and its pointer
    blocks, of an inline extent tree its data, and of a deeper one only the leaves under the root. */
module Truncate {
  import opened Bytes
  import opened Arith
  import opened Volume
  import opened Driver
  import opened Runs
  import opened Extents
  import opened Files
  import opened Indirect
  import opened SectorCount

  /** Pointer `i` of a legacy inode's block area. */
  function Pointer(root: seq<Byte>, i: nat): nat
    requires |root| == 60 && i < 15
  {
    Get32(root, 4 * i)
  }

  /** The direct blocks from index 11 down to `k`, in the order they are freed. */
  function Direct(root: seq<Byte>, k: nat): (r: seq<nat>)
    requires |root| == 60 && k <= 12
    decreases 12 - k
  {
    if k == 12 then [] else Direct(root, k + 1) + (if Pointer(root, k) == 0 then [] else [Pointer(root, k)])
  }

  /** The blocks under pointers 12 up to `which - 1`: trees of one, two and three levels. */
  function Trees(geo: Geometry, disk: seq<Block>, root: seq<Byte>, which: nat): (r: seq<nat>)
    requires geo.Ok() && DiskOk(geo, disk) && |root| == 60 && 12 <= which <= 15
    decreases which
  {
    if which == 12 then []
    else Trees(geo, disk, root, which - 1) + Reach(geo, disk, Pointer(root, which - 1), which - 1 - 11)
  }

  /** Every block a legacy inode maps, data and pointer blocks alike. */
  function MapBlocks(geo: Geometry, disk: seq<Block>, root: seq<Byte>): (r: seq<nat>)
    requires geo.Ok() && DiskOk(geo, disk) && |root| == 60
  {
    Direct(root, 0) + Trees(geo, disk, root, 15)
  }

  lemma {:induction false} DirectPrefix(root: seq<Byte>, k: nat, m: nat)
    requires |root| == 60 && k <= m <= 12
    ensures Direct(root, m) <= Direct(root, k)
    decreases m - k
  {
    if k < m {
      DirectPrefix(root, k + 1, m);
    }
  }

  lemma {:induction false} TreesPrefix(geo: Geometry, disk: seq<Block>, root: seq<Byte>, a: nat, b: nat)
    requires geo.Ok() && DiskOk(geo, disk) && |root| == 60 && 12 <= a <= b <= 15
    ensures Trees(geo, disk, root, a) <= Trees(geo, disk, root, b)
  {
    if a < b {
      TreesPrefix(geo, disk, root, a, b - 1);
    }
  }

  lemma DirectStep(root: seq<Byte>, i: nat)
    requires |root| == 60 && i < 12
    ensures Direct(root, 12) == []
    ensures Pointer(root, i) == 0 ==> Direct(root, i) == Direct(root, i + 1)
    ensures Pointer(root, i) != 0 ==> Direct(root, i) == Direct(root, i + 1) + [Pointer(root, i)]
    ensures Direct(root, i) <= Direct(root, 0)
  {
    DirectPrefix(root, 0, i);
  }

  lemma NextDirectFresh(geo: Geometry, v: Vol, root: seq<Byte>, rest: seq<nat>, i: nat)
    requires Shape(geo, v) && |root| == 60 && i < 12 && Pointer(root, i) != 0
    requires Pending(geo, v, {}, Direct(root, 0) + rest)
    ensures Owned(geo, v, Pointer(root, i)) && Pointer(root, i) !in SetOf(Direct(root, i + 1))
    ensures SetOf(Direct(root, i)) == SetOf(Direct(root, i + 1)) + {Pointer(root, i)}
  {
    hide Owned, Shape, Pending, Pointer, Direct;
    var all, less, p := Direct(root, 0) + rest, Direct(root, i + 1), Pointer(root, i);
    DirectStep(root, i);
    assert all == less + [p] + all[|less| + 1..];
    PendingSplit(geo, v, {}, less, [p], all[|less| + 1..]);
    PendingOne(geo, v, {} + SetOf(less), [p], p);
  }

  method FreeDirect(fs: Ext4, root: seq<Byte>, ghost rest: seq<nat>) returns (freed: nat)
    requires fs.Ready() && |root| == 60
    requires Pending(fs.geo, fs.State(), {}, Direct(root, 0) + rest)
    modifies fs
    ensures fs.Ready() && FreedAll(fs.geo, old(fs.State()), fs.State(), SetOf(Direct(root, 0)))
    ensures freed == |Direct(root, 0)|
  {
    hide Valid, FreedAll, Owned, Shape, Pending, Pointer, Direct;
    ghost var v := fs.State();
    ValidShape(fs.geo, v);
    FreedNone(fs.geo, v);
    DirectStep(root, 11);
    assert SetOf([]) == {};
    freed := 0;
    var i := 12;
    while i > 0
      invariant 0 <= i <= 12
      invariant fs.Ready() && FreedAll(fs.geo, v, fs.State(), SetOf(Direct(root, i)))
      invariant freed == |Direct(root, i)|
    {
      i := i - 1;
      DirectStep(root, i);
      if Pointer(root, i) != 0 {
        NextDirectFresh(fs.geo, v, root, rest, i);
        FreeOwned(fs, Pointer(root, i), v, SetOf(Direct(root, i + 1)));
        freed := freed + 1;
      }
    }
  }

  lemma TreesStep(geo: Geometry, disk: seq<Block>, root: seq<Byte>, which: nat)
    requires geo.Ok() && DiskOk(geo, disk) && |root| == 60 && 12 <= which < 15
    ensures Trees(geo, disk, root, 12) == []
    ensures Trees(geo, disk, root, which + 1)
         == Trees(geo, disk, root, which) + Reach(geo, disk, Pointer(root, which), which - 11)
    ensures Trees(geo, disk, root, which + 1) <= Trees(geo, disk, root, 15)
  {
    TreesPrefix(geo, disk, root, which + 1, 15);
  }

  method FreeTrees(fs: Ext4, root: seq<Byte>, ghost v: Vol, ghost first: seq<nat>) returns (freed: nat)
    requires fs.Ready() && |root| == 60 && Shape(fs.geo, v) && FreedAll(fs.geo, v, fs.State(), SetOf(first))
    requires Pending(fs.geo, v, {}, first + Trees(fs.geo, v.disk, root, 15))
    modifies fs
    ensures fs.Ready()
    ensures FreedAll(fs.geo, v, fs.State(), SetOf(first + Trees(fs.geo, v.disk, root, 15)))
    ensures freed == |Trees(fs.geo, v.disk, root, 15)|
  {
    hide Valid, FreedAll, Owned, Shape, Pending, Pointer, Reach, Trees;
    ShapePositive(fs.geo, v);
    ShapeDiskOk(fs.geo, v);
    ghost var all := first + Trees(fs.geo, v.disk, root, 15);
    TreesStep(fs.geo, v.disk, root, 12);
    assert first + [] == first;
    freed := 0;
    for which := 12 to 15
      invariant fs.Ready()
      invariant FreedAll(fs.geo, v, fs.State(), SetOf(first + Trees(fs.geo, v.disk, root, which)))
      invariant freed == |Trees(fs.geo, v.disk, root, which)|
    {
      ghost var less := first + Trees(fs.geo, v.disk, root, which);
      ghost var sub := Reach(fs.geo, v.disk, Pointer(root, which), which - 11);
      TreesStep(fs.geo, v.disk, root, which);
      assert less + sub == first + Trees(fs.geo, v.disk, root, which + 1) <= all;
      assert all == less + sub + all[|less| + |sub|..];
      PendingSplit(fs.geo, v, {}, less, sub, all[|less| + |sub|..]);
      assert {} + SetOf(less) == SetOf(less);
      var n := FreeIndirect(fs, Pointer(root, which), which - 11, v, SetOf(less));
      freed := freed + n;
      assert SetOf(less) + SetOf(sub) == SetOf(first + Trees(fs.geo, v.disk, root, which + 1));
    }
  }

  // ---------------- the whole truncation ----------------

  predicate Mappable(raw: seq<Byte>)
    requires 128 <= |raw|
  {
    ExtentMapped(raw) ==> RootOk(Root(raw))
  }

  /** What truncating an inode releases. */
  function FileBlocks(geo: Geometry, disk: seq<Block>, raw: seq<Byte>): (r: seq<nat>)
    requires geo.Ok() && DiskOk(geo, disk) && 128 <= |raw| && Mappable(raw)
  {
    if ExtentMapped(raw) then TreeBlocks(Root(raw)) else MapBlocks(geo, disk, Root(raw))
  }

  /** The inode after the blocks are gone. */
  function Emptied(geo: Geometry, disk: seq<Block>, raw: seq<Byte>): (r: seq<Byte>)
    requires geo.Ok() && DiskOk(geo, disk) && 128 <= |raw| && Mappable(raw)
    ensures |r| == |raw|
  {
    if ExtentMapped(raw) then TreeFreed(geo, raw)
    else AddSectors(geo, WithRoot(raw, Zeros(60)),
                    0 - Mul(|MapBlocks(geo, disk, Root(raw))|, geo.blockSize))
  }

  function ZeroSize(raw: seq<Byte>): (r: seq<Byte>)
    requires 128 <= |raw|
    ensures |r| == |raw|
  {
    Put32(Put32(raw, 4, 0), 108, 0)
  }

  lemma SectorsOfZeroSize(geo: Geometry, raw: seq<Byte>)
    requires 128 <= |raw|
    ensures Sectors(geo, ZeroSize(raw)) == Sectors(geo, raw)
  {
  }

  /** The blocks whose sectors truncation takes off: those it releases, but for a deeper tree the number
      of entries its root claims. */
  function UnitsOf(geo: Geometry, disk: seq<Block>, raw: seq<Byte>): nat
    requires geo.Ok() && DiskOk(geo, disk) && 128 <= |raw| && Mappable(raw)
  {
    if ExtentMapped(raw) && !Empty(Root(raw)) && Depth(Root(raw)) > 0 then Entries(Root(raw))
    else |FileBlocks(geo, disk, raw)|
  }

  lemma EmptiedSectors(geo: Geometry, disk: seq<Block>, raw: seq<Byte>)
    requires geo.Ok() && DiskOk(geo, disk) && 128 <= |raw| && Mappable(raw)
    ensures Sectors(geo, ZeroSize(Emptied(geo, disk, raw)))
         == Clamp(Sectors(geo, raw) - SectorsIn(geo, UnitsOf(geo, disk, raw)))
  {
    hide AddSectors, Mul, MapBlocks, Sectors, SectorsIn, WithRoot, ZeroSize, RootOk;
    SectorsOfZeroSize(geo, Emptied(geo, disk, raw));
    if !ExtentMapped(raw) {
      MapSectors(geo, raw, |MapBlocks(geo, disk, Root(raw))|);
    } else if !Empty(Root(raw)) {
      SectorsDown(geo, raw, FreedUnits(Root(raw)));
    } else {
      NoSectors(geo, 0);
    }
  }

  /** Byte `j` of the block area after truncation: zero for pointers; of an extent tree only the entry
      count and the depth are zeroed, and nothing when it has no entries. */
  function AreaAfter(raw: seq<Byte>, j: nat): Byte
    requires 128 <= |raw| && AreaByte(j)
  {
    if !ExtentMapped(raw) || (!Empty(Root(raw)) && (42 <= j < 44 || 46 <= j < 48)) then 0 else raw[j]
  }

  /** A truncated inode, byte for byte but for the sector count. */
  ghost predicate InodeEmptied(geo: Geometry, raw: seq<Byte>, out: seq<Byte>)
    requires 128 <= |raw|
  {
    && |out| == |raw| && Get32(out, 4) == 0 && Get32(out, 108) == 0
    && (forall j :: 0 <= j < |raw| && !SectorByte(geo, j) && !SizeByte(j) && !AreaByte(j) ==> out[j] == raw[j])
    && (forall j :: 0 <= j < |raw| && AreaByte(j) ==> out[j] == AreaAfter(raw, j))
  }

  lemma ClearedBytes(node: seq<Byte>, j: nat)
    requires |node| == 60 && j < 60
    ensures Cleared(node)[j] == if 2 <= j < 4 || 6 <= j < 8 then 0 else node[j]
  {
  }

  lemma EmptiedBytes(geo: Geometry, disk: seq<Block>, raw: seq<Byte>)
    requires geo.Ok() && DiskOk(geo, disk) && 128 <= |raw| && Mappable(raw)
    ensures InodeEmptied(geo, raw, ZeroSize(Emptied(geo, disk, raw)))
  {
    hide AddSectors, Mul, MapBlocks, FreedUnits, Put32, Cleared, RootOk;
    var e := Emptied(geo, disk, raw);
    var z := ZeroSize(e);
    var a := Put32(e, 4, 0);
    assert Get32(z, 4) == Get32(a, 4);
    forall j | 0 <= j < |raw| && AreaByte(j) ensures z[j] == AreaAfter(raw, j) {
      assert z[j] == e[j] == Root(e)[j - 40] && raw[j] == Root(raw)[j - 40];
      ClearedBytes(Root(raw), j - 40);
    }
  }

  lemma ZeroPointer(root: seq<Byte>, i: nat)
    requires |root| == 60 && i < 15 && Pointer(root, i) == 0
    ensures forall j :: 4 * i <= j < 4 * i + 4 ==> root[j] == 0
  {
  }

  /** Clearing the direct pointers that are set, and then the three tree pointers, zeroes the area. */
  method ClearPointers(root: seq<Byte>) returns (r: seq<Byte>)
    requires |root| == 60
    ensures r == Zeros(60)
  {
    r := root;
    var i := 12;
    while i > 0
      invariant 0 <= i <= 12 && |r| == 60
      invariant forall j :: 4 * i <= j < 48 ==> r[j] == 0
    {
      i := i - 1;
      if Pointer(r, i) != 0 {
        r := Put32(r, 4 * i, 0);
        assert Pointer(r, i) == 0;
      }
      ZeroPointer(r, i);
    }
    for which := 12 to 15
      invariant |r| == 60 && forall j :: 0 <= j < 4 * which ==> r[j] == 0
    {
      r := Put32(r, 4 * which, 0);
      assert Pointer(r, which) == 0;
      ZeroPointer(r, which);
    }
  }

  /** e4_truncate: only to zero. Exactly `FileBlocks` become free. */
  method TruncateInode(fs: Ext4, raw: seq<Byte>, newSize: nat) returns (ok: bool, out: seq<Byte>)
    requires fs.Ready() && fs.geo.Ok() && |raw| == fs.geo.inodeSize && Mappable(raw)
    requires DiskOk(fs.geo, fs.disk) && Shape(fs.geo, fs.State())
    requires AllOwned(fs.geo, fs.State(), FileBlocks(fs.geo, fs.disk, raw))
    modifies fs
    ensures fs.Ready() && |out| == |raw|
    ensures ok <==> newSize == 0
    ensures !ok ==> fs.State() == old(fs.State()) && out == raw
    ensures ok ==> FreedAll(fs.geo, old(fs.State()), fs.State(), SetOf(FileBlocks(fs.geo, old(fs.disk), raw)))
    ensures ok ==> out == ZeroSize(Emptied(fs.geo, old(fs.disk), raw)) && InodeEmptied(fs.geo, raw, out)
    ensures ok ==>
      Sectors(fs.geo, out) == Clamp(Sectors(fs.geo, raw) - SectorsIn(fs.geo, UnitsOf(fs.geo, old(fs.disk), raw)))
  {
    hide Valid, FreedAll, Owned, Shape, Pending, AddSectors, Mul, Direct, Trees, TreeFreed,
         TreeBlocks, InodeEmptied, Sectors, SectorsIn, UnitsOf;
    if newSize != 0 {
      return false, raw;
    }
    ghost var v := fs.State();
    EmptiedBytes(fs.geo, v.disk, raw);
    EmptiedSectors(fs.geo, v.disk, raw);
    if ExtentMapped(raw) {
      out := FreeExtentTree(fs, raw);
    } else {
      ghost var d, t := Direct(Root(raw), 0), Trees(fs.geo, fs.disk, Root(raw), 15);
      OwnedPending(fs.geo, v, d + t);
      var freed := FreeDirect(fs, Root(raw), t);
      var more := FreeTrees(fs, Root(raw), v, d);
      freed := freed + more;
      var area := ClearPointers(Root(raw));
      out := AddSectors(fs.geo, WithRoot(raw, area), 0 - Mul(freed, fs.geo.blockSize));
    }
    out := Put32(out, 4, 0);
    out := Put32(out, 108, 0);
    ok := true;
  }

  lemma OwnedPending(geo: Geometry, v: Vol, blocks: seq<nat>)
    requires Shape(geo, v) && AllOwned(geo, v, blocks)
    ensures Pending(geo, v, {}, blocks)
  {
  }
}
