/** The inode tables: fixed-size records packed end to end, which may straddle two blocks. */
module Inodes {
  import opened Bytes
  import opened Arith
  import opened Volume
  import opened Allocator
  import opened Driver

  predicate IsIno(geo: Geometry, ino: nat) {
    1 <= ino <= geo.inodesCount
  }

  function InoGroup(geo: Geometry, ino: nat): (g: nat)
    requires geo.Ok() && IsIno(geo, ino)
    ensures g < geo.groupCount
  {
    DivBound(ino - 1, geo.groupCount, geo.inodesPerGroup);
    Div(ino - 1, geo.inodesPerGroup)
  }

  /** The byte offset of an inode in its group's table. */
  function InoOff(geo: Geometry, ino: nat): (p: nat)
    requires geo.Ok() && IsIno(geo, ino)
    ensures p + geo.inodeSize <= Mul(geo.inodesPerGroup, geo.inodeSize) <= Mul(geo.TableLen(), geo.blockSize)
  {
    SlotsApart(Mod(ino - 1, geo.inodesPerGroup), geo.inodesPerGroup, geo.inodeSize);
    Mul(Mod(ino - 1, geo.inodesPerGroup), geo.inodeSize)
  }

  /** Block `Div(InoOff, blockSize)` of the table, and the next one if the record straddles, exist. */
  lemma InoBlocks(geo: Geometry, ino: nat)
    requires geo.Ok() && IsIno(geo, ino)
    ensures var p := InoOff(geo, ino); var q := Div(p, geo.blockSize);
      && q < geo.TableLen()
      && (geo.blockSize < Mod(p, geo.blockSize) + geo.inodeSize ==> q + 1 < geo.TableLen())
  {
    var p := InoOff(geo, ino);
    DivBound(p, geo.TableLen(), geo.blockSize);
    if geo.blockSize < Mod(p, geo.blockSize) + geo.inodeSize {
      DivModStep(p, geo.inodeSize - 1, geo.blockSize);
      DivBound(p + geo.inodeSize - 1, geo.TableLen(), geo.blockSize);
    }
  }

  /** The block an inode's record starts in, and where in it. */
  function InoBlk(geo: Geometry, locs: seq<Loc>, ino: nat): (blk: nat)
    requires geo.Ok() && LocsOk(geo, locs) && IsIno(geo, ino)
    ensures blk < geo.blocksCount
    ensures geo.blockSize < InoPos(geo, ino) + geo.inodeSize ==> blk + 1 < geo.blocksCount
  {
    InoBlocks(geo, ino);
    assert LocOk(geo, locs[InoGroup(geo, ino)]);
    locs[InoGroup(geo, ino)].table + Div(InoOff(geo, ino), geo.blockSize)
  }

  function InoPos(geo: Geometry, ino: nat): (off: nat)
    requires geo.Ok() && IsIno(geo, ino)
    ensures off < geo.blockSize
  {
    Mod(InoOff(geo, ino), geo.blockSize)
  }

  /** Byte `p` of a group's inode table. */
  function TableByte(geo: Geometry, disk: seq<Block>, loc: Loc, p: nat): Byte
    requires geo.Ok() && DiskOk(geo, disk) && LocOk(geo, loc)
    requires p < Mul(geo.TableLen(), geo.blockSize)
  {
    DivBound(p, geo.TableLen(), geo.blockSize);
    disk[loc.table + Div(p, geo.blockSize)][Mod(p, geo.blockSize)]
  }

  /** The record e4_read_inode copies out: from one block, or from two when it straddles them. */
  function RawAt(geo: Geometry, locs: seq<Loc>, disk: seq<Block>, ino: nat): (raw: seq<Byte>)
    requires geo.Ok() && DiskOk(geo, disk) && LocsOk(geo, locs) && IsIno(geo, ino)
    ensures |raw| == geo.inodeSize
  {
    var blk, off := InoBlk(geo, locs, ino), InoPos(geo, ino);
    if off + geo.inodeSize <= geo.blockSize
    then disk[blk][off..off + geo.inodeSize]
    else disk[blk][off..] + disk[blk + 1][..off + geo.inodeSize - geo.blockSize]
  }

  /** The disk after e4_write_inode. */
  function PutRaw(geo: Geometry, locs: seq<Loc>, disk: seq<Block>, ino: nat, raw: seq<Byte>): (r: seq<Block>)
    requires geo.Ok() && DiskOk(geo, disk) && LocsOk(geo, locs) && IsIno(geo, ino) && |raw| == geo.inodeSize
    ensures DiskOk(geo, r)
  {
    var blk, off := InoBlk(geo, locs, ino), InoPos(geo, ino);
    if off + geo.inodeSize <= geo.blockSize
    then disk[blk := Patch(disk[blk], off, raw)]
    else
      var part := geo.blockSize - off;
      disk[blk := Patch(disk[blk], off, raw[..part])][blk + 1 := Patch(disk[blk + 1], 0, raw[part..])]
  }

  lemma RawAtBlock(geo: Geometry, locs: seq<Loc>, disk: seq<Block>, ino: nat, t: nat)
    requires geo.Ok() && DiskOk(geo, disk) && LocsOk(geo, locs) && IsIno(geo, ino) && t < geo.inodeSize
    ensures var blk, at := InoBlk(geo, locs, ino), InoPos(geo, ino) + t;
      RawAt(geo, locs, disk, ino)[t] ==
      if at < geo.blockSize then disk[blk][at] else disk[blk + 1][at - geo.blockSize]
  {
    hide InoBlk, InoPos, LocsOk;
    OkSizes(geo);
    hide Geometry.Ok;
  }

  /** Byte `t` of a record is byte `t` on from its place in the table. */
  lemma RawAtByte(geo: Geometry, locs: seq<Loc>, disk: seq<Block>, ino: nat, t: nat)
    requires geo.Ok() && DiskOk(geo, disk) && LocsOk(geo, locs) && IsIno(geo, ino) && t < geo.inodeSize
    ensures LocOk(geo, locs[InoGroup(geo, ino)])
    ensures RawAt(geo, locs, disk, ino)[t]
         == TableByte(geo, disk, locs[InoGroup(geo, ino)], InoOff(geo, ino) + t)
  {
    hide Mul, Div, Mod, LocsOk, InoOff, InoGroup, RawAt;
    OkSizes(geo);
    RecordLoc(geo, locs, ino);
    hide Geometry.Ok;
    RawAtBlock(geo, locs, disk, ino, t);
    DivModStep(InoOff(geo, ino), t, geo.blockSize);
  }

  /** Inode records lie end to end in their group's table, inode numbers starting at one. */
  lemma InodeLayout(geo: Geometry, locs: seq<Loc>, disk: seq<Block>, g: nat, k: nat, t: nat, q: nat, r: nat)
    requires geo.Ok() && DiskOk(geo, disk) && LocsOk(geo, locs) && g < geo.groupCount && k < geo.inodesPerGroup
    requires IsIno(geo, Mul(g, geo.inodesPerGroup) + k + 1) && t < geo.inodeSize && r < geo.blockSize
    requires Mul(k, geo.inodeSize) + t == Mul(q, geo.blockSize) + r
    ensures locs[g].table + q < |disk|
    ensures RawAt(geo, locs, disk, Mul(g, geo.inodesPerGroup) + k + 1)[t] == disk[locs[g].table + q][r]
  {
    hide Mul, Div, Mod, LocsOk, RawAt;
    var ino := Mul(g, geo.inodesPerGroup) + k + 1;
    DivModUnique(g, k, geo.inodesPerGroup);
    DivModUnique(q, r, geo.blockSize);
    RawAtByte(geo, locs, disk, ino, t);
    DivBound(Mul(q, geo.blockSize) + r, geo.TableLen(), geo.blockSize);
  }

  /** Byte `y` of block `q` after a record is written. */
  lemma PutRawBlock(geo: Geometry, locs: seq<Loc>, disk: seq<Block>, ino: nat, raw: seq<Byte>, q: nat, y: nat)
    requires geo.Ok() && DiskOk(geo, disk) && LocsOk(geo, locs) && IsIno(geo, ino) && |raw| == geo.inodeSize
    requires q < geo.blocksCount && y < geo.blockSize
    ensures var blk, off := InoBlk(geo, locs, ino), InoPos(geo, ino);
      PutRaw(geo, locs, disk, ino, raw)[q][y]
      == if q == blk && off <= y < off + geo.inodeSize then raw[y - off]
         else if q == blk + 1 && y + geo.blockSize < off + geo.inodeSize then raw[y + geo.blockSize - off]
         else disk[q][y]
  {
    hide InoBlk, InoPos, LocsOk;
    OkSizes(geo);
    hide Geometry.Ok;
  }

  /** Writing a record changes exactly its own bytes of its table. */
  lemma PutRawByte(geo: Geometry, locs: seq<Loc>, disk: seq<Block>, ino: nat, raw: seq<Byte>, p: nat)
    requires geo.Ok() && DiskOk(geo, disk) && LocsOk(geo, locs) && IsIno(geo, ino) && |raw| == geo.inodeSize
    requires p < Mul(geo.TableLen(), geo.blockSize)
    ensures var o := InoOff(geo, ino); var loc := locs[InoGroup(geo, ino)];
      LocOk(geo, loc) &&
      TableByte(geo, PutRaw(geo, locs, disk, ino, raw), loc, p)
      == if o <= p < o + geo.inodeSize then raw[p - o] else TableByte(geo, disk, loc, p)
  {
    hide Mul, Div, Mod, LocsOk, InoOff, InoGroup, PutRaw;
    OkSizes(geo);
    DivBound(p, geo.TableLen(), geo.blockSize);
    RecordLoc(geo, locs, ino);
    hide Geometry.Ok;
    var loc := locs[InoGroup(geo, ino)];
    PutRawBlock(geo, locs, disk, ino, raw, loc.table + Div(p, geo.blockSize), Mod(p, geo.blockSize));
    InRecord(InoOff(geo, ino), p, geo.blockSize, geo.inodeSize);
  }

  lemma OkSizes(geo: Geometry)
    requires geo.Ok()
    ensures 0 < geo.inodeSize <= geo.blockSize
  {
  }

  lemma RecordLoc(geo: Geometry, locs: seq<Loc>, ino: nat)
    requires geo.Ok() && LocsOk(geo, locs) && IsIno(geo, ino)
    ensures |locs| == geo.groupCount && LocOk(geo, locs[InoGroup(geo, ino)])
  {
  }

  /** Byte `p` lies in the `size` bytes from `o` on: in the block where they start, or in the next. */
  lemma InRecord(o: nat, p: nat, d: nat, size: nat)
    requires 0 < size <= d
    ensures var a, x, b, y := Div(o, d), Mod(o, d), Div(p, d), Mod(p, d);
      && (o <= p < o + size <==> (b == a && x <= y < x + size) || (b == a + 1 && y + d < x + size))
      && (b == a ==> p - o == y - x) && (b == a + 1 ==> p - o == y + d - x)
  {
    hide Mul, Div, Mod;
    var a, b := Div(o, d), Div(p, d);
    MulNext(a, d);
    if a + 1 < b {
      SlotsApart(a + 1, b, d);
    } else if b < a {
      SlotsApart(b, a, d);
    }
  }

  lemma OtherTable(geo: Geometry, locs: seq<Loc>, disk: seq<Block>, ino: nat, raw: seq<Byte>, g: nat, p: nat)
    requires geo.Ok() && DiskOk(geo, disk) && LocsOk(geo, locs) && IsIno(geo, ino) && |raw| == geo.inodeSize
    requires g < geo.groupCount && g != InoGroup(geo, ino) && p < Mul(geo.TableLen(), geo.blockSize)
    ensures LocOk(geo, locs[g])
    ensures TableByte(geo, PutRaw(geo, locs, disk, ino, raw), locs[g], p) == TableByte(geo, disk, locs[g], p)
  {
    hide Mul, Div, Mod;
    InoBlocks(geo, ino);
    DivBound(p, geo.TableLen(), geo.blockSize);
    var h := InoGroup(geo, ino);
    assert LocsApart(geo, locs[if g < h then g else h], locs[if g < h then h else g]);
  }

  lemma InoOffsApart(geo: Geometry, i: nat, j: nat)
    requires geo.Ok() && IsIno(geo, i) && IsIno(geo, j) && i != j && InoGroup(geo, i) == InoGroup(geo, j)
    ensures InoOff(geo, i) + geo.inodeSize <= InoOff(geo, j) || InoOff(geo, j) + geo.inodeSize <= InoOff(geo, i)
  {
    var a, b := Mod(i - 1, geo.inodesPerGroup), Mod(j - 1, geo.inodesPerGroup);
    SlotsApart(if a < b then a else b, if a < b then b else a, geo.inodeSize);
  }

  lemma PutRawReadsByte(geo: Geometry, locs: seq<Loc>, disk: seq<Block>, ino: nat, raw: seq<Byte>, j: nat, t: nat)
    requires geo.Ok() && DiskOk(geo, disk) && LocsOk(geo, locs) && IsIno(geo, ino) && |raw| == geo.inodeSize
    requires IsIno(geo, j) && t < geo.inodeSize
    ensures RawAt(geo, locs, PutRaw(geo, locs, disk, ino, raw), j)[t]
         == if j == ino then raw[t] else RawAt(geo, locs, disk, j)[t]
  {
    hide PutRaw, RawAt, TableByte, LocsOk, Mul, Div, Mod;
    RawAtByte(geo, locs, disk, j, t);
    RawAtByte(geo, locs, PutRaw(geo, locs, disk, ino, raw), j, t);
    var p := InoOff(geo, j) + t;
    if InoGroup(geo, j) == InoGroup(geo, ino) {
      PutRawByte(geo, locs, disk, ino, raw, p);
      if j != ino {
        InoOffsApart(geo, j, ino);
      }
    } else {
      OtherTable(geo, locs, disk, ino, raw, InoGroup(geo, j), p);
    }
  }

  /** A written inode reads back as written, and every other inode as before. */
  lemma PutRawReads(geo: Geometry, locs: seq<Loc>, disk: seq<Block>, ino: nat, raw: seq<Byte>, j: nat)
    requires geo.Ok() && DiskOk(geo, disk) && LocsOk(geo, locs) && IsIno(geo, ino) && |raw| == geo.inodeSize
    requires IsIno(geo, j)
    ensures RawAt(geo, locs, PutRaw(geo, locs, disk, ino, raw), j)
         == if j == ino then raw else RawAt(geo, locs, disk, j)
  {
    hide PutRaw, RawAt, LocsOk, Geometry.Ok;
    forall t | 0 <= t < geo.inodeSize
      ensures RawAt(geo, locs, PutRaw(geo, locs, disk, ino, raw), j)[t]
           == if j == ino then raw[t] else RawAt(geo, locs, disk, j)[t]
    {
      PutRawReadsByte(geo, locs, disk, ino, raw, j, t);
    }
  }

  /** Inodes read the same from two disks that agree on the inode tables. */
  lemma RawAtSame(geo: Geometry, locs: seq<Loc>, a: seq<Block>, b: seq<Block>, ino: nat)
    requires geo.Ok() && DiskOk(geo, a) && DiskOk(geo, b) && LocsOk(geo, locs) && IsIno(geo, ino)
    requires forall x :: 0 <= x < geo.blocksCount && IsTable(geo, locs, x) ==> a[x] == b[x]
    ensures RawAt(geo, locs, a, ino) == RawAt(geo, locs, b, ino)
  {
    hide Mul, Div, Mod;
    InoBlocks(geo, ino);
    var g := InoGroup(geo, ino);
    assert LocOk(geo, locs[g]);
    var q := Div(InoOff(geo, ino), geo.blockSize);
    assert InTable(geo, locs[g], locs[g].table + q);
    assert q + 1 < geo.TableLen() ==> InTable(geo, locs[g], locs[g].table + q + 1);
  }

  /** Writing an inode touches only inode-table blocks and leaves the allocator's state alone. */
  lemma PutRawEvolves(geo: Geometry, v: Vol, ino: nat, raw: seq<Byte>)
    requires Valid(geo, v) && IsIno(geo, ino) && |raw| == geo.inodeSize
    ensures var locs := Locs(geo, v.gdt); var r := v.(disk := PutRaw(geo, locs, v.disk, ino, raw));
      && Valid(geo, r) && FreeSet(geo, r) == FreeSet(geo, v)
      && (forall b :: 0 <= b < |v.disk| && !IsTable(geo, locs, b) ==> r.disk[b] == v.disk[b])
  {
    hide Valid, InoBlk, InoPos, IsTable, AllocMeta, FreeSet, Patch;
    ValidShape(geo, v);
    ShapeDiskOk(geo, v);
    OkSizes(geo);
    var locs := Locs(geo, v.gdt);
    InoInTable(geo, locs, ino);
    hide Shape, LocsOk, Geometry.Ok;
    var blk, off := InoBlk(geo, locs, ino), InoPos(geo, ino);
    TableApartFromAllocMeta(geo, locs, blk);
    if off + geo.inodeSize <= geo.blockSize {
      WriteBlockValid(geo, v, blk, Patch(v.disk[blk], off, raw));
    } else {
      var part := geo.blockSize - off;
      var w := WriteBlock(v, blk, Patch(v.disk[blk], off, raw[..part]));
      WriteBlockValid(geo, v, blk, Patch(v.disk[blk], off, raw[..part]));
      TableApartFromAllocMeta(geo, locs, blk + 1);
      WriteBlockValid(geo, w, blk + 1, Patch(w.disk[blk + 1], 0, raw[part..]));
    }
  }

  lemma InoInTable(geo: Geometry, locs: seq<Loc>, ino: nat)
    requires geo.Ok() && LocsOk(geo, locs) && IsIno(geo, ino)
    ensures IsTable(geo, locs, InoBlk(geo, locs, ino))
    ensures geo.blockSize < InoPos(geo, ino) + geo.inodeSize ==> IsTable(geo, locs, InoBlk(geo, locs, ino) + 1)
  {
    hide Mul, Div, Mod;
    InoBlocks(geo, ino);
    var g, blk := InoGroup(geo, ino), InoBlk(geo, locs, ino);
    assert InTable(geo, locs[g], blk);
    assert geo.blockSize < InoPos(geo, ino) + geo.inodeSize ==> InTable(geo, locs[g], blk + 1);
  }

  /** Where the record lies, and what reading it from one block or two gives. */
  lemma RawParts(geo: Geometry, v: Vol, ino: nat)
    requires Shape(geo, v) && IsIno(geo, ino)
    ensures var locs, disk, size := Locs(geo, v.gdt), v.disk, geo.inodeSize;
      var blk, off := InoBlk(geo, locs, ino), InoPos(geo, ino);
      && blk < |disk| && |disk[blk]| == geo.blockSize && off < geo.blockSize && size <= geo.blockSize
      && (off + size <= geo.blockSize ==> RawAt(geo, locs, disk, ino) == disk[blk][off..off + size])
      && (geo.blockSize < off + size ==>
            && blk + 1 < |disk| && |disk[blk + 1]| == geo.blockSize
            && RawAt(geo, locs, disk, ino) == disk[blk][off..] + disk[blk + 1][..off + size - geo.blockSize])
  {
    hide InoBlk, InoPos;
    OkSizes(geo);
  }

  /** e4_read_inode. */
  method ReadInode(fs: Ext4, ino: nat) returns (ok: bool, raw: seq<Byte>)
    requires fs.Ready()
    modifies fs`scratch1, fs`scratch2
    ensures fs.Ready()
    ensures ok <==> IsIno(fs.geo, ino)
    ensures ok ==> raw == RawAt(fs.geo, Locs(fs.geo, fs.gdt), fs.disk, ino)
  {
    hide Valid, Mul, Div, Mod, Geometry.Ok, Locs, LocOf, LocsOk, InoOff, InoGroup, RawAt;
    ValidShape(fs.geo, fs.State());
    var geo := fs.geo;
    if !IsIno(geo, ino) {
      return false, [];
    }
    var g := InoGroup(geo, ino);
    var tbl := LocOf(geo, fs.gdt[g]).table;
    var byteOff := InoOff(geo, ino);
    var blk, off := tbl + Div(byteOff, geo.blockSize), Mod(byteOff, geo.blockSize);
    assert blk == InoBlk(geo, Locs(geo, fs.gdt), ino) && off == InoPos(geo, ino);
    RawParts(geo, fs.State(), ino);
    hide InoBlk, InoPos, Shape;
    if off + geo.inodeSize <= geo.blockSize {
      fs.scratch1 := fs.disk[blk];
      return true, fs.scratch1[off..off + geo.inodeSize];
    }
    fs.scratch1 := fs.disk[blk];
    fs.scratch2 := fs.disk[blk + 1];
    var part := geo.blockSize - off;
    return true, fs.scratch1[off..off + part] + fs.scratch2[..geo.inodeSize - part];
  }

  /** e4_write_inode. */
  method WriteInode(fs: Ext4, ino: nat, raw: seq<Byte>) returns (ok: bool)
    requires fs.Ready() && |raw| == fs.geo.inodeSize
    modifies fs`disk, fs`scratch1
    ensures fs.Ready()
    ensures ok <==> IsIno(fs.geo, ino)
    ensures fs.disk == if ok then PutRaw(fs.geo, Locs(fs.geo, fs.gdt), old(fs.disk), ino, raw) else old(fs.disk)
  {
    hide Valid, Mul, Div, Mod, Geometry.Ok, Locs, LocOf, LocsOk, InoOff, InoGroup;
    ValidShape(fs.geo, fs.State());
    var geo := fs.geo;
    if !IsIno(geo, ino) {
      return false;
    }
    PutRawEvolves(geo, fs.State(), ino, raw);
    var g := InoGroup(geo, ino);
    var tbl := LocOf(geo, fs.gdt[g]).table;
    var byteOff := InoOff(geo, ino);
    var blk, off := tbl + Div(byteOff, geo.blockSize), Mod(byteOff, geo.blockSize);
    fs.scratch1 := fs.disk[blk];
    if off + geo.inodeSize <= geo.blockSize {
      fs.scratch1 := Patch(fs.scratch1, off, raw);
      fs.disk := fs.disk[blk := fs.scratch1];
    } else {
      var part := geo.blockSize - off;
      fs.scratch1 := Patch(fs.scratch1, off, raw[..part]);
      fs.disk := fs.disk[blk := fs.scratch1];
      fs.scratch1 := fs.disk[blk + 1];
      fs.scratch1 := Patch(fs.scratch1, 0, raw[part..]);
      fs.disk := fs.disk[blk + 1 := fs.scratch1];
    }
    return true;
  }
}
