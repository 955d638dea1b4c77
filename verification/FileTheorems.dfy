/** What the file operations add up to. */
module FileTheorems {
  import opened Bytes
  import opened Arith
  import opened Volume
  import opened Driver
  import opened Inodes
  import opened Runs
  import opened Extents
  import opened Tree
  import opened Files
  import opened Release
  import opened Truncate
  import opened Plan
  import opened ReadWrite

  // ---------------- read after replace ----------------

  lemma FetchReplaced(geo: Geometry, disk: seq<Block>, out: seq<Byte>, data: seq<Byte>, len: nat, blks: seq<nat>,
                      leaves: seq<nat>, lb: nat)
    requires DiskOk(geo, disk) && Replaced(geo, disk, out, data, len, blks, leaves) && Inlineable(0, blks)
    requires lb < |blks| < U32 && geo.blocksCount < 0x1_0000_0000_0000
    ensures LeafOk(Root(out)) && Mul(lb + 1, geo.blockSize) <= |data|
    ensures Fetch(disk, geo.blockSize, Root(out), lb) == Some(Chunk(data, geo.blockSize, lb))
  {
    hide Mul, CountFits, Lookup, RunsOf, Chunk, Expand, GetExtent, Contiguous;
    var runs, root := RunsOf(0, blks), Root(out);
    RunsOfEncodes(0, blks);
    forall j | 0 <= j < |blks| ensures blks[j] < 0x1_0000_0000_0000 {
      assert FilledAt(disk, blks[j], Some(data), geo.blockSize, j);
    }
    RunsAddressable(0, blks);
    LookupFitting(root, runs, 0, lb);
    assert FilledAt(disk, blks[lb], Some(data), geo.blockSize, lb);
    assert blks[lb] in blks;
  }

  /** After a successful replacement whose blocks form at most four short runs, every prefix of
      the file reads back as the data. */
  lemma ReadAfterReplace(geo: Geometry, disk: seq<Block>, out: seq<Byte>, data: seq<Byte>, len: nat, blks: seq<nat>,
                         leaves: seq<nat>, n: nat)
    requires DiskOk(geo, disk) && Replaced(geo, disk, out, data, len, blks, leaves) && Inlineable(0, blks)
    requires n <= len < U32 && LeafOk(Root(out)) && n <= |data|
    ensures Readable(geo, disk, Root(out), n)
    ensures FileBytes(geo, disk, Root(out), n) == data[..n]
  {
    hide Mul, Div, Mod, Fetch, Chunk, FileBytes, Inlineable, Replaced;
    ReplacedSize(geo, disk, out, data, len, blks, leaves);
    if n > 0 {
      CountBelow(len, geo.blockSize);
      forall lb: nat | Mul(lb, geo.blockSize) < n ensures Fetch(disk, geo.blockSize, Root(out), lb).Some? {
        BelowCount(lb, len, geo.blockSize);
        FetchReplaced(geo, disk, out, data, len, blks, leaves, lb);
      }
      forall p | 0 <= p < n ensures FileByte(geo, disk, Root(out), p) == data[p] {
        ByteReplaced(geo, disk, out, data, len, blks, leaves, p);
      }
    }
    FileBytesAre(geo, disk, Root(out), n);
  }

  lemma FileBytesAre(geo: Geometry, disk: seq<Block>, root: seq<Byte>, n: nat)
    requires geo.Ok() && LeafOk(root)
    ensures |FileBytes(geo, disk, root, n)| == n
    ensures forall p :: 0 <= p < n ==> FileBytes(geo, disk, root, n)[p] == FileByte(geo, disk, root, p)
  {
  }

  lemma ReplacedSize(geo: Geometry, disk: seq<Block>, out: seq<Byte>, data: seq<Byte>, len: nat, blks: seq<nat>,
                     leaves: seq<nat>)
    requires Replaced(geo, disk, out, data, len, blks, leaves)
    ensures geo.Ok() && |blks| == CeilDiv(len, geo.blockSize) && 128 <= |out|
  {
  }

  lemma BelowCount(lb: nat, len: nat, d: nat)
    requires d > 0 && Mul(lb, d) < len
    ensures lb < CeilDiv(len, d)
  {
    if CeilDiv(len, d) <= lb {
      MulMono(CeilDiv(len, d), lb, d);
    }
  }

  lemma ByteReplaced(geo: Geometry, disk: seq<Block>, out: seq<Byte>, data: seq<Byte>, len: nat, blks: seq<nat>,
                     leaves: seq<nat>, p: nat)
    requires DiskOk(geo, disk) && Replaced(geo, disk, out, data, len, blks, leaves) && Inlineable(0, blks)
    requires p < len < U32 && p < |data| && LeafOk(Root(out))
    ensures FileByte(geo, disk, Root(out), p) == data[p]
  {
    hide Mul, Div, Mod, Fetch, Inlineable, Replaced;
    ReplacedSize(geo, disk, out, data, len, blks, leaves);
    CountBelow(len, geo.blockSize);
    var lb := Div(p, geo.blockSize);
    BelowCount(lb, len, geo.blockSize);
    FetchReplaced(geo, disk, out, data, len, blks, leaves, lb);
    MulNext(lb, geo.blockSize);
  }

  // ---------------- exactly when a written file can be read ----------------

  const WRITE_CAP := 0x100_0000

  /** Under the cap ext4_write enforces, no run is too long for its count field. */
  lemma CapFits(geo: Geometry, len: nat, blks: seq<nat>)
    requires geo.Ok() && len <= WRITE_CAP && |blks| == CeilDiv(len, geo.blockSize)
    ensures forall i :: 0 <= i < |RunsOf(0, blks)| ==> CountFits(RunsOf(0, blks)[i])
  {
    hide Mul, RunsOf, Expand, Contiguous;
    RunsOfEncodes(0, blks);
    SmallCount(geo, len);
    forall i | 0 <= i < |RunsOf(0, blks)| ensures CountFits(RunsOf(0, blks)[i]) {
      EndsByEnd(RunsOf(0, blks), 0, i);
    }
  }

  lemma SmallCount(geo: Geometry, len: nat)
    requires geo.Ok() && len <= WRITE_CAP
    ensures CeilDiv(len, geo.blockSize) <= 0x4000
  {
    hide Mul;
    var q := CeilDiv(len, geo.blockSize);
    MulIsProduct(q, geo.blockSize);
  }

  /** With no index entries in block 0 (an empty boot block), a file written under the cap reads
      back as its data exactly when its blocks form at most four runs. */
  lemma ReadableIffInline(geo: Geometry, disk: seq<Block>, out: seq<Byte>, data: seq<Byte>, len: nat, blks: seq<nat>,
                          leaves: seq<nat>, n: nat)
    requires DiskOk(geo, disk) && Replaced(geo, disk, out, data, len, blks, leaves)
    requires 0 < n <= len <= WRITE_CAP && LeafOk(Root(out)) && n <= |data|
    requires LeafOk(disk[0]) && Entries(disk[0]) == 0
    ensures (Readable(geo, disk, Root(out), n) && FileBytes(geo, disk, Root(out), n) == data[..n])
       <==> |RunsOf(0, blks)| <= ROOT_MAX
  {
    hide Mul, Fetch, FileBytes, RunsOf, Filled, CountFits;
    CapFits(geo, len, blks);
    if |RunsOf(0, blks)| <= ROOT_MAX {
      ReadAfterReplace(geo, disk, out, data, len, blks, leaves, n);
    } else {
      DeepUnread(geo, disk, Root(out), n);
    }
  }

  predicate SameStart(a: seq<Byte>, b: seq<Byte>, n: nat) {
    n <= |a| && n <= |b| && a[..n] == b[..n]
  }

  /** Block 0, where a deeper lookup starts, holds no index entries. */
  predicate NoIndexInBoot(disk: seq<Block>) {
    |disk| > 0 && LeafOk(disk[0]) && Entries(disk[0]) == 0
  }

  /** do_replace, e4_read_inode and the loop of ext4_read one after the other: a replacement that fits
      and whose blocks form at most four runs reads back as the data. */
  method ReplaceAndRead(fs: Ext4, ino: nat, raw: seq<Byte>, data: seq<Byte>, len: nat, now: nat, buf: array<Byte>,
                        maxLen: nat)
    returns (wrote: bool, read: bool, done: nat, ghost blks: seq<nat>)
    requires fs.Ready() && fs.geo.Ok() && |raw| == fs.geo.inodeSize && Mappable(raw) && IsIno(fs.geo, ino)
    requires DiskOk(fs.geo, fs.disk) && Shape(fs.geo, fs.State())
    requires ExtentMapped(raw) && AllOwned(fs.geo, fs.State(), TreeBlocks(Root(raw)))
    requires 0 < len <= WRITE_CAP && Mul(CeilDiv(len, fs.geo.blockSize), fs.geo.blockSize) <= |data|
    requires maxLen <= buf.Length
    modifies fs, buf
    ensures fs.Ready()
    ensures wrote <==> ReplaceFits(fs.geo, old(fs.State()), TreeBlocks(Root(raw)), CeilDiv(len, fs.geo.blockSize))
    ensures wrote && |RunsOf(0, blks)| <= ROOT_MAX ==>
      read && done == Min(len, maxLen) && SameStart(buf[..], data, done)
    ensures wrote && |RunsOf(0, blks)| > ROOT_MAX && maxLen > 0 && NoIndexInBoot(fs.disk) ==> !read
  {
    hide Valid, Shape, Mul, Replaced, OthersKept, AllOwned, TreeBlocks, FreeSet, RawAt, ReplaceFits, OwnsBlocks, RootOk,
         InodesKept, Filled, TooDeep, DiskOk, Readable, FileBytes, RunsOf, Geometry.Ok, Size;
    CapBound(fs.geo, len);
    var out: seq<Byte>;
    ghost var leaves: seq<nat>;
    wrote, out, blks, leaves := DoReplace(fs, ino, raw, data, len, now);
    read, done := false, 0;
    if !wrote {
      return;
    }
    var got: bool;
    got, out := ReadInode(fs, ino);
    ReplacedRoot(fs.geo, fs.disk, out, data, len, blks, leaves);
    read, done := ReadLoop(fs, out, buf, maxLen);
    ghost var n := Min(len, maxLen);
    LongEnough(fs.geo, len, data);
    if |RunsOf(0, blks)| <= ROOT_MAX {
      CapFits(fs.geo, len, blks);
      ReadAfterReplace(fs.geo, fs.disk, out, data, len, blks, leaves, n);
    } else if maxLen > 0 && NoIndexInBoot(fs.disk) {
      DeepUnread(fs.geo, fs.disk, Root(out), n);
    }
  }

  lemma CapBound(geo: Geometry, len: nat)
    requires geo.Ok() && len <= WRITE_CAP
    ensures len + geo.blockSize <= U32
  {
  }

  lemma LongEnough(geo: Geometry, len: nat, data: seq<Byte>)
    requires geo.Ok() && Mul(CeilDiv(len, geo.blockSize), geo.blockSize) <= |data|
    ensures len <= |data|
  {
  }

  /** What the read loop needs of a replaced inode. */
  lemma ReplacedRoot(geo: Geometry, disk: seq<Block>, out: seq<Byte>, data: seq<Byte>, len: nat, blks: seq<nat>,
                     leaves: seq<nat>)
    requires Replaced(geo, disk, out, data, len, blks, leaves) && len > 0
    ensures 128 <= |out| && ExtentMapped(out) && Size(geo, out) == len && LeafOk(Root(out))
    ensures |blks| == CeilDiv(len, geo.blockSize) && (|RunsOf(0, blks)| > ROOT_MAX ==> Depth(Root(out)) > 0)
  {
    hide RunsOf, Filled, Size, LeafHolds, GetExtent;
  }

  lemma DeepUnread(geo: Geometry, disk: seq<Block>, root: seq<Byte>, n: nat)
    requires LeafOk(root) && Depth(root) > 0 && n > 0
    requires |disk| > 0 && LeafOk(disk[0]) && Entries(disk[0]) == 0
    ensures !Readable(geo, disk, root, n)
  {
    DeepTreesUnreadable(disk, root, 0);
    assert Mul(0, geo.blockSize) < n && Fetch(disk, geo.blockSize, root, 0).None?;
  }

  // ---------------- other files ----------------

  lemma HitInRun(e: Run, logical: nat)
    requires Hits(e, logical) && !Unwritten(e)
    ensures Target(e, logical) in Blocks(e)
  {
    assert Blocks(e)[logical - e.first] == Target(e, logical);
  }

  lemma {:induction false} LookupFromInTree(node: seq<Byte>, i: nat, logical: nat)
    requires RootOk(node) && LeafOk(node) && i <= Entries(node) && LookupFrom(node, i, logical) != 0
    ensures LookupFrom(node, i, logical) in Expand(EntryRuns(node, Entries(node)))
    decreases Entries(node) - i
  {
    hide GetExtent, Expand;
    if i < Entries(node) {
      var e := GetExtent(node, i);
      if Hits(e, logical) {
        var runs := EntryRuns(node, Entries(node));
        ExpandSplit(runs, i);
        HitInRun(e, logical);
        assert runs[i] == e;
      } else {
        LookupFromInTree(node, i + 1, logical);
      }
    }
  }

  /** An inline file whose blocks the replacement did not release reads exactly as before. */
  lemma OtherFileKept(geo: Geometry, v: Vol, r: Vol, ino: nat, mine: seq<nat>, root: seq<Byte>, n: nat)
    requires Shape(geo, v) && Shape(geo, r) && OthersKept(geo, v, r, ino, mine)
    requires RootOk(root) && LeafOk(root) && HasMagic(root) && Depth(root) == 0
    requires forall b :: b in TreeBlocks(root) ==> Owned(geo, v, b) && b !in mine
    ensures Readable(geo, r.disk, root, n) == Readable(geo, v.disk, root, n)
    ensures FileBytes(geo, r.disk, root, n) == FileBytes(geo, v.disk, root, n)
  {
    hide Mul, Div, Mod, Owned, Shape, LookupFrom, Expand;
    ShapePositive(geo, v);
    ShapePositive(geo, r);
    forall lb: nat
      ensures Fetch(r.disk, geo.blockSize, root, lb) == Fetch(v.disk, geo.blockSize, root, lb)
    {
      var b := Lookup(root, lb);
      if b != 0 && b < |v.disk| {
        LookupFromInTree(root, 0, lb);
        NonEmptyRoot(root, lb);
        assert b in TreeBlocks(root);
      }
    }
    forall p | 0 <= p < n ensures FileByte(geo, r.disk, root, p) == FileByte(geo, v.disk, root, p) {
    }
  }

  lemma NonEmptyRoot(root: seq<Byte>, lb: nat)
    requires RootOk(root) && LeafOk(root) && HasMagic(root) && Lookup(root, lb) != 0
    ensures !Empty(root)
  {
  }
}
