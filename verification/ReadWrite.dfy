/** Reading a file's bytes, and replacing them: fs/ext4_mount.c over the layers below it. */
module ReadWrite {
  import opened Bytes
  import opened Arith
  import opened Volume
  import opened Driver
  import opened Inodes
  import opened Runs
  import opened Extents
  import opened Tree
  import opened Plan
  import opened Files
  import opened Release
  import opened Truncate
  import opened SectorCount

  // ---------------- mapping a file block ----------------

  /** The descent of extent_lookup as written: the first block read is `node`, and at depth zero the
      entries searched are the inode's own. An index node whose count overruns its block is not followed. */
  function Descend(disk: seq<Block>, root: seq<Byte>, depth: nat, node: nat, logical: nat): (r: Option<nat>)
    requires LeafOk(root)
    decreases depth
  {
    if depth == 0 then Some(Lookup(root, logical))
    else if node >= |disk| || !LeafOk(disk[node]) then None
    else
      var c := Chosen(disk[node], Entries(disk[node]), logical);
      if c < 0 then None else Descend(disk, root, depth - 1, GetIndex(disk[node], c).leaf, logical)
  }

  /** extent_lookup: the descent starts at block 0. */
  function ExtentLookup(disk: seq<Block>, root: seq<Byte>, logical: nat): (r: Option<nat>)
    requires LeafOk(root)
  {
    if !HasMagic(root) then None else Descend(disk, root, Depth(root), 0, logical)
  }

  /** What reading file block `lb` yields: a hole reads as zeros. */
  function Fetch(disk: seq<Block>, blockSize: nat, root: seq<Byte>, lb: nat): (r: Option<Block>)
    requires LeafOk(root)
  {
    match ExtentLookup(disk, root, lb)
    case None => None
    case Some(b) => if b == 0 then Some(Zeros(blockSize)) else if b < |disk| then Some(disk[b]) else None
  }

  /** The index loop of extent_lookup: the last entry whose key is at most the file block. */
  method ChooseIndex(node: seq<Byte>, logical: nat) returns (c: int)
    requires LeafOk(node)
    ensures c == Chosen(node, Entries(node), logical)
  {
    c := -1;
    for i := 0 to Entries(node)
      invariant c == Chosen(node, i, logical)
    {
      if GetIndex(node, i).first <= logical {
        c := i;
      }
    }
  }

  /** extent_lookup, as a loop. */
  method FindExtent(fs: Ext4, root: seq<Byte>, logical: nat) returns (r: Option<nat>)
    requires fs.Ready() && DiskOk(fs.geo, fs.disk) && LeafOk(root)
    modifies fs`scratch1
    ensures fs.Ready() && r == ExtentLookup(fs.disk, root, logical)
  {
    hide Valid, Lookup, Chosen, GetIndex;
    if !HasMagic(root) {
      return None;
    }
    var depth, node: nat := Depth(root), 0;
    while depth > 0
      invariant Descend(fs.disk, root, depth, node, logical) == Descend(fs.disk, root, Depth(root), 0, logical)
      invariant fs.Ready()
    {
      if node >= |fs.disk| || !LeafOk(fs.disk[node]) {
        return None;
      }
      fs.scratch1 := fs.disk[node];
      var c := ChooseIndex(fs.scratch1, logical);
      if c < 0 {
        return None;
      }
      node := GetIndex(fs.scratch1, c).leaf;
      depth := depth - 1;
    }
    var phys := SearchLeaf(root, logical);
    return Some(phys);
  }

  /** One file block, by way of the first scratch buffer. */
  method FetchBlock(fs: Ext4, root: seq<Byte>, lb: nat) returns (ok: bool)
    requires fs.Ready() && fs.geo.Ok() && DiskOk(fs.geo, fs.disk) && LeafOk(root)
    modifies fs`scratch1
    ensures fs.Ready() && ok == Fetch(fs.disk, fs.geo.blockSize, root, lb).Some?
    ensures ok ==> fs.scratch1 == Fetch(fs.disk, fs.geo.blockSize, root, lb).value
  {
    hide Valid, ExtentLookup;
    var m := FindExtent(fs, root, lb);
    match m
    case None => return false;
    case Some(b) =>
      if b == 0 {
        fs.scratch1 := Zeros(fs.geo.blockSize);
        return true;
      }
      if b >= |fs.disk| {
        return false;
      }
      fs.scratch1 := fs.disk[b];
      return true;
  }

  /** A root below the top level cannot be read when block 0 has no index entries: every lookup fails. */
  lemma DeepTreesUnreadable(disk: seq<Block>, root: seq<Byte>, logical: nat)
    requires LeafOk(root) && Depth(root) > 0
    requires |disk| > 0 && LeafOk(disk[0]) && Entries(disk[0]) == 0
    ensures ExtentLookup(disk, root, logical) == None
  {
  }

  // ---------------- reading ----------------

  /** All file blocks below byte `n` can be read. */
  ghost predicate Readable(geo: Geometry, disk: seq<Block>, root: seq<Byte>, n: nat)
    requires LeafOk(root)
  {
    forall lb: nat :: Mul(lb, geo.blockSize) < n ==> Fetch(disk, geo.blockSize, root, lb).Some?
  }

  function FileByte(geo: Geometry, disk: seq<Block>, root: seq<Byte>, p: nat): Byte
    requires geo.Ok() && LeafOk(root)
  {
    var f := Fetch(disk, geo.blockSize, root, Div(p, geo.blockSize));
    if f.Some? && Mod(p, geo.blockSize) < |f.value| then f.value[Mod(p, geo.blockSize)] else 0
  }

  /** The first `n` bytes of a file. */
  function FileBytes(geo: Geometry, disk: seq<Block>, root: seq<Byte>, n: nat): (s: seq<Byte>)
    requires geo.Ok() && LeafOk(root)
    ensures |s| == n && forall p :: 0 <= p < n ==> s[p] == FileByte(geo, disk, root, p)
  {
    seq(n, p requires 0 <= p => FileByte(geo, disk, root, p))
  }

  function Min(a: nat, b: nat): nat { if a < b then a else b }

  /** One round of the copy: bytes `done` up to `done + chunk` all come from one block. */
  lemma ChunkBytes(geo: Geometry, disk: seq<Block>, root: seq<Byte>, done: nat, t: nat)
    requires geo.Ok() && LeafOk(root) && Mod(done, geo.blockSize) + t < geo.blockSize
    ensures Div(done + t, geo.blockSize) == Div(done, geo.blockSize)
    ensures Mod(done + t, geo.blockSize) == Mod(done, geo.blockSize) + t
  {
    DivModStep(done, t, geo.blockSize);
  }

  lemma FetchSize(geo: Geometry, disk: seq<Block>, root: seq<Byte>, lb: nat)
    requires geo.Ok() && DiskOk(geo, disk) && LeafOk(root) && Fetch(disk, geo.blockSize, root, lb).Some?
    ensures |Fetch(disk, geo.blockSize, root, lb).value| == geo.blockSize
  {
  }

  /** The loop of ext4_read: it fails at the first block that cannot be read; otherwise the buffer
      starts with the file's first bytes, as many as the file has or the caller wants. */
  method ReadLoop(fs: Ext4, raw: seq<Byte>, buf: array<Byte>, maxLen: nat) returns (ok: bool, done: nat)
    requires fs.Ready() && fs.geo.Ok() && DiskOk(fs.geo, fs.disk)
    requires 128 <= |raw| && ExtentMapped(raw) && LeafOk(Root(raw)) && maxLen <= buf.Length
    modifies fs`scratch1, buf
    ensures fs.Ready() && fs.State() == old(fs.State())
    ensures ok <==> Readable(fs.geo, fs.disk, Root(raw), Min(Size(fs.geo, raw), maxLen))
    ensures ok ==> done == Min(Size(fs.geo, raw), maxLen)
    ensures ok ==> buf[..done] == FileBytes(fs.geo, fs.disk, Root(raw), done)
    ensures forall p :: Min(Size(fs.geo, raw), maxLen) <= p < buf.Length ==> buf[p] == old(buf[p])
  {
    hide Valid, Fetch, Mul, Div, Mod, Size;
    var geo, root := fs.geo, Root(raw);
    var want := Min(Size(geo, raw), maxLen);
    done := 0;
    while done < want
      invariant 0 <= done <= want
      invariant fs.Ready() && fs.State() == old(fs.State())
      invariant Readable(geo, fs.disk, root, done)
      invariant forall p :: want <= p < buf.Length ==> buf[p] == old(buf[p])
      invariant forall p :: 0 <= p < done ==> buf[p] == FileByte(geo, fs.disk, root, p)
    {
      var lb, boff := Div(done, geo.blockSize), Mod(done, geo.blockSize);
      var chunk := geo.blockSize - boff;
      if chunk > want - done {
        chunk := want - done;
      }
      var got := FetchBlock(fs, root, lb);
      if !got {
        return false, 0;
      }
      FetchSize(geo, fs.disk, root, lb);
      forall t | 0 <= t < chunk {
        buf[done + t] := fs.scratch1[boff + t];
      }
      forall p | done <= p < done + chunk
        ensures buf[p] == FileByte(geo, fs.disk, root, p)
      {
        ChunkBytes(geo, fs.disk, root, done, p - done);
        assert buf[done + (p - done)] == fs.scratch1[boff + (p - done)];
      }
      ReadableGrows(geo, fs.disk, root, done, chunk);
      done := done + chunk;
    }
    ok := true;
    assert |FileBytes(geo, fs.disk, root, done)| == done;
  }

  lemma ReadableGrows(geo: Geometry, disk: seq<Block>, root: seq<Byte>, done: nat, chunk: nat)
    requires geo.Ok() && LeafOk(root) && Readable(geo, disk, root, done)
    requires Mod(done, geo.blockSize) + chunk <= geo.blockSize
    requires Fetch(disk, geo.blockSize, root, Div(done, geo.blockSize)).Some?
    ensures Readable(geo, disk, root, done + chunk)
  {
    hide Fetch, Mul, Div, Mod;
    var q := Div(done, geo.blockSize);
    forall lb: nat | Mul(lb, geo.blockSize) < done + chunk
      ensures Fetch(disk, geo.blockSize, root, lb).Some?
    {
      if q < lb {
        SlotsApart(q, lb, geo.blockSize);
      } else if lb < q {
        SlotsApart(lb, q, geo.blockSize);
      }
    }
  }

  // ---------------- replacing ----------------

  /** The last field updates of do_replace: the size and the three times. */
  function Stamp(raw: seq<Byte>, len: nat, now: nat): (r: seq<Byte>)
    requires 128 <= |raw| && len < U32
    ensures |r| == |raw|
  {
    var a := Put32(Put32(raw, 4, len), 108, 0);
    Put32(Put32(Put32(a, 16, now % U32), 12, now % U32), 8, now % U32)
  }

  lemma StampFields(geo: Geometry, raw: seq<Byte>, len: nat, now: nat)
    requires 128 <= |raw| && len < U32
    ensures var r := Stamp(raw, len, now);
      Root(r) == Root(raw) && Size(geo, r) == len && ExtentMapped(r) == ExtentMapped(raw) && IsDir(r) == IsDir(raw)
  {
    hide Put32;
    var a := Put32(raw, 4, len);
    var b := Put32(a, 108, 0);
    var c := Put32(b, 16, now % U32);
    var d := Put32(c, 12, now % U32);
    var r := Put32(d, 8, now % U32);
    assert Get32(r, 4) == Get32(a, 4) && Get32(r, 108) == Get32(b, 108);
    assert forall j :: 0 <= j < |raw| && (j < 4 || 20 <= j < 108 || 112 <= j) ==> r[j] == raw[j];
  }

  /** A rewritten inode: size and times are new, and so may be sector count and block area; every other
      byte is as it was. */
  ghost predicate Rewritten(geo: Geometry, raw: seq<Byte>, out: seq<Byte>, len: nat, now: nat) {
    && 128 <= |raw| == |out| && Get32(out, 4) == len && Get32(out, 108) == 0
    && Get32(out, 8) == now % U32 && Get32(out, 12) == now % U32 && Get32(out, 16) == now % U32
    && forall j :: 0 <= j < |raw| && !SectorByte(geo, j) && !SizeByte(j) && !TimeByte(j) && !AreaByte(j) ==> out[j] == raw[j]
  }

  /** The sector count of a rewritten inode: less what truncation took off, and more by the new blocks. */
  ghost predicate SectorsMoved(geo: Geometry, raw: seq<Byte>, out: seq<Byte>, down: nat, up: nat)
    requires 128 <= |raw| && 128 <= |out|
  {
    var base := Clamp(Sectors(geo, raw) - SectorsIn(geo, down));
    base + SectorsIn(geo, up) < MaxSectors(geo) ==> Sectors(geo, out) == base + SectorsIn(geo, up)
  }

  lemma StampBytes(geo: Geometry, raw: seq<Byte>, len: nat, now: nat)
    requires 128 <= |raw| && len < U32
    ensures Rewritten(geo, raw, Stamp(raw, len, now), len, now)
    ensures Sectors(geo, Stamp(raw, len, now)) == Sectors(geo, raw)
  {
    hide Put32;
    var a := Put32(raw, 4, len);
    var b := Put32(a, 108, 0);
    var c := Put32(b, 16, now % U32);
    var d := Put32(c, 12, now % U32);
    var r := Put32(d, 8, now % U32);
    assert Get32(r, 4) == Get32(a, 4) && Get32(r, 108) == Get32(b, 108);
    assert Get32(r, 16) == Get32(c, 16) && Get32(r, 12) == Get32(d, 12);
  }

  lemma AppendedBytes(geo: Geometry, raw: seq<Byte>, out: seq<Byte>, leaves: nat, delta: int)
    requires 128 <= |raw| && SameOutsideRoot(out, AddSectors(geo, AddBlocks(geo, raw, leaves), delta))
    ensures |out| == |raw|
    ensures forall j :: 0 <= j < |raw| && !SectorByte(geo, j) && !AreaByte(j) ==> out[j] == raw[j]
  {
    hide AddSectors, AddBlocks;
  }

  /** Truncated, appended to and stamped. */
  lemma RewrittenBy(geo: Geometry, raw: seq<Byte>, mid: seq<Byte>, next: seq<Byte>, len: nat, now: nat, down: nat,
                    n: nat, leaves: nat)
    requires geo.Ok() && 128 <= |raw| && len < U32 && InodeEmptied(geo, raw, mid)
    requires Sectors(geo, mid) == Clamp(Sectors(geo, raw) - SectorsIn(geo, down))
    requires (n == leaves == 0 && next == mid)
          || SameOutsideRoot(next, AddSectors(geo, AddBlocks(geo, mid, leaves), Mul(n, geo.blockSize)))
    ensures |next| == |raw| && Rewritten(geo, raw, Stamp(next, len, now), len, now)
    ensures SectorsMoved(geo, raw, Stamp(next, len, now), down, n + leaves)
  {
    hide AddSectors, AddBlocks, Mul, Stamp, Sectors, SectorsIn, MaxSectors, SameOutsideRoot;
    if n == leaves == 0 && next == mid {
      NoSectors(geo, 0);
    } else {
      AppendedBytes(geo, mid, next, leaves, Mul(n, geo.blockSize));
      if Sectors(geo, mid) + SectorsIn(geo, n + leaves) < MaxSectors(geo) {
        SectorsUp(geo, mid, next, n, leaves);
      }
    }
    StampBytes(geo, next, len, now);
  }

  /** Every block owned before, other than `mine`, has the contents it had. */
  ghost predicate BlocksKept(geo: Geometry, v: Vol, r: Vol, mine: seq<nat>)
    requires Shape(geo, v) && Shape(geo, r)
  {
    forall b: nat :: Owned(geo, v, b) && b !in mine ==> r.disk[b] == v.disk[b]
  }

  ghost predicate TablesKept(geo: Geometry, v: Vol, r: Vol)
    requires Shape(geo, v) && Shape(geo, r)
  {
    forall b :: 0 <= b < geo.blocksCount && IsTable(geo, Locs(geo, v.gdt), b) ==> r.disk[b] == v.disk[b]
  }

  /** What a replacement leaves alone: every other inode, every block owned before that the file did not map,
      and of the descriptors all but free-block counts. */
  ghost predicate OthersKept(geo: Geometry, v: Vol, r: Vol, ino: nat, mine: seq<nat>)
    requires Shape(geo, v) && Shape(geo, r)
  {
    && Locs(geo, r.gdt) == Locs(geo, v.gdt)
    && BlocksKept(geo, v, r, mine) && DescriptorsKept(geo, v, r)
    && (forall j: nat :: IsIno(geo, j) && j != ino ==>
          RawAt(geo, Locs(geo, v.gdt), r.disk, j) == RawAt(geo, Locs(geo, v.gdt), v.disk, j))
  }

  /** Freeing `mine` and then taking blocks touches nothing another file owns, and no inode. */
  lemma FreeThenTake(geo: Geometry, v: Vol, w: Vol, r: Vol, mine: seq<nat>, s: set<nat>)
    requires FreedAll(geo, v, w, SetOf(mine)) && TakenAll(geo, w, r, s)
    ensures Shape(geo, v) && Shape(geo, r) && Locs(geo, r.gdt) == Locs(geo, v.gdt)
    ensures BlocksKept(geo, v, r, mine) && TablesKept(geo, v, r) && DescriptorsKept(geo, v, r)
  {
    hide Synced, Counted, MetaUsed, DescriptorsKept;
    DescriptorsTwice(geo, v, w, r);
    forall b | 0 <= b < geo.blocksCount && IsTable(geo, Locs(geo, v.gdt), b)
      ensures r.disk[b] == v.disk[b]
    {
      TableApartFromAllocMeta(geo, Locs(geo, v.gdt), b);
    }
  }

  lemma TableWriteKeeps(geo: Geometry, v: Vol, r: Vol, ino: nat, raw: seq<Byte>)
    requires Valid(geo, v) && Valid(geo, r) && IsIno(geo, ino) && |raw| == geo.inodeSize && DescriptorsKept(geo, v, r)
    ensures var x := r.(disk := PutRaw(geo, Locs(geo, r.gdt), r.disk, ino, raw)); Shape(geo, x) && DescriptorsKept(geo, v, x)
  {
    hide Synced, Counted, MetaUsed, PutRaw, CountByteAt;
    PutRawEvolves(geo, r, ino, raw);
    forall b | 0 <= b < |r.disk| && IsGdt(geo, b) ensures !IsTable(geo, Locs(geo, r.gdt), b) {
      if IsTable(geo, Locs(geo, r.gdt), b) {
        TableApartFromAllocMeta(geo, Locs(geo, r.gdt), b);
      }
    }
  }

  /** Writing the inode afterwards keeps the others as well. */
  lemma ThenWriteInode(geo: Geometry, v: Vol, r: Vol, ino: nat, raw: seq<Byte>, mine: seq<nat>)
    requires Valid(geo, v) && Valid(geo, r) && IsIno(geo, ino) && |raw| == geo.inodeSize
    requires Locs(geo, r.gdt) == Locs(geo, v.gdt) && BlocksKept(geo, v, r, mine) && TablesKept(geo, v, r)
    requires DescriptorsKept(geo, v, r)
    ensures var x := r.(disk := PutRaw(geo, Locs(geo, r.gdt), r.disk, ino, raw));
      && Valid(geo, x) && FreeSet(geo, x) == FreeSet(geo, r) && OthersKept(geo, v, x, ino, mine)
      && RawAt(geo, Locs(geo, x.gdt), x.disk, ino) == raw
      && (forall b :: 0 <= b < |r.disk| && !IsTable(geo, Locs(geo, v.gdt), b) ==> x.disk[b] == r.disk[b])
  {
    hide Synced, Counted, MetaUsed, PutRaw, RawAt;
    var locs := Locs(geo, v.gdt);
    TableWriteKeeps(geo, v, r, ino, raw);
    hide DescriptorsKept;
    PutRawEvolves(geo, r, ino, raw);
    PutRawReads(geo, locs, r.disk, ino, raw, ino);
    var x := r.(disk := PutRaw(geo, locs, r.disk, ino, raw));
    forall j: nat | IsIno(geo, j) && j != ino
      ensures RawAt(geo, locs, x.disk, j) == RawAt(geo, locs, v.disk, j)
    {
      PutRawReads(geo, locs, r.disk, ino, raw, j);
      RawAtSame(geo, locs, r.disk, v.disk, j);
    }
    forall b: nat | Owned(geo, v, b) && b !in mine
      ensures x.disk[b] == v.disk[b]
    {
      assert !IsTable(geo, locs, b);
    }
  }

  /** The inode a successful replacement has written, for the new blocks `blks` and leaf blocks. */
  ghost predicate Replaced(geo: Geometry, disk: seq<Block>, out: seq<Byte>, data: seq<Byte>, len: nat,
                           blks: seq<nat>, leaves: seq<nat>) {
    && geo.Ok() && 128 <= |out| && ExtentMapped(out) && Size(geo, out) == len
    && |blks| == CeilDiv(len, geo.blockSize) && Filled(disk, blks, Some(data), geo.blockSize)
    && 0 !in blks
    && var runs := RunsOf(0, blks);
       if len == 0 then blks == leaves == [] && Empty(Root(out)) && RootOk(Root(out))
       else if |runs| <= ROOT_MAX then leaves == [] && InlineTree(out, runs)
       else DeepTree(geo, disk, out, runs, leaves)
  }

  lemma SameRoot(a: seq<Byte>, b: seq<Byte>)
    requires 128 <= |a| == |b| && forall j :: 8 <= j < 108 ==> a[j] == b[j]
    ensures Root(a) == Root(b)
  {
  }

  lemma EmptiedIs(geo: Geometry, disk: seq<Block>, raw: seq<Byte>)
    requires geo.Ok() && DiskOk(geo, disk) && 128 <= |raw| && ExtentMapped(raw) && RootOk(Root(raw))
    ensures var out := ZeroSize(Emptied(geo, disk, raw));
      |out| == |raw| && ExtentMapped(out) && Empty(Root(out)) && RootOk(Root(out)) && IsDir(out) == IsDir(raw)
  {
    hide Mul, AddSectors, TreeBlocks, Put32;
    var node := Root(raw);
    var e := Emptied(geo, disk, raw);
    var z := ZeroSize(e);
    assert forall j :: 0 <= j < |raw| && (j < 4 || 8 <= j < 108 || 112 <= j) ==> z[j] == e[j];
    SameRoot(z, e);
    if !Empty(node) {
      var a := AddSectors(geo, raw, 0 - Mul(FreedUnits(node), geo.blockSize));
      assert e == WithRoot(a, Cleared(node));
      assert Root(e) == Cleared(node);
      assert forall j :: 0 <= j < 4 ==> e[j] == raw[j];
      assert forall j :: 32 <= j < 36 ==> e[j] == raw[j];
    }
  }

  /** Appending keeps the kind and mapping flag of the inode. */
  lemma AppendedFields(geo: Geometry, raw: seq<Byte>, out: seq<Byte>, leaves: nat, delta: int)
    requires 128 <= |raw| && SameOutsideRoot(out, AddSectors(geo, AddBlocks(geo, raw, leaves), delta))
    ensures ExtentMapped(out) == ExtentMapped(raw) && IsDir(out) == IsDir(raw)
  {
    hide AddSectors, AddBlocks;
    var b := AddBlocks(geo, raw, leaves);
    var a := AddSectors(geo, b, delta);
    FieldsKept(geo, b, raw);
    FieldsKept(geo, a, b);
  }

  lemma TakenNonzero(geo: Geometry, v: Vol, r: Vol, blks: seq<nat>, s: set<nat>)
    requires TakenAll(geo, v, r, s) && SetOf(blks) <= s
    ensures 0 !in blks && forall b :: b in blks ==> !IsTable(geo, Locs(geo, v.gdt), b)
  {
    hide Synced, Counted, MetaUsed;
    forall b | b in blks ensures b != 0 && !IsTable(geo, Locs(geo, v.gdt), b) {
      assert b in SetOf(blks);
    }
  }

  lemma {:induction false} DeepTreeKept(geo: Geometry, a: seq<Block>, b: seq<Block>, raw: seq<Byte>, out: seq<Byte>,
                                        runs: seq<Run>, leaves: seq<nat>)
    requires geo.Ok() && 128 <= |raw| && 128 <= |out| && Root(raw) == Root(out) && |a| == |b|
    requires DeepTree(geo, a, raw, runs, leaves)
    requires forall x :: x in leaves ==> x < |a| && b[x] == a[x]
    ensures DeepTree(geo, b, out, runs, leaves)
  {
    hide Holds, Mul, GetIndex;
    var cap, root := LeafCap(geo), Root(out);
    forall l | 0 <= l < LeafCount(|runs|, cap) ensures LeafHolds(b, GetIndex(root, l), runs, cap, l) {
      assert LeafHolds(a, GetIndex(root, l), runs, cap, l);
      assert GetIndex(root, l).leaf == leaves[l] && leaves[l] in leaves;
    }
  }

  /** Once the new blocks hold the data, stamping and writing the inode completes the replacement. */
  lemma ReplacedBy(geo: Geometry, a: seq<Block>, b: seq<Block>, raw: seq<Byte>, mid: seq<Byte>, data: seq<Byte>,
                   len: nat, now: nat, blks: seq<nat>, leaves: seq<nat>)
    requires geo.Ok() && 128 <= |raw| && 0 < len < U32 && |blks| == CeilDiv(len, geo.blockSize) && 0 !in blks
    requires Appended(geo, a, raw, mid, 0, blks, leaves) && ExtentMapped(raw)
    requires Filled(a, blks, Some(data), geo.blockSize) && |a| == |b|
    requires forall x :: x in blks || x in leaves ==> x < |a| && b[x] == a[x]
    ensures Replaced(geo, b, Stamp(mid, len, now), data, len, blks, leaves)
    ensures IsDir(Stamp(mid, len, now)) == IsDir(raw)
  {
    hide Filled, TreeHolds, Holds, Stamp, Mul, RunsOf, AddSectors, Size;
    var out := Stamp(mid, len, now);
    StampFields(geo, mid, len, now);
    AppendedFields(geo, raw, mid, |leaves|, Mul(|blks|, geo.blockSize));
    FilledKept(a, b, blks, Some(data), geo.blockSize);
    if |RunsOf(0, blks)| > ROOT_MAX {
      DeepTreeKept(geo, a, b, mid, out, RunsOf(0, blks), leaves);
    }
  }

  lemma ReplacedByNothing(geo: Geometry, disk: seq<Block>, mid: seq<Byte>, data: seq<Byte>, now: nat)
    requires geo.Ok() && 128 <= |mid| && ExtentMapped(mid) && Empty(Root(mid)) && RootOk(Root(mid))
    ensures Replaced(geo, disk, Stamp(mid, 0, now), data, 0, [], [])
    ensures IsDir(Stamp(mid, 0, now)) == IsDir(mid)
  {
    hide Stamp;
    StampFields(geo, mid, 0, now);
  }

  /** Every inode on disk reads as before. */
  ghost predicate InodesKept(geo: Geometry, v: Vol, r: Vol)
    requires Shape(geo, v) && Shape(geo, r)
  {
    forall j: nat :: IsIno(geo, j) ==>
      RawAt(geo, Locs(geo, r.gdt), r.disk, j) == RawAt(geo, Locs(geo, v.gdt), v.disk, j)
  }

  /** The data of a replacement, and the tree over it, fit once the old blocks are released. */
  ghost predicate ReplaceFits(geo: Geometry, v: Vol, mine: seq<nat>, count: nat)
    requires Shape(geo, v) && AllOwned(geo, v, mine)
  {
    OwnedOnVolume(geo, v, mine);
    count == 0 || WillFit(geo, FreeSet(geo, v) + SetOf(mine), 0, count)
  }

  lemma OwnedOnVolume(geo: Geometry, v: Vol, mine: seq<nat>)
    requires Shape(geo, v) && AllOwned(geo, v, mine)
    ensures geo.Ok() && OnVolume(geo, FreeSet(geo, v) + SetOf(mine))
  {
    FreeOnVolume(geo, v);
  }

  /** The blocks a file's tree names are in use, and none was taken for something else meanwhile. */
  ghost predicate OwnsBlocks(geo: Geometry, r: Vol, root: seq<Byte>, others: set<nat>)
    requires Shape(geo, r) && RootOk(root)
  {
    forall b :: b in TreeBlocks(root) ==> Owned(geo, r, b) && b !in others
  }

  /** do_replace: the old blocks are released, fresh blocks take the data, and the inode is written.
      Nothing else on the volume changes but the allocator's records. On failure the inode on disk is
      still the old one, although the blocks it maps have been released. */
  method DoReplace(fs: Ext4, ino: nat, raw: seq<Byte>, data: seq<Byte>, len: nat, now: nat)
    returns (ok: bool, out: seq<Byte>, ghost blks: seq<nat>, ghost leaves: seq<nat>)
    requires fs.Ready() && fs.geo.Ok() && |raw| == fs.geo.inodeSize && Mappable(raw)
    requires DiskOk(fs.geo, fs.disk) && Shape(fs.geo, fs.State())
    requires ExtentMapped(raw) ==> AllOwned(fs.geo, fs.State(), TreeBlocks(Root(raw)))
    requires len + fs.geo.blockSize <= U32 && Mul(CeilDiv(len, fs.geo.blockSize), fs.geo.blockSize) <= |data|
    modifies fs
    ensures fs.Ready() && DiskOk(fs.geo, fs.disk) && Shape(fs.geo, fs.State())
    ensures !ExtentMapped(raw) ==> !ok && fs.State() == old(fs.State())
    ensures ok ==> IsIno(fs.geo, ino) && Replaced(fs.geo, fs.disk, out, data, len, blks, leaves)
    ensures ok ==> |out| == fs.geo.inodeSize && RawAt(fs.geo, Locs(fs.geo, fs.gdt), fs.disk, ino) == out
    ensures ok ==> IsDir(out) == IsDir(raw) && Rewritten(fs.geo, raw, out, len, now)
    ensures ok ==> SectorsMoved(fs.geo, raw, out, UnitsOf(fs.geo, old(fs.disk), raw), |blks| + |leaves|)
    ensures ExtentMapped(raw) ==>
      && OthersKept(fs.geo, old(fs.State()), fs.State(), ino, TreeBlocks(Root(raw)))
      && (FreeSet(fs.geo, fs.State())
          == FreeSet(fs.geo, old(fs.State())) + SetOf(TreeBlocks(Root(raw))) - SetOf(blks) - SetOf(leaves))
    ensures !ok ==> InodesKept(fs.geo, old(fs.State()), fs.State())
    ensures !ok && ExtentMapped(raw) ==> Filled(fs.disk, blks, Some(data), fs.geo.blockSize)
    ensures !ok && ExtentMapped(raw) && IsIno(fs.geo, ino) ==>
      || SetOf(TreeBlocks(Root(raw))) <= SetOf(blks) + SetOf(leaves)
      || (|blks| == CeilDiv(len, fs.geo.blockSize) && leaves == [] && TooDeep(fs.geo, |RunsOf(0, blks)|))
    ensures ok <==> ExtentMapped(raw) && IsIno(fs.geo, ino)
                    && ReplaceFits(fs.geo, old(fs.State()), TreeBlocks(Root(raw)), CeilDiv(len, fs.geo.blockSize))
    ensures ExtentMapped(raw) && IsIno(fs.geo, ino) && RawAt(fs.geo, Locs(fs.geo, old(fs.gdt)), old(fs.disk), ino) == raw ==>
      var root := Root(RawAt(fs.geo, Locs(fs.geo, fs.gdt), fs.disk, ino));
      var orphans := if ok then {} else SetOf(blks) + SetOf(leaves);
      RootOk(root) && (OwnsBlocks(fs.geo, fs.State(), root, orphans) <==> ok || TreeBlocks(Root(raw)) == [])
  {
    hide Valid, FreedAll, TakenAll, Owned, Shape, Appended, Replaced, OthersKept, AllOwned, TreeBlocks, Mul, Filled,
         BlocksKept, TablesKept, FreeSet, PutRaw, RawAt, Stamp, Emptied, ZeroSize, DiskOk, InodesKept, AllCovered,
         PickedFrom, AppendFits, ReplaceFits, OwnsBlocks, TooDeep, Distinct, RootOk, Rewritten, SectorsMoved,
         InodeEmptied, Sectors, SectorsIn, UnitsOf, SameOutsideRoot, AddSectors, AddBlocks, DescriptorsKept;
    InodesSame(fs.geo, fs.State());
    out, blks, leaves := raw, [], [];
    ghost var v := fs.State();
    if !ExtentMapped(raw) {
      return false, out, blks, leaves;
    }
    ghost var mine := TreeBlocks(Root(raw));
    var done, mid := TruncateInode(fs, raw, 0);
    EmptiedIs(fs.geo, v.disk, raw);
    ghost var w := fs.State();
    ReadyShape(fs);
    var nblocks := CeilDiv(len, fs.geo.blockSize);
    CountBelow(len, fs.geo.blockSize);
    ReplaceFitsIs(fs.geo, v, w, mine, nblocks);
    CoveredByLength(fs.geo, len);
    NothingSet();
    var next := mid;
    if nblocks > 0 {
      var appended: bool;
      appended, next, blks, leaves := AppendBlocks(fs, mid, 0, nblocks, Some(data));
      if !appended {
        ReadyShape(fs);
        FailedReplace(fs.geo, v, w, fs.State(), ino, mine, blks, leaves);
        FailedOwns(fs.geo, v, fs.State(), ino, raw, SetOf(blks) + SetOf(leaves));
        return false, next, blks, leaves;
      }
    } else {
      TakenNone(fs.geo, w);
      FilledNone(fs.disk, data, fs.geo.blockSize);
      assert SetOf(blks) + SetOf(leaves) == {};
    }
    ghost var r := fs.State();
    out := Stamp(next, len, now);
    AppendedOutside(fs.geo, fs.disk, mid, next, 0, blks, leaves);
    RewrittenBy(fs.geo, raw, mid, next, len, now, UnitsOf(fs.geo, v.disk, raw), |blks|, |leaves|);
    TakenShape(fs.geo, w, r, SetOf(blks) + SetOf(leaves));
    ok := WriteInode(fs, ino, out);
    ReadyShape(fs);
    if !ok {
      FailedReplace(fs.geo, v, w, r, ino, mine, blks, leaves);
    } else {
      FinishReplace(fs.geo, v, w, r, ino, mine, blks, leaves, out);
      if nblocks > 0 {
        ReplacedBy(fs.geo, r.disk, fs.disk, mid, next, data, len, now, blks, leaves);
      } else {
        ReplacedByNothing(fs.geo, fs.disk, mid, data, now);
      }
      ReplacedOwns(fs.geo, w, r, fs.State(), out, data, len, blks, leaves);
    }
  }

  lemma AppendedOutside(geo: Geometry, disk: seq<Block>, raw: seq<Byte>, out: seq<Byte>, start: nat, blks: seq<nat>,
                        leaves: seq<nat>)
    requires geo.Ok() && 128 <= |raw|
    ensures Appended(geo, disk, raw, out, start, blks, leaves) ==>
      SameOutsideRoot(out, AddSectors(geo, AddBlocks(geo, raw, |leaves|), Mul(|blks|, geo.blockSize)))
  {
  }

  lemma FilledNone(disk: seq<Block>, data: seq<Byte>, blockSize: nat)
    ensures Filled(disk, [], Some(data), blockSize)
  {
  }

  lemma ReplaceFitsIs(geo: Geometry, v: Vol, w: Vol, mine: seq<nat>, count: nat)
    requires Shape(geo, v) && Shape(geo, w) && AllOwned(geo, v, mine) && FreedAll(geo, v, w, SetOf(mine))
    ensures ReplaceFits(geo, v, mine, count) <==> count == 0 || AppendFits(geo, w, 0, count)
  {
    hide Valid, Owned, FreeSet, Shape, WillFit;
  }

  lemma CoveredByLength(geo: Geometry, len: nat)
    requires geo.Ok() && len + geo.blockSize <= U32
    ensures AllCovered(geo, 0, CeilDiv(len, geo.blockSize))
  {
    hide Mul, AllCovered;
    var n := CeilDiv(len, geo.blockSize);
    MulByKilo(n, geo.blockSize);
    SmallIsCovered(geo, 0, n);
  }

  lemma {:induction false} MulByKilo(n: nat, d: nat)
    requires 1024 <= d
    ensures 1024 * n <= Mul(n, d)
  {
    if n > 0 {
      MulByKilo(n - 1, d);
    }
  }

  /** After a failure the inode is the old one, and names blocks that are free or taken for the data:
      it owns none. */
  lemma FailedOwns(geo: Geometry, v: Vol, r: Vol, ino: nat, raw: seq<Byte>, taken: set<nat>)
    requires Shape(geo, v) && Shape(geo, r) && 128 <= |raw| && RootOk(Root(raw)) && InodesKept(geo, v, r)
    requires SetOf(TreeBlocks(Root(raw))) <= FreeSet(geo, r) + taken
    ensures IsIno(geo, ino) ==> RawAt(geo, Locs(geo, r.gdt), r.disk, ino) == RawAt(geo, Locs(geo, v.gdt), v.disk, ino)
    ensures OwnsBlocks(geo, r, Root(raw), taken) <==> TreeBlocks(Root(raw)) == []
  {
    hide RawAt, TreeBlocks, RootOk, Shape;
    var t := TreeBlocks(Root(raw));
    if t != [] {
      assert t[0] in t && t[0] in SetOf(t);
    }
  }

  /** After a success the tree names blocks taken by the call, and all of them are in use. */
  lemma ReplacedOwns(geo: Geometry, w: Vol, r: Vol, x: Vol, out: seq<Byte>, data: seq<Byte>, len: nat, blks: seq<nat>,
                     leaves: seq<nat>)
    requires TakenAll(geo, w, r, SetOf(blks) + SetOf(leaves)) && Distinct(blks) && |blks| < U32
    requires Shape(geo, r) && Shape(geo, x) && FreeSet(geo, x) == FreeSet(geo, r) && Locs(geo, x.gdt) == Locs(geo, r.gdt)
    requires 128 <= |out| && Replaced(geo, x.disk, out, data, len, blks, leaves)
    ensures RootOk(Root(out)) && OwnsBlocks(geo, x, Root(out), {})
  {
    hide TakenAll, Replaced, Shape, FreeSet, TreeBlocks, Owned;
    ReplacedTree(geo, w, r, x.disk, out, data, len, blks, leaves);
    forall b | b in TreeBlocks(Root(out)) ensures Owned(geo, x, b) {
      assert b in SetOf(TreeBlocks(Root(out)));
      TakenThenOwned(geo, w, r, x, SetOf(blks) + SetOf(leaves), b);
    }
  }

  lemma TakenThenOwned(geo: Geometry, w: Vol, r: Vol, x: Vol, s: set<nat>, b: nat)
    requires TakenAll(geo, w, r, s) && b in s
    requires Shape(geo, r) && Shape(geo, x) && FreeSet(geo, x) == FreeSet(geo, r) && Locs(geo, x.gdt) == Locs(geo, r.gdt)
    ensures Owned(geo, x, b)
  {
    hide Synced, Counted, MetaUsed, Meta;
  }

  lemma TakenBelow(geo: Geometry, v: Vol, w: Vol, blks: seq<nat>, leaves: seq<nat>)
    requires TakenAll(geo, v, w, SetOf(blks) + SetOf(leaves))
    ensures geo.Ok() && 0 !in leaves && forall b :: b in blks ==> b < geo.blocksCount < 0x1_0000_0000_0000
  {
    hide TakenAll, SetOf;
    TakenNonzero(geo, v, w, leaves, SetOf(blks) + SetOf(leaves));
    BlocksBelow(geo, v, w, blks, SetOf(blks) + SetOf(leaves));
    TakenValid(geo, v, w, SetOf(blks) + SetOf(leaves));
    hide Valid;
    ValidShape(geo, v);
  }

  lemma EmptyTree(node: seq<Byte>)
    requires RootOk(node)
    ensures Empty(node) ==> TreeBlocks(node) == []
  {
  }

  lemma ReplacedTree(geo: Geometry, w: Vol, r: Vol, disk: seq<Block>, out: seq<Byte>, data: seq<Byte>, len: nat,
                     blks: seq<nat>, leaves: seq<nat>)
    requires TakenAll(geo, w, r, SetOf(blks) + SetOf(leaves)) && Distinct(blks) && |blks| < U32
    requires Replaced(geo, disk, out, data, len, blks, leaves)
    ensures RootOk(Root(out)) && SetOf(TreeBlocks(Root(out))) <= SetOf(blks) + SetOf(leaves)
  {
    hide TakenAll, RunsOf, SetOf, Filled, TreeHolds, Holds, Distinct, Addressable;
    TakenBelow(geo, w, r, blks, leaves);
    if len == 0 {
      EmptyTree(Root(out));
      NothingSet();
    } else if |RunsOf(0, blks)| <= ROOT_MAX {
      RunsAddressable(0, blks);
      InlineReleases(out, 0, blks);
    } else {
      DeepReleases(geo, disk, out, RunsOf(0, blks), leaves);
    }
  }

  lemma InodesSame(geo: Geometry, v: Vol)
    requires Shape(geo, v)
    ensures InodesKept(geo, v, v)
  {
  }

  /** A replacement that stops before the inode is written: no inode changes, but the old blocks are
      free and the new ones taken. */
  lemma FailedReplace(geo: Geometry, v: Vol, w: Vol, r: Vol, ino: nat, mine: seq<nat>, blks: seq<nat>, leaves: seq<nat>)
    requires FreedAll(geo, v, w, SetOf(mine)) && TakenAll(geo, w, r, SetOf(blks) + SetOf(leaves))
    ensures Shape(geo, v) && Shape(geo, r) && OthersKept(geo, v, r, ino, mine) && InodesKept(geo, v, r)
    ensures FreeSet(geo, r) == FreeSet(geo, v) + SetOf(mine) - SetOf(blks) - SetOf(leaves)
  {
    hide FreedAll, TakenAll, BlocksKept, RawAt, FreeSet, LocsOk;
    FreeThenTake(geo, v, w, r, mine, SetOf(blks) + SetOf(leaves));
    FreeThenTakeSets(geo, v, w, r, SetOf(mine), SetOf(blks), SetOf(leaves));
    var locs := Locs(geo, v.gdt);
    forall j: nat | IsIno(geo, j) ensures RawAt(geo, locs, r.disk, j) == RawAt(geo, locs, v.disk, j) {
      RawAtSame(geo, locs, r.disk, v.disk, j);
    }
  }

  lemma TakenShape(geo: Geometry, v: Vol, r: Vol, s: set<nat>)
    requires TakenAll(geo, v, r, s)
    ensures Shape(geo, r)
  {
  }

  /** The volume after the whole replacement, step by step from the volume before it. */
  lemma FinishReplace(geo: Geometry, v: Vol, w: Vol, r: Vol, ino: nat, mine: seq<nat>, blks: seq<nat>,
                      leaves: seq<nat>, out: seq<Byte>)
    requires FreedAll(geo, v, w, SetOf(mine)) && TakenAll(geo, w, r, SetOf(blks) + SetOf(leaves))
    requires IsIno(geo, ino) && |out| == geo.inodeSize && Shape(geo, r)
    ensures var x := r.(disk := PutRaw(geo, Locs(geo, r.gdt), r.disk, ino, out));
      && Shape(geo, v) && Valid(geo, x) && OthersKept(geo, v, x, ino, mine)
      && RawAt(geo, Locs(geo, x.gdt), x.disk, ino) == out
      && FreeSet(geo, x) == FreeSet(geo, r) == FreeSet(geo, v) + SetOf(mine) - SetOf(blks) - SetOf(leaves)
      && |x.disk| == |r.disk| && 0 !in blks
      && (forall b :: b in blks || b in leaves ==> b < |r.disk| && x.disk[b] == r.disk[b])
  {
    hide FreedAll, TakenAll, OthersKept, BlocksKept, TablesKept, PutRaw, RawAt, Synced, Counted, MetaUsed, IsTable;
    var s := SetOf(blks) + SetOf(leaves);
    FreeThenTake(geo, v, w, r, mine, s);
    TakenNonzero(geo, w, r, blks + leaves, s);
    BlocksBelow(geo, w, r, blks + leaves, s);
    FreedKeepsLocs(geo, v, w, SetOf(mine));
    TakenValid(geo, w, r, s);
    ThenWriteInode(geo, v, r, ino, out, mine);
    FreeThenTakeSets(geo, v, w, r, SetOf(mine), SetOf(blks), SetOf(leaves));
    forall b | b in blks || b in leaves ensures b in blks + leaves {}
  }

  lemma FreedKeepsLocs(geo: Geometry, v: Vol, w: Vol, s: set<nat>)
    requires FreedAll(geo, v, w, s)
    ensures Valid(geo, v) && Valid(geo, w) && Locs(geo, w.gdt) == Locs(geo, v.gdt)
  {
  }

  lemma BlocksBelow(geo: Geometry, v: Vol, r: Vol, blks: seq<nat>, s: set<nat>)
    requires TakenAll(geo, v, r, s) && SetOf(blks) <= s
    ensures |r.disk| == geo.blocksCount && forall b :: b in blks ==> b < geo.blocksCount
  {
    hide Synced, Counted, MetaUsed, LocsOk;
    forall b | b in blks ensures b < geo.blocksCount {
      assert b in SetOf(blks);
    }
  }

  lemma CountBelow(len: nat, d: nat)
    requires d > 0
    ensures CeilDiv(len, d) <= len && (CeilDiv(len, d) == 0 <==> len == 0)
  {
    var q := CeilDiv(len, d);
    if len < q {
      MulAtLeast(q - 1, d);
    }
    MulAtLeast(q, d);
  }

  lemma ReadyShape(fs: Ext4)
    requires fs.Ready()
    ensures DiskOk(fs.geo, fs.disk) && Shape(fs.geo, fs.State())
  {
  }

  lemma FreeThenTakeSets(geo: Geometry, v: Vol, w: Vol, r: Vol, mine: set<nat>, s: set<nat>, t: set<nat>)
    requires FreedAll(geo, v, w, mine) && TakenAll(geo, w, r, s + t)
    ensures Shape(geo, v) && Shape(geo, r) && FreeSet(geo, r) == FreeSet(geo, v) + mine - s - t
  {
  }
}
