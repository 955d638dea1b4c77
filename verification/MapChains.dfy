/** Which blocks truncation releases, said without following the code: by chains of pointers for legacy
    inodes, by the entries' own fields for extent-mapped ones. */
module MapChains {
  import opened Bytes
  import opened Volume
  import opened Runs
  import opened Extents
  import opened Files
  import opened Indirect
  import opened Truncate

  // ---------------- pointer chains ----------------

  /** Word `k` of a block or of an inode's block area. */
  function Word(s: seq<Byte>, k: nat): nat
    requires 4 * k + 4 <= |s|
  {
    s[4 * k] as int + 0x100 * s[4 * k + 1] as int + 0x1_0000 * s[4 * k + 2] as int + 0x100_0000 * s[4 * k + 3] as int
  }

  /** Block `a` is on the disk and one of its words is the nonzero `b`. */
  ghost predicate PointsTo(disk: seq<Block>, a: nat, b: nat) {
    a < |disk| && b != 0 && exists k :: 0 <= k && 4 * k + 4 <= |disk[a]| && Word(disk[a], k) == b
  }

  ghost predicate Chain(disk: seq<Block>, p: seq<nat>) {
    |p| > 0 && p[0] != 0 && forall j :: 0 < j < |p| ==> PointsTo(disk, p[j - 1], p[j])
  }

  /** A chain from `start` to `b` over at most `levels` pointers; a chain that ends early ends in a
      pointer block, which has to be on the disk. */
  ghost predicate ChainTo(disk: seq<Block>, p: seq<nat>, start: nat, levels: nat, b: nat) {
    && Chain(disk, p) && p[0] == start && p[|p| - 1] == b && |p| <= levels + 1
    && (|p| == levels + 1 || b < |disk|)
  }

  ghost predicate Reached(disk: seq<Block>, start: nat, levels: nat, b: nat) {
    exists p :: ChainTo(disk, p, start, levels, b)
  }

  lemma ReachedHere(disk: seq<Block>, blk: nat, levels: nat)
    requires blk != 0 && (levels == 0 || blk < |disk|)
    ensures Reached(disk, blk, levels, blk)
  {
    assert ChainTo(disk, [blk], blk, levels, blk);
  }

  lemma ReachedDeeper(disk: seq<Block>, blk: nat, kid: nat, levels: nat, b: nat)
    requires blk != 0 && PointsTo(disk, blk, kid) && Reached(disk, kid, levels, b)
    ensures Reached(disk, blk, levels + 1, b)
  {
    var p :| ChainTo(disk, p, kid, levels, b);
    var q := [blk] + p;
    forall j | 0 < j < |q| ensures PointsTo(disk, q[j - 1], q[j]) {
      assert j > 1 ==> PointsTo(disk, p[j - 2], p[j - 1]);
    }
    assert ChainTo(disk, q, blk, levels + 1, b);
  }

  /** A chain is its first block, or goes on from one of that block's words. */
  lemma ReachedSplit(disk: seq<Block>, blk: nat, levels: nat, b: nat) returns (kid: nat)
    requires Reached(disk, blk, levels, b)
    ensures blk != 0
    ensures b != blk || kid != 0 ==> levels > 0 && PointsTo(disk, blk, kid) && Reached(disk, kid, levels - 1, b)
    ensures kid == 0 ==> b == blk && (levels == 0 || blk < |disk|)
  {
    var p :| ChainTo(disk, p, blk, levels, b);
    if |p| == 1 {
      kid := 0;
    } else {
      kid := p[1];
      assert PointsTo(disk, p[0], p[1]);
      var q := p[1..];
      forall j | 0 < j < |q| ensures PointsTo(disk, q[j - 1], q[j]) {
        assert PointsTo(disk, p[j], p[j + 1]);
      }
      assert ChainTo(disk, q, kid, levels - 1, b);
    }
  }

  lemma {:induction false} KidsHave(geo: Geometry, disk: seq<Block>, blk: nat, levels: nat, n: nat, k: nat, b: nat)
    requires geo.Ok() && DiskOk(geo, disk) && blk < |disk| && levels > 0 && k < n <= PerNode(geo)
    requires b in Reach(geo, disk, Get32(disk[blk], 4 * k), levels - 1)
    ensures b in Kids(geo, disk, blk, levels, n)
  {
    hide Reach;
    if k < n - 1 {
      KidsHave(geo, disk, blk, levels, n - 1, k, b);
    }
  }

  lemma {:induction false} KidsFrom(geo: Geometry, disk: seq<Block>, blk: nat, levels: nat, n: nat, b: nat) returns (k: nat)
    requires geo.Ok() && DiskOk(geo, disk) && blk < |disk| && levels > 0 && n <= PerNode(geo)
    requires b in Kids(geo, disk, blk, levels, n)
    ensures k < n && b in Reach(geo, disk, Get32(disk[blk], 4 * k), levels - 1)
  {
    hide Reach;
    if b in Kids(geo, disk, blk, levels, n - 1) {
      k := KidsFrom(geo, disk, blk, levels, n - 1, b);
    } else {
      k := n - 1;
    }
  }

  /** What a pointer tree holds is what chains of pointers lead to. */
  lemma {:induction false} ReachIsChains(geo: Geometry, disk: seq<Block>, blk: nat, levels: nat, b: nat)
    requires geo.Ok() && DiskOk(geo, disk)
    ensures b in Reach(geo, disk, blk, levels) <==> Reached(disk, blk, levels, b)
    decreases levels
  {
    hide Reached, PointsTo, Kids;
    if b in Reach(geo, disk, blk, levels) {
      ChainFor(geo, disk, blk, levels, b);
    }
    if Reached(disk, blk, levels, b) {
      BlockFor(geo, disk, blk, levels, b);
    }
  }

  lemma {:induction false} ChainFor(geo: Geometry, disk: seq<Block>, blk: nat, levels: nat, b: nat)
    requires geo.Ok() && DiskOk(geo, disk) && b in Reach(geo, disk, blk, levels)
    ensures Reached(disk, blk, levels, b)
    decreases levels
  {
    hide Reached, Kids;
    if b == blk {
      ReachedHere(disk, blk, levels);
    } else {
      var k := KidsFrom(geo, disk, blk, levels, PerNode(geo), b);
      var kid := Get32(disk[blk], 4 * k);
      ChainFor(geo, disk, kid, levels - 1, b);
      assert Word(disk[blk], k) == kid;
      ReachedDeeper(disk, blk, kid, levels - 1, b);
    }
  }

  lemma {:induction false} BlockFor(geo: Geometry, disk: seq<Block>, blk: nat, levels: nat, b: nat)
    requires geo.Ok() && DiskOk(geo, disk) && Reached(disk, blk, levels, b)
    ensures b in Reach(geo, disk, blk, levels)
    decreases levels
  {
    hide Reached, Kids;
    var kid := ReachedSplit(disk, blk, levels, b);
    if kid != 0 {
      BlockFor(geo, disk, kid, levels - 1, b);
      var k :| 0 <= k && 4 * k + 4 <= |disk[blk]| && Word(disk[blk], k) == kid;
      KidsHave(geo, disk, blk, levels, PerNode(geo), k, b);
    }
  }

  // ---------------- legacy inodes ----------------

  lemma {:induction false} DirectAre(root: seq<Byte>, k: nat, b: nat)
    requires |root| == 60 && k <= 12
    ensures b in Direct(root, k) <==> b != 0 && exists i :: k <= i < 12 && Word(root, i) == b
    decreases 12 - k
  {
    if k < 12 {
      DirectAre(root, k + 1, b);
      assert Pointer(root, k) == Word(root, k);
    }
  }

  /** Pointer 12 + `l` of a block area leads to `b`, over at most `l` + 1 further pointers. */
  ghost predicate TreeReaches(disk: seq<Block>, area: seq<Byte>, l: nat, b: nat)
    requires |area| == 60 && l < 3
  {
    Reached(disk, Word(area, 12 + l), l + 1, b)
  }

  lemma OneTree(geo: Geometry, disk: seq<Block>, area: seq<Byte>, l: nat, b: nat)
    requires geo.Ok() && DiskOk(geo, disk) && |area| == 60 && l < 3
    ensures b in Reach(geo, disk, Pointer(area, 12 + l), l + 1) <==> TreeReaches(disk, area, l, b)
  {
    hide Reach, Reached;
    assert Pointer(area, 12 + l) == Word(area, 12 + l);
    ReachIsChains(geo, disk, Word(area, 12 + l), l + 1, b);
  }

  /** A legacy inode's truncation releases exactly the nonzero direct pointers and what chains of at most
      one, two and three further pointers lead to from the last three. */
  lemma LegacyReleases(geo: Geometry, disk: seq<Block>, raw: seq<Byte>, b: nat)
    requires geo.Ok() && DiskOk(geo, disk) && 128 <= |raw| && !ExtentMapped(raw)
    ensures var area := raw[40..100];
      b in FileBlocks(geo, disk, raw) <==>
        || (b != 0 && exists i :: 0 <= i < 12 && Word(area, i) == b)
        || (exists l :: 0 <= l < 3 && TreeReaches(disk, area, l, b))
  {
    hide Direct, Reach, TreeReaches, Trees;
    var root := Root(raw);
    DirectAre(root, 0, b);
    TreesStep(geo, disk, root, 12);
    TreesStep(geo, disk, root, 13);
    TreesStep(geo, disk, root, 14);
    OneTree(geo, disk, root, 0, b);
    OneTree(geo, disk, root, 1, b);
    OneTree(geo, disk, root, 2, b);
  }

  // ---------------- extent-mapped inodes ----------------

  lemma {:induction false} ExpandHas(runs: seq<Run>, b: nat)
    ensures b in Expand(runs) <==> exists i :: 0 <= i < |runs| && runs[i].start <= b < runs[i].start + runs[i].count
  {
    hide Blocks;
    if runs != [] {
      var n := |runs| - 1;
      ExpandHas(runs[..n], b);
      BlocksHave(runs[n], b);
    }
  }

  lemma BlocksHave(run: Run, b: nat)
    ensures b in Blocks(run) <==> run.start <= b < run.start + run.count
  {
    if run.start <= b < run.start + run.count {
      assert Blocks(run)[b - run.start] == b;
    }
  }

  lemma {:induction false} LeavesHave(node: seq<Byte>, n: nat, b: nat)
    requires 12 + 12 * n <= |node|
    ensures b in Leaves(node, n) <==> b != 0 && exists i :: 0 <= i < n && GetIndex(node, i).leaf == b
  {
    hide GetIndex;
    if n > 0 {
      LeavesHave(node, n - 1, b);
    }
  }

  /** Entry `i` of an inline tree holds `b`: a written extent, its count below 32768, whose blocks include it. */
  ghost predicate ExtentHolds(area: seq<Byte>, i: nat, b: nat)
    requires |area| == 60 && i < 4
  {
    var o := 12 + 12 * i;
    var start, count := Get32(area, o + 8) + U32 * Get16(area, o + 6), Get16(area, o + 4);
    count < 32768 && start <= b < start + count
  }

  /** Entry `i` of an index root points at `b`. */
  ghost predicate IndexHolds(area: seq<Byte>, i: nat, b: nat)
    requires |area| == 60 && i < 4
  {
    var o := 12 + 12 * i;
    b != 0 && b == Get32(area, o + 4) + U32 * Get16(area, o + 8)
  }

  /** An extent-mapped inode's truncation releases exactly the blocks of its written extents when the tree is
      inline, and otherwise the blocks its root points at. */
  lemma ExtentReleases(geo: Geometry, disk: seq<Block>, raw: seq<Byte>, b: nat)
    requires geo.Ok() && DiskOk(geo, disk) && 128 <= |raw| && ExtentMapped(raw) && RootOk(Root(raw))
    ensures var area := raw[40..100]; var n, max, depth := Get16(area, 2), Get16(area, 4), Get16(area, 6);
      b in FileBlocks(geo, disk, raw) <==>
        && Get16(area, 0) == 0xF30A
        && (if depth == 0 then exists i :: 0 <= i < 4 && i < n && ExtentHolds(area, i, b)
            else exists i :: 0 <= i < 4 && i < n && i < max && IndexHolds(area, i, b))
  {
    hide Get16, Get32, Expand;
    var root := Root(raw);
    if !Empty(root) {
      ExpandHas(EntryRuns(root, Limit(root)), b);
      LeavesHave(root, Limit(root), b);
      forall i | 0 <= i < Limit(root)
        ensures ExtentHolds(root, i, b) <==> EntryRun(root, i).start <= b < EntryRun(root, i).start + EntryRun(root, i).count
        ensures IndexHolds(root, i, b) <==> b != 0 && GetIndex(root, i).leaf == b
      {
      }
    }
  }
}
