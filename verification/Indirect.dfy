/** Legacy block maps: twelve direct pointers and pointer trees of one, two and three levels. */
module Indirect {
  import opened Bytes
  import opened Volume
  import opened Driver
  import opened Runs
  import opened Files

  function PerNode(geo: Geometry): (n: nat)
    requires geo.Ok()
    ensures 4 * n == geo.blockSize
  {
    geo.blockSize / 4
  }

  /** The blocks of a pointer tree in the order they are freed: children first, then the node. */
  function Reach(geo: Geometry, disk: seq<Block>, blk: nat, levels: nat): (r: seq<nat>)
    requires geo.Ok() && DiskOk(geo, disk)
    decreases levels, geo.blockSize + 1
  {
    if blk == 0 then []
    else if levels == 0 then [blk]
    else if blk >= |disk| then []
    else Kids(geo, disk, blk, levels, PerNode(geo)) + [blk]
  }

  /** The blocks under the first `n` pointers of a node. */
  function Kids(geo: Geometry, disk: seq<Block>, blk: nat, levels: nat, n: nat): (r: seq<nat>)
    requires geo.Ok() && DiskOk(geo, disk) && blk < |disk| && levels > 0 && n <= PerNode(geo)
    decreases levels, n
  {
    if n == 0 then []
    else Kids(geo, disk, blk, levels, n - 1) + Reach(geo, disk, Get32(disk[blk], 4 * (n - 1)), levels - 1)
  }

  lemma {:induction false} KidsPrefix(geo: Geometry, disk: seq<Block>, blk: nat, levels: nat, n: nat, i: nat)
    requires geo.Ok() && DiskOk(geo, disk) && blk < |disk| && levels > 0 && i <= n <= PerNode(geo)
    ensures Kids(geo, disk, blk, levels, i) <= Kids(geo, disk, blk, levels, n)
  {
    if i < n {
      KidsPrefix(geo, disk, blk, levels, n - 1, i);
    }
  }

  /** Blocks that may be freed one after the other, on top of those freed before. */
  ghost predicate Pending(geo: Geometry, v: Vol, before: set<nat>, blocks: seq<nat>)
    requires Shape(geo, v)
  {
    AllOwned(geo, v, blocks) && forall b :: b in blocks ==> b !in before
  }

  /** The middle of a pending list is pending once its front is freed. */
  lemma PendingSplit(geo: Geometry, v: Vol, before: set<nat>, a: seq<nat>, m: seq<nat>, rest: seq<nat>)
    requires Shape(geo, v) && Pending(geo, v, before, a + m + rest)
    ensures Pending(geo, v, before + SetOf(a), m)
  {
    hide Owned, Shape;
    var all := a + m + rest;
    forall k | 0 <= k < |m| ensures m[k] in all && m[k] !in a {
      assert all[|a| + k] == m[k];
      forall j | 0 <= j < |a| ensures a[j] != m[k] {
        assert all[j] == a[j];
      }
    }
    forall i, j | 0 <= i < j < |m| ensures m[i] != m[j] {
      assert all[|a| + i] == m[i] && all[|a| + j] == m[j];
    }
  }

  lemma NodeUnchanged(geo: Geometry, v: Vol, w: Vol, s: set<nat>, b: nat)
    requires Shape(geo, v) && FreedAll(geo, v, w, s) && Owned(geo, v, b)
    ensures b < |v.disk| == |w.disk| && w.disk[b] == v.disk[b]
  {
    hide Synced, Counted, MetaUsed;
  }

  /** free_indirect_tree: every block the tree reaches becomes free, once each, and is counted. */
  method FreeIndirect(fs: Ext4, blk: nat, levels: nat, ghost v: Vol, ghost before: set<nat>) returns (freed: nat)
    requires fs.Ready() && Shape(fs.geo, v) && FreedAll(fs.geo, v, fs.State(), before)
    requires Pending(fs.geo, v, before, Reach(fs.geo, v.disk, blk, levels))
    modifies fs
    ensures fs.Ready()
    ensures FreedAll(fs.geo, v, fs.State(), before + SetOf(Reach(fs.geo, v.disk, blk, levels)))
    ensures freed == |Reach(fs.geo, v.disk, blk, levels)|
    decreases levels
  {
    hide Valid, FreedAll, Owned, Shape, Pending;
    ShapePositive(fs.geo, v);
    ShapeDiskOk(fs.geo, v);
    ghost var all := Reach(fs.geo, v.disk, blk, levels);
    if blk == 0 {
      assert before + SetOf(all) == before;
      return 0;
    }
    if levels == 0 {
      PendingOne(fs.geo, v, before, all, blk);
      assert SetOf(all) == {blk};
      FreeOwned(fs, blk, v, before);
      return 1;
    }
    if blk >= fs.geo.blocksCount {
      assert before + SetOf(all) == before;
      return 0;
    }
    PendingOne(fs.geo, v, before, all, blk);
    NodeUnchanged(fs.geo, v, fs.State(), before, blk);
    var snapshot := fs.disk[blk];
    freed := FreeKids(fs, blk, levels, snapshot, v, before);
    ghost var kids := Kids(fs.geo, v.disk, blk, levels, PerNode(fs.geo));
    assert all == kids + [blk] + [];
    PendingSplit(fs.geo, v, before, kids, [blk], []);
    PendingOne(fs.geo, v, before + SetOf(kids), [blk], blk);
    FreeOwned(fs, blk, v, before + SetOf(kids));
    assert before + SetOf(kids) + {blk} == before + SetOf(all);
    freed := freed + 1;
  }

  /** The loop over a node's snapshot. */
  method FreeKids(fs: Ext4, blk: nat, levels: nat, snapshot: Block, ghost v: Vol, ghost before: set<nat>)
    returns (freed: nat)
    requires fs.Ready() && Shape(fs.geo, v) && FreedAll(fs.geo, v, fs.State(), before)
    requires blk < |v.disk| && blk != 0 && levels > 0 && snapshot == v.disk[blk]
    requires Pending(fs.geo, v, before, Reach(fs.geo, v.disk, blk, levels))
    modifies fs
    ensures fs.Ready()
    ensures FreedAll(fs.geo, v, fs.State(), before + SetOf(Kids(fs.geo, v.disk, blk, levels, PerNode(fs.geo))))
    ensures freed == |Kids(fs.geo, v.disk, blk, levels, PerNode(fs.geo))|
    decreases levels, 0
  {
    hide Valid, FreedAll, Owned, Shape, Pending, Reach, Kids, SetOf, Get32;
    ShapePositive(fs.geo, v);
    ShapeDiskOk(fs.geo, v);
    freed := 0;
    NoKids(fs.geo, v.disk, blk, levels, before);
    for i := 0 to PerNode(fs.geo)
      invariant fs.Ready()
      invariant FreedAll(fs.geo, v, fs.State(), before + SetOf(Kids(fs.geo, v.disk, blk, levels, i)))
      invariant freed == |Kids(fs.geo, v.disk, blk, levels, i)|
    {
      var child := Get32(snapshot, 4 * i);
      NextKid(fs.geo, v, before, blk, levels, i);
      var n := FreeIndirect(fs, child, levels - 1, v, before + SetOf(Kids(fs.geo, v.disk, blk, levels, i)));
      freed := freed + n;
    }
  }

  lemma NoKids(geo: Geometry, disk: seq<Block>, blk: nat, levels: nat, before: set<nat>)
    requires geo.Ok() && DiskOk(geo, disk) && blk < |disk| && levels > 0
    ensures Kids(geo, disk, blk, levels, 0) == [] && before + SetOf([]) == before
  {
  }

  /** The next pointer of a node: what it reaches comes next, and is pending. */
  lemma NextKid(geo: Geometry, v: Vol, before: set<nat>, blk: nat, levels: nat, i: nat)
    requires Shape(geo, v) && geo.Ok() && DiskOk(geo, v.disk) && 0 < blk < |v.disk| && levels > 0 && i < PerNode(geo)
    requires Pending(geo, v, before, Reach(geo, v.disk, blk, levels))
    ensures var less := Kids(geo, v.disk, blk, levels, i);
      var sub := Reach(geo, v.disk, Get32(v.disk[blk], 4 * i), levels - 1);
      var more := Kids(geo, v.disk, blk, levels, i + 1);
      && more == less + sub && Pending(geo, v, before + SetOf(less), sub)
      && before + SetOf(less) + SetOf(sub) == before + SetOf(more)
  {
    hide Shape, Pending, Get32;
    var all := Reach(geo, v.disk, blk, levels);
    var less := Kids(geo, v.disk, blk, levels, i);
    var sub := Reach(geo, v.disk, Get32(v.disk[blk], 4 * i), levels - 1);
    KidsPrefix(geo, v.disk, blk, levels, PerNode(geo), i + 1);
    assert less + sub == Kids(geo, v.disk, blk, levels, i + 1) <= all;
    assert all == less + sub + all[|less| + |sub|..];
    PendingSplit(geo, v, before, less, sub, all[|less| + |sub|..]);
    SetOfAppend(less, sub);
  }

  lemma SetOfAppend(a: seq<nat>, b: seq<nat>)
    ensures SetOf(a + b) == SetOf(a) + SetOf(b)
  {
  }

  lemma PendingOne(geo: Geometry, v: Vol, before: set<nat>, blocks: seq<nat>, b: nat)
    requires Shape(geo, v) && Pending(geo, v, before, blocks) && b in blocks
    ensures Owned(geo, v, b) && b !in before
  {
  }
}
