/** Which blocks an append will get, and whether they and the tree over them will fit: all of it
    known from the free blocks before the call. */
module Plan {
  import opened Bytes
  import opened Arith
  import opened Volume
  import opened Driver
  import opened Runs
  import opened Extents
  import opened Tree

  // ---------------- one search ----------------

  ghost predicate OnVolume(geo: Geometry, free: set<nat>) {
    forall c :: c in free ==> geo.firstDataBlock <= c < geo.blocksCount
  }

  /** No free block lies in a group visited before round `k`, and `b` is the lowest one of that round's group. */
  ghost predicate PickAt(geo: Geometry, free: set<nat>, hint: nat, b: nat, k: nat)
    requires geo.Ok() && OnVolume(geo, free) && b in free
  {
    && k < geo.groupCount && Visit(geo, hint, k) == geo.GroupOf(b)
    && (forall c, j: nat :: c in free && j < k ==> Visit(geo, hint, j) != geo.GroupOf(c))
    && (forall c :: c in free && geo.GroupOf(c) == geo.GroupOf(b) ==> geo.IndexOf(b) <= geo.IndexOf(c))
  }

  /** The first free block a search from `hint` comes to. */
  ghost predicate IsPick(geo: Geometry, free: set<nat>, hint: nat, b: nat)
    requires geo.Ok() && OnVolume(geo, free)
  {
    b in free && exists k: nat :: PickAt(geo, free, hint, b, k)
  }

  lemma PickUnique(geo: Geometry, free: set<nat>, hint: nat, b: nat, c: nat)
    requires geo.Ok() && OnVolume(geo, free) && IsPick(geo, free, hint, b) && IsPick(geo, free, hint, c)
    ensures b == c
  {
    hide Geometry.Ok, Visit;
    var k: nat :| PickAt(geo, free, hint, b, k);
    var l: nat :| PickAt(geo, free, hint, c, l);
    assert !(k < l) && !(l < k);
    assert geo.GroupOf(b) == geo.GroupOf(c) && geo.IndexOf(b) == geo.IndexOf(c);
    GroupAndIndex(geo, b);
    GroupAndIndex(geo, c);
  }

  lemma GroupAndIndex(geo: Geometry, b: nat)
    requires geo.Ok() && geo.firstDataBlock <= b < geo.blocksCount
    ensures geo.GroupOf(b) < geo.groupCount && geo.IndexOf(b) < geo.GroupBits(geo.GroupOf(b))
    ensures geo.BlkOf(geo.GroupOf(b), geo.IndexOf(b)) == b
  {
  }

  lemma FreeOnVolume(geo: Geometry, v: Vol)
    requires Shape(geo, v)
    ensures geo.Ok() && OnVolume(geo, FreeSet(geo, v))
  {
  }

  lemma FreeMeansClear(geo: Geometry, v: Vol, c: nat)
    requires Shape(geo, v) && c in FreeSet(geo, v)
    ensures geo.firstDataBlock <= c < geo.blocksCount && geo.GroupOf(c) < |v.gdt|
    ensures var bm := v.disk[Locs(geo, v.gdt)[geo.GroupOf(c)].bitmap];
      geo.IndexOf(c) < geo.GroupBits(geo.GroupOf(c)) <= 8 * |bm| && !BitAt(bm, geo.IndexOf(c))
  {
  }

  /** The driver's search takes the pick. */
  lemma SearchPicks(geo: Geometry, v: Vol, r: Vol, hint: nat, b: nat)
    requires Valid(geo, v) && Allocated(geo, v, r, b) && SearchTakes(geo, v, r, hint, b)
    ensures geo.Ok() && OnVolume(geo, FreeSet(geo, v)) && IsPick(geo, FreeSet(geo, v), hint, b)
  {
    hide Synced, Counted, MetaUsed, FreeSet, Take, Evolved, Meta;
    FreeOnVolume(geo, v);
    var free := FreeSet(geo, v);
    var k, i :| FirstClear(geo, v, hint, k, i) && b == geo.BlkOf(Visit(geo, hint, k), i)
             && r == Take(geo, v, Visit(geo, hint, k), i);
    geo.BlkOfInverts(Visit(geo, hint, k), i);
    forall c, j: nat | c in free && j < k ensures Visit(geo, hint, j) != geo.GroupOf(c) {
      FreeMeansClear(geo, v, c);
      assert GroupFull(geo, v, Visit(geo, hint, j));
    }
    forall c | c in free && geo.GroupOf(c) == geo.GroupOf(b) ensures geo.IndexOf(b) <= geo.IndexOf(c) {
      FreeMeansClear(geo, v, c);
    }
    assert PickAt(geo, free, hint, b, k);
  }

  // ---------------- the searches of an append ----------------

  /** The group an append of file block `n` starts its search in. */
  function HintFor(geo: Geometry, n: nat): (h: nat)
    requires geo.Ok()
    ensures h < U32
  {
    Div(n, geo.blocksPerGroup) % U32
  }

  /** The search for file block `n` starts in the group whose number is the quotient. */
  lemma HintIs(geo: Geometry, q: nat, r: nat)
    requires geo.Ok() && q < U32 && r < geo.blocksPerGroup
    ensures HintFor(geo, Mul(q, geo.blocksPerGroup) + r) == q
  {
    hide Mul, Div, Mod, Geometry.Ok;
    DivModUnique(q, r, geo.blocksPerGroup);
  }

  /** Each block is the pick among those the ones before it left. */
  ghost predicate Picked(geo: Geometry, free: set<nat>, start: nat, blks: seq<nat>)
    requires geo.Ok() && OnVolume(geo, free)
  {
    blks == [] ||
    var n := |blks| - 1;
    Picked(geo, free, start, blks[..n]) && IsPick(geo, free - SetOf(blks[..n]), HintFor(geo, start + n), blks[n])
  }

  lemma PickedStep(geo: Geometry, free: set<nat>, start: nat, blks: seq<nat>, b: nat)
    requires geo.Ok() && OnVolume(geo, free) && Picked(geo, free, start, blks)
    requires IsPick(geo, free - SetOf(blks), HintFor(geo, start + |blks|), b)
    ensures Picked(geo, free, start, blks + [b])
  {
    assert (blks + [b])[..|blks|] == blks;
  }

  /** So the blocks are determined by the free ones before the call. */
  lemma {:induction false} PickedUnique(geo: Geometry, free: set<nat>, start: nat, a: seq<nat>, b: seq<nat>)
    requires geo.Ok() && OnVolume(geo, free) && |a| == |b|
    requires Picked(geo, free, start, a) && Picked(geo, free, start, b)
    ensures a == b
  {
    hide IsPick, HintFor;
    if a != [] {
      var n := |a| - 1;
      PickedUnique(geo, free, start, a[..n], b[..n]);
      PickUnique(geo, free - SetOf(a[..n]), HintFor(geo, start + n), a[n], b[n]);
      assert a == a[..n] + [a[n]] && b == b[..n] + [b[n]];
    }
  }

  ghost predicate Covers(geo: Geometry, hint: nat)
    requires geo.Ok()
  {
    hint + geo.groupCount <= U32 || Mod(U32, geo.groupCount) == 0
  }

  /** Every search of the append looks at every group. */
  ghost predicate AllCovered(geo: Geometry, start: nat, count: nat)
    requires geo.Ok()
  {
    forall n: nat :: start <= n < start + count ==> Covers(geo, HintFor(geo, n))
  }

  lemma SmallIsCovered(geo: Geometry, start: nat, count: nat)
    requires geo.Ok() && start + count + U16 <= U32
    ensures AllCovered(geo, start, count)
  {
    hide Div, Mul, Mod;
    forall n: nat | start <= n < start + count ensures Covers(geo, HintFor(geo, n)) {
      MulAtLeast(Div(n, geo.blocksPerGroup), geo.blocksPerGroup);
    }
  }

  // ---------------- the tree ----------------

  /** More runs than a tree of one level holds. */
  predicate TooDeep(geo: Geometry, n: nat)
    requires geo.Ok()
  {
    n > ROOT_MAX && LeafCount(n, LeafCap(geo)) > ROOT_MAX
  }

  /** A tree over `n` runs can be built with `room` blocks left for its leaves. */
  predicate TreeFits(geo: Geometry, n: nat, room: int)
    requires geo.Ok()
  {
    n <= ROOT_MAX || (LeafCount(n, LeafCap(geo)) <= ROOT_MAX && LeafCount(n, LeafCap(geo)) <= room)
  }

  /** There are free blocks for the data, and the tree over those that will be picked fits as well. */
  ghost predicate WillFit(geo: Geometry, free: set<nat>, start: nat, count: nat)
    requires geo.Ok() && OnVolume(geo, free)
  {
    count <= |free| &&
    forall blks :: |blks| == count && Picked(geo, free, start, blks) ==>
      TreeFits(geo, |RunsOf(start, blks)|, |free| - count)
  }

  lemma WillFitIs(geo: Geometry, free: set<nat>, start: nat, blks: seq<nat>)
    requires geo.Ok() && OnVolume(geo, free) && Picked(geo, free, start, blks) && |blks| <= |free|
    ensures WillFit(geo, free, start, |blks|) <==> TreeFits(geo, |RunsOf(start, blks)|, |free| - |blks|)
  {
    hide Picked, TreeFits, RunsOf;
    forall other | |other| == |blks| && Picked(geo, free, start, other) ensures other == blks {
      PickedUnique(geo, free, start, other, blks);
    }
  }

  // ---------------- on a volume ----------------

  ghost predicate PickedFrom(geo: Geometry, v: Vol, start: nat, blks: seq<nat>)
    requires Shape(geo, v)
  {
    FreeOnVolume(geo, v);
    Picked(geo, FreeSet(geo, v), start, blks)
  }

  /** An append of `count` blocks to this volume will succeed. */
  ghost predicate AppendFits(geo: Geometry, v: Vol, start: nat, count: nat)
    requires Shape(geo, v)
  {
    FreeOnVolume(geo, v);
    WillFit(geo, FreeSet(geo, v), start, count)
  }
}
