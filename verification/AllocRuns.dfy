/** Whole runs of the block allocator. */
module AllocRuns {
  import opened Bytes
  import opened Volume
  import opened Allocator
  import opened Driver

  // ---------------- the counters count the free set ----------------

  /** The free blocks among the first `i` of group `g`. */
  ghost function FreePart(geo: Geometry, locs: seq<Loc>, disk: seq<Block>, g: nat, i: nat): set<nat>
    requires geo.Ok() && DiskOk(geo, disk) && LocsOk(geo, locs) && g < geo.groupCount && i <= geo.GroupBits(g)
  {
    set b | b in FreeIn(geo, locs, disk) && geo.GroupOf(b) == g && geo.IndexOf(b) < i
  }

  lemma FreePartStep(geo: Geometry, locs: seq<Loc>, disk: seq<Block>, g: nat, i: nat)
    requires geo.Ok() && DiskOk(geo, disk) && LocsOk(geo, locs) && g < geo.groupCount && i < geo.GroupBits(g)
    ensures FreePart(geo, locs, disk, g, i + 1)
         == FreePart(geo, locs, disk, g, i) + (if BitAt(disk[locs[g].bitmap], i) then {} else {geo.BlkOf(g, i)})
    ensures geo.BlkOf(g, i) !in FreePart(geo, locs, disk, g, i)
  {
    var b := geo.BlkOf(g, i);
    geo.BlkOfInverts(g, i);
    assert Used(geo, locs, disk, b) == BitAt(disk[locs[g].bitmap], i);
    forall x | x in FreePart(geo, locs, disk, g, i + 1) && x !in FreePart(geo, locs, disk, g, i)
      ensures x == b
    {
      assert x == geo.BlkOf(geo.GroupOf(x), geo.IndexOf(x));
    }
  }

  lemma FreePartEmpty(geo: Geometry, locs: seq<Loc>, disk: seq<Block>, g: nat)
    requires geo.Ok() && DiskOk(geo, disk) && LocsOk(geo, locs) && g < geo.groupCount
    ensures FreePart(geo, locs, disk, g, 0) == {}
  {
  }

  lemma {:induction false} FreePartCard(geo: Geometry, locs: seq<Loc>, disk: seq<Block>, g: nat, i: nat)
    requires geo.Ok() && DiskOk(geo, disk) && LocsOk(geo, locs) && g < geo.groupCount && i <= geo.GroupBits(g)
    ensures |FreePart(geo, locs, disk, g, i)| == ClearCount(disk[locs[g].bitmap], i)
  {
    hide FreePart;
    if i == 0 {
      FreePartEmpty(geo, locs, disk, g);
    } else {
      FreePartCard(geo, locs, disk, g, i - 1);
      FreePartStep(geo, locs, disk, g, i - 1);
    }
  }

  ghost function FreeGroups(geo: Geometry, locs: seq<Loc>, disk: seq<Block>, n: nat): set<nat>
    requires geo.Ok() && DiskOk(geo, disk) && LocsOk(geo, locs)
  {
    set b | b in FreeIn(geo, locs, disk) && geo.GroupOf(b) < n
  }

  lemma NoGroups(geo: Geometry, locs: seq<Loc>, disk: seq<Block>)
    requires geo.Ok() && DiskOk(geo, disk) && LocsOk(geo, locs)
    ensures FreeGroups(geo, locs, disk, 0) == {}
  {
  }

  lemma {:induction false} FreeGroupsCard(geo: Geometry, locs: seq<Loc>, disk: seq<Block>, n: nat)
    requires geo.Ok() && DiskOk(geo, disk) && LocsOk(geo, locs) && n <= geo.groupCount
    ensures |FreeGroups(geo, locs, disk, n)| == SumFree(geo, locs, disk, n)
  {
    hide FreeGroups, FreePart, LocsOk, Geometry.Ok, Geometry.GroupBits, ClearCount;
    if n == 0 {
      NoGroups(geo, locs, disk);
    } else {
      FreeGroupsCard(geo, locs, disk, n - 1);
      FreePartCard(geo, locs, disk, n - 1, geo.GroupBits(n - 1));
      FreeGroupsStep(geo, locs, disk, n);
    }
  }

  lemma FreeGroupsStep(geo: Geometry, locs: seq<Loc>, disk: seq<Block>, n: nat)
    requires geo.Ok() && DiskOk(geo, disk) && LocsOk(geo, locs) && 0 < n <= geo.groupCount
    ensures var last := FreePart(geo, locs, disk, n - 1, geo.GroupBits(n - 1));
      FreeGroups(geo, locs, disk, n) == FreeGroups(geo, locs, disk, n - 1) + last && FreeGroups(geo, locs, disk, n - 1) !! last
  {
    forall b | b in FreeIn(geo, locs, disk) && geo.GroupOf(b) == n - 1
      ensures geo.IndexOf(b) < geo.GroupBits(n - 1)
    {
      InBlocks(geo, locs, disk, b);
    }
    hide FreeIn, Geometry.GroupOf, Geometry.IndexOf, Geometry.GroupBits, LocsOk, Geometry.Ok;
  }

  lemma InBlocks(geo: Geometry, locs: seq<Loc>, disk: seq<Block>, b: nat)
    requires geo.Ok() && DiskOk(geo, disk) && LocsOk(geo, locs) && b in FreeIn(geo, locs, disk)
    ensures geo.IndexOf(b) < geo.GroupBits(geo.GroupOf(b))
  {
  }

  /** On a valid volume the superblock counter is the number of free blocks. */
  lemma SbFreeIsCard(geo: Geometry, v: Vol)
    requires Valid(geo, v)
    ensures SbFree(v) == |FreeSet(geo, v)|
  {
    hide Synced;
    var locs := Locs(geo, v.gdt);
    FreeGroupsCard(geo, locs, v.disk, geo.groupCount);
    assert FreeGroups(geo, locs, v.disk, geo.groupCount) == FreeSet(geo, v);
  }

  // ---------------- runs ----------------

  datatype Op = Alloc(hint: nat) | Free(block: nat)

  /** What a call leaves behind, as `AllocBlockNear` and `FreeBlock` specify it. */
  ghost predicate Step(geo: Geometry, v: Vol, op: Op, r: Vol) {
    Shape(geo, v) &&
    match op
    case Alloc(hint) =>
      hint < U32 &&
      ((exists b :: SearchTakes(geo, v, r, hint, b)) || (r == v && AllFullBefore(geo, v, hint, geo.groupCount)))
    case Free(b) =>
      if geo.firstDataBlock <= b < geo.blocksCount && b !in FreeSet(geo, v)
      then r == Flip(geo, v, geo.GroupOf(b), geo.IndexOf(b), false)
      else r == v
  }

  /** The call frees a metadata block that is in use, which the driver does not prevent. */
  ghost predicate FreesMeta(geo: Geometry, v: Vol, op: Op) {
    && Shape(geo, v) && op.Free? && geo.firstDataBlock <= op.block < geo.blocksCount
    && op.block !in FreeSet(geo, v) && Meta(geo, Locs(geo, v.gdt), op.block)
  }

  ghost predicate NoMetaFreed(geo: Geometry, states: seq<Vol>, ops: seq<Op>)
    requires |states| == |ops| + 1
  {
    forall i :: 0 <= i < |ops| ==> !FreesMeta(geo, states[i], ops[i])
  }

  ghost predicate Run(geo: Geometry, states: seq<Vol>, ops: seq<Op>) {
    |states| == |ops| + 1 && forall i :: 0 <= i < |ops| ==> Step(geo, states[i], ops[i], states[i + 1])
  }

  /** A block in use that the step does not free: still in use, and its contents untouched. */
  ghost predicate Kept(geo: Geometry, v: Vol, r: Vol, b: nat) {
    && Valid(geo, v) && Valid(geo, r) && Locs(geo, r.gdt) == Locs(geo, v.gdt) && DescriptorsKept(geo, v, r)
    && (geo.firstDataBlock <= b < geo.blocksCount && b !in FreeSet(geo, v) ==> b !in FreeSet(geo, r))
    && (b < geo.blocksCount && b !in FreeSet(geo, v) && !AllocMeta(geo, Locs(geo, v.gdt), b) ==>
          r.disk[b] == v.disk[b])
  }

  lemma TakenKeeps(geo: Geometry, v: Vol, hint: nat, r: Vol, x: nat, b: nat)
    requires Valid(geo, v) && hint < U32 && SearchTakes(geo, v, r, hint, x)
    ensures Kept(geo, v, r, b)
  {
    hide Synced, Counted, MetaUsed, Flip, Take, Allocated, FreeSet, AllocMeta, Meta, Visit, LocsOk, DescriptorsKept;
    var k, i :| FirstClear(geo, v, hint, k, i) && x == geo.BlkOf(Visit(geo, hint, k), i)
             && r == Take(geo, v, Visit(geo, hint, k), i);
    FirstClearTaken(geo, v, hint, k, i);
    AllocatedKeeps(geo, v, r, x, b);
  }

  lemma AllocatedKeeps(geo: Geometry, v: Vol, r: Vol, x: nat, b: nat)
    requires Allocated(geo, v, r, x)
    ensures Kept(geo, v, r, b)
  {
    hide Synced, Counted, MetaUsed, AllocMeta, Meta, LocsOk, DescriptorsKept;
  }

  lemma FreedKeeps(geo: Geometry, v: Vol, x: nat, b: nat)
    requires Valid(geo, v) && geo.firstDataBlock <= x < geo.blocksCount && x !in FreeSet(geo, v) && x != b
    requires !Meta(geo, Locs(geo, v.gdt), x)
    ensures Kept(geo, v, Flip(geo, v, geo.GroupOf(x), geo.IndexOf(x), false), b)
  {
    hide Synced, Counted, Flip;
    FlipFrees(geo, v, x);
  }

  lemma StepKeeps(geo: Geometry, v: Vol, op: Op, r: Vol, b: nat)
    requires Valid(geo, v) && Step(geo, v, op, r) && op != Free(b) && !FreesMeta(geo, v, op)
    ensures Kept(geo, v, r, b)
  {
    hide Valid, Flip, FreeSet, AllocMeta, Meta, SearchTakes, AllFullBefore, Locs;
    match op
    case Alloc(hint) =>
      if x :| SearchTakes(geo, v, r, hint, x) {
        TakenKeeps(geo, v, hint, r, x, b);
      }
    case Free(x) =>
      if geo.firstDataBlock <= x < geo.blocksCount && x !in FreeSet(geo, v) {
        FreedKeeps(geo, v, x, b);
      }
  }

  /** One call keeps a valid volume valid exactly when it does not free metadata in use. */
  lemma StepValidIff(geo: Geometry, v: Vol, op: Op, r: Vol)
    requires Valid(geo, v) && Step(geo, v, op, r)
    ensures Valid(geo, r) <==> !FreesMeta(geo, v, op)
  {
    hide Step, Valid, FreesMeta;
    if FreesMeta(geo, v, op) {
      MetaFreeBreaks(geo, v, op, r);
    } else {
      StepKeeps(geo, v, op, r, Other(op));
      KeptValid(geo, v, r, Other(op));
    }
  }

  lemma MetaFreeBreaks(geo: Geometry, v: Vol, op: Op, r: Vol)
    requires Valid(geo, v) && Step(geo, v, op, r) && FreesMeta(geo, v, op)
    ensures !Valid(geo, r)
  {
    hide Valid, Flip, Meta, SearchTakes, AllFullBefore, Shape;
    InUse(geo, v, op.block);
    FreeKeepsValidIff(geo, v, op.block);
  }

  lemma InUse(geo: Geometry, v: Vol, b: nat)
    requires Shape(geo, v) && geo.firstDataBlock <= b < geo.blocksCount && b !in FreeSet(geo, v)
    ensures geo.Ok() && DiskOk(geo, v.disk) && LocsOk(geo, Locs(geo, v.gdt)) && Used(geo, Locs(geo, v.gdt), v.disk, b)
  {
  }

  /** Some block the call does not free. */
  function Other(op: Op): (b: nat)
    ensures op != Free(b)
  {
    if op.Free? then op.block + 1 else 0
  }

  lemma KeptValid(geo: Geometry, v: Vol, r: Vol, b: nat)
    requires Kept(geo, v, r, b)
    ensures Valid(geo, r)
  {
  }

  /** A run keeps every state valid exactly when no call frees metadata in use. */
  lemma {:induction false} RunValidIff(geo: Geometry, states: seq<Vol>, ops: seq<Op>)
    requires Run(geo, states, ops) && Valid(geo, states[0])
    ensures (forall i :: 0 <= i < |states| ==> Valid(geo, states[i])) <==> NoMetaFreed(geo, states, ops)
  {
    hide Step, Valid, FreesMeta;
    if forall i :: 0 <= i < |states| ==> Valid(geo, states[i]) {
      forall i | 0 <= i < |ops| ensures !FreesMeta(geo, states[i], ops[i]) {
        StepValidIff(geo, states[i], ops[i], states[i + 1]);
      }
    }
    if NoMetaFreed(geo, states, ops) {
      forall i | 0 <= i < |states| ensures Valid(geo, states[i]) {
        ValidUpTo(geo, states, ops, i);
      }
    }
  }

  lemma {:induction false} ValidUpTo(geo: Geometry, states: seq<Vol>, ops: seq<Op>, i: nat)
    requires Run(geo, states, ops) && Valid(geo, states[0]) && NoMetaFreed(geo, states, ops) && i < |states|
    ensures Valid(geo, states[i])
  {
    hide Step, Valid, FreesMeta;
    if i > 0 {
      ValidUpTo(geo, states, ops, i - 1);
      StepValidIff(geo, states[i - 1], ops[i - 1], states[i]);
    }
  }

  /** Over every run of allocations and frees, up to any free of metadata: the volume stays valid, so
      each counter equals its clear bits and the descriptors on disk equal the cached ones; the
      superblock counts the free set; and a block in use keeps its contents until it is freed. */
  lemma {:induction false} RunSafety(geo: Geometry, states: seq<Vol>, ops: seq<Op>, b: nat)
    requires Run(geo, states, ops) && Valid(geo, states[0])
    ensures (forall i :: 0 <= i < |states| ==> Valid(geo, states[i])) <==> NoMetaFreed(geo, states, ops)
    ensures forall i :: 0 <= i < |states| && Valid(geo, states[i]) ==> SbFree(states[i]) == |FreeSet(geo, states[i])|
    ensures NoMetaFreed(geo, states, ops) && Free(b) !in ops ==> Kept(geo, states[0], states[|ops|], b)
  {
    hide Step, Valid, FreesMeta, Kept, FreeSet;
    RunValidIff(geo, states, ops);
    forall i | 0 <= i < |states| && Valid(geo, states[i])
      ensures Shape(geo, states[i]) && SbFree(states[i]) == |FreeSet(geo, states[i])|
    {
      ValidShape(geo, states[i]);
      SbFreeIsCard(geo, states[i]);
    }
    if NoMetaFreed(geo, states, ops) && Free(b) !in ops {
      KeptUpTo(geo, states, ops, b, |ops|);
    }
  }

  lemma {:induction false} KeptUpTo(geo: Geometry, states: seq<Vol>, ops: seq<Op>, b: nat, i: nat)
    requires Run(geo, states, ops) && Valid(geo, states[0]) && NoMetaFreed(geo, states, ops) && Free(b) !in ops
    requires i <= |ops|
    ensures Kept(geo, states[0], states[i], b)
  {
    hide Step, Valid, FreesMeta, Kept;
    if i == 0 {
      KeptSelf(geo, states[0], b);
    } else {
      KeptUpTo(geo, states, ops, b, i - 1);
      KeptValid(geo, states[0], states[i - 1], b);
      assert ops[i - 1] in ops;
      StepKeeps(geo, states[i - 1], ops[i - 1], states[i], b);
      KeptTwice(geo, states[0], states[i - 1], states[i], b);
    }
  }

  lemma KeptSelf(geo: Geometry, v: Vol, b: nat)
    requires Valid(geo, v)
    ensures Kept(geo, v, v, b)
  {
  }

  lemma KeptTwice(geo: Geometry, u: Vol, v: Vol, w: Vol, b: nat)
    requires Kept(geo, u, v, b) && Kept(geo, v, w, b)
    ensures Kept(geo, u, w, b)
  {
    hide Synced, Counted, MetaUsed, AllocMeta, LocsOk;
  }
}
