/** Depth-one extent trees: more runs than the root has entries go to leaf blocks. */
module Tree {
  import opened Bytes
  import opened Arith
  import opened Volume
  import opened Runs
  import opened Extents

  /** Leaf `l` of a tree over `n` runs holds the runs from `Mul(l, cap)` up to here. */
  function LeafEnd(n: nat, cap: nat, l: nat): (e: nat) {
    if Mul(l, cap) + cap <= n then Mul(l, cap) + cap else n
  }

  /** Leaves needed for `n` runs. */
  function LeafCount(n: nat, cap: nat): (q: nat)
    requires cap > 0
    ensures n <= Mul(q, cap) < n + cap
  {
    CeilDiv(n, cap)
  }

  /** The runs a leaf block holds. */
  function LeafCap(geo: Geometry): (cap: nat)
    requires geo.Ok()
    ensures 0 < cap && 12 + 12 * cap <= geo.blockSize < 24 + 12 * cap
  {
    (geo.blockSize - 12) / 12
  }

  ghost predicate LeafHolds(disk: seq<Block>, x: Index, runs: seq<Run>, cap: nat, l: nat)
    requires cap > 0 && l < LeafCount(|runs|, cap)
  {
    LeafStart(|runs|, cap, l);
    && x.leaf < |disk| && x.first == runs[Mul(l, cap)].first
    && HeaderIs(disk[x.leaf], LeafEnd(|runs|, cap, l) - Mul(l, cap), cap, 0)
    && Holds(disk[x.leaf], runs[Mul(l, cap)..LeafEnd(|runs|, cap, l)])
  }

  lemma LeafStart(n: nat, cap: nat, l: nat)
    requires cap > 0 && l < LeafCount(n, cap)
    ensures Mul(l, cap) < LeafEnd(n, cap, l) <= n && LeafEnd(n, cap, l) - Mul(l, cap) <= cap
    ensures l + 1 < LeafCount(n, cap) ==> LeafEnd(n, cap, l) == Mul(l + 1, cap)
    ensures l + 1 == LeafCount(n, cap) ==> LeafEnd(n, cap, l) == n
  {
    MulMono(l + 1, LeafCount(n, cap), cap);
    if l + 1 < LeafCount(n, cap) {
      SlotsApart(l + 1, LeafCount(n, cap), cap);
    }
  }

  /** The tree build_tree leaves: the leaves' slices concatenate to the run list, in order, each
      within capacity, and every index is keyed by its leaf's first file block. */
  ghost predicate TreeHolds(disk: seq<Block>, root: seq<Byte>, runs: seq<Run>, cap: nat) {
    && cap > 0 && 12 + 12 * LeafCount(|runs|, cap) <= |root|
    && Entries(root) == LeafCount(|runs|, cap)
    && forall l :: 0 <= l < LeafCount(|runs|, cap) ==> LeafHolds(disk, GetIndex(root, l), runs, cap, l)
  }

  /** Reading a tree: the last index whose key is at most the file block, then that leaf. */
  function TreeLookup(disk: seq<Block>, root: seq<Byte>, logical: nat): (phys: nat)
    requires 12 <= |root| && 12 + 12 * Entries(root) <= |root|
  {
    var c := Chosen(root, Entries(root), logical);
    if c < 0 then 0
    else
      var leaf := GetIndex(root, c).leaf;
      if leaf < |disk| && LeafOk(disk[leaf]) then Lookup(disk[leaf], logical) else 0
  }

  lemma KeysIncrease(disk: seq<Block>, root: seq<Byte>, runs: seq<Run>, cap: nat, first: nat, a: nat, b: nat)
    requires TreeHolds(disk, root, runs, cap) && Contiguous(runs, first) && a < b < LeafCount(|runs|, cap)
    ensures GetIndex(root, a).first < GetIndex(root, b).first
  {
    assert LeafHolds(disk, GetIndex(root, a), runs, cap, a) && LeafHolds(disk, GetIndex(root, b), runs, cap, b);
    LeafStart(|runs|, cap, a);
    LeafStart(|runs|, cap, b);
    SlotsApart(a, b, cap);
    FirstsIncrease(runs, first, Mul(a, cap), Mul(b, cap));
  }

  lemma {:induction false} ChosenIs(root: seq<Byte>, n: nat, logical: nat, l: nat)
    requires 12 + 12 * n <= |root| && l < n
    requires GetIndex(root, l).first <= logical
    requires forall k :: l < k < n ==> logical < GetIndex(root, k).first
    ensures Chosen(root, n, logical) == l
  {
    if l < n - 1 {
      assert logical < GetIndex(root, n - 1).first;
      ChosenIs(root, n - 1, logical, l);
    }
  }

  lemma SliceContiguous(runs: seq<Run>, first: nat, lo: nat, hi: nat)
    requires Contiguous(runs, first) && lo < hi <= |runs|
    ensures Contiguous(runs[lo..hi], runs[lo].first)
  {
  }

  /** The leaf a covered file block is looked up in is the one whose slice covers it. */
  lemma TreeChooses(disk: seq<Block>, root: seq<Byte>, runs: seq<Run>, cap: nat, first: nat, k: nat, logical: nat)
    requires TreeHolds(disk, root, runs, cap) && Contiguous(runs, first)
    requires k < |runs| && runs[k].Covers(logical)
    ensures Div(k, cap) < LeafCount(|runs|, cap) && Chosen(root, Entries(root), logical) == Div(k, cap)
  {
    hide Mul, Div, Mod, Holds, GetIndex, Chosen, Contiguous;
    var l := Div(k, cap);
    DivBound(k, LeafCount(|runs|, cap), cap);
    LeafStart(|runs|, cap, l);
    assert LeafHolds(disk, GetIndex(root, l), runs, cap, l);
    if Mul(l, cap) < k {
      FirstsIncrease(runs, first, Mul(l, cap), k);
    }
    forall m | l < m < LeafCount(|runs|, cap) ensures logical < GetIndex(root, m).first {
      assert LeafHolds(disk, GetIndex(root, m), runs, cap, m);
      LeafStart(|runs|, cap, m);
      SlotsApart(l, m, cap);
      FirstsIncrease(runs, first, k, Mul(m, cap));
    }
    ChosenIs(root, Entries(root), logical, l);
  }

  /** The leaf slice a run lies in, and the leaf that holds it. */
  lemma LeafOfRun(disk: seq<Block>, root: seq<Byte>, runs: seq<Run>, cap: nat, first: nat, k: nat, logical: nat)
    returns (leaf: nat, lo: nat, hi: nat)
    requires TreeHolds(disk, root, runs, cap) && Contiguous(runs, first)
    requires k < |runs| && runs[k].Covers(logical)
    ensures lo <= k < hi <= |runs| && leaf < |disk| && Holds(disk[leaf], runs[lo..hi])
    ensures Contiguous(runs[lo..hi], runs[lo].first) && TreeLookup(disk, root, logical) == Lookup(disk[leaf], logical)
  {
    hide Mul, Div, Mod, Chosen, Lookup, GetIndex, GetExtent, Contiguous;
    TreeChooses(disk, root, runs, cap, first, k, logical);
    var l := Div(k, cap);
    LeafStart(|runs|, cap, l);
    lo, hi := Mul(l, cap), LeafEnd(|runs|, cap, l);
    assert LeafHolds(disk, GetIndex(root, l), runs, cap, l);
    leaf := GetIndex(root, l).leaf;
    SliceContiguous(runs, first, lo, hi);
  }

  lemma TreeCovered(disk: seq<Block>, root: seq<Byte>, runs: seq<Run>, cap: nat, first: nat, logical: nat)
    requires TreeHolds(disk, root, runs, cap) && Contiguous(runs, first) && Addressable(runs)
    requires forall i :: 0 <= i < |runs| ==> CountFits(runs[i])
    requires first <= logical < End(runs, first)
    ensures logical - first < |Expand(runs)| && TreeLookup(disk, root, logical) == Expand(runs)[logical - first]
  {
    hide TreeHolds, TreeLookup, Lookup, CountFits, Contiguous, Expand, Holds;
    var k := FindCover(runs, first, logical);
    ExpandAt(runs, first, k, logical);
    var leaf, lo, hi := LeafOfRun(disk, root, runs, cap, first, k, logical);
    LookupCoveredFitting(disk[leaf], runs[lo..hi], runs[lo].first, k - lo, logical);
  }

  /** Outside the runs every leaf reads as a hole, whichever one is chosen. */
  lemma TreeUncovered(disk: seq<Block>, root: seq<Byte>, runs: seq<Run>, cap: nat, first: nat, logical: nat)
    requires TreeHolds(disk, root, runs, cap) && Contiguous(runs, first) && Addressable(runs)
    requires logical < first || End(runs, first) <= logical
    ensures TreeLookup(disk, root, logical) == 0
  {
    hide Mul, Chosen, GetIndex, Holds, Contiguous, End, LookupFrom;
    var c := Chosen(root, Entries(root), logical);
    if c >= 0 {
      LeafStart(|runs|, cap, c);
      var lo, hi := Mul(c, cap), LeafEnd(|runs|, cap, c);
      assert LeafHolds(disk, GetIndex(root, c), runs, cap, c);
      var leaf, slice := disk[GetIndex(root, c).leaf], runs[lo..hi];
      forall k | 0 <= k < |slice| ensures !slice[k].Covers(logical) {
        StartsAtFirst(runs, first, lo + k);
        EndsByEnd(runs, first, lo + k);
      }
      LookupMisses(leaf, slice, 0, logical);
      HoldsLeaf(leaf, slice);
      LookupIsFrom(leaf, logical);
    }
  }

  /** Reading the tree gives the run list's own map: each covered file block its disk block, and
      every other one a hole. */
  lemma TreeDenotes(disk: seq<Block>, root: seq<Byte>, runs: seq<Run>, cap: nat, first: nat, logical: nat)
    requires TreeHolds(disk, root, runs, cap) && Contiguous(runs, first) && Addressable(runs)
    requires forall i :: 0 <= i < |runs| ==> CountFits(runs[i])
    ensures |Expand(runs)| == End(runs, first) - first
    ensures TreeLookup(disk, root, logical)
         == if first <= logical < End(runs, first) then Expand(runs)[logical - first] else 0
  {
    hide TreeHolds, TreeLookup, CountFits, Contiguous, Expand, End, Addressable;
    ExpandLength(runs, first);
    if first <= logical < End(runs, first) {
      TreeCovered(disk, root, runs, cap, first, logical);
    } else {
      TreeUncovered(disk, root, runs, cap, first, logical);
    }
  }

  /** With a run too long for its count, the run's last block reads as a hole. */
  lemma TreeMisreadsLongRun(disk: seq<Block>, root: seq<Byte>, runs: seq<Run>, cap: nat, first: nat, k: nat)
    requires TreeHolds(disk, root, runs, cap) && Contiguous(runs, first) && Addressable(runs)
    requires k < |runs| && !CountFits(runs[k])
    ensures TreeLookup(disk, root, runs[k].first + runs[k].count - 1) == 0
  {
    hide TreeHolds, TreeLookup, Lookup, Contiguous, Holds;
    var leaf, lo, hi := LeafOfRun(disk, root, runs, cap, first, k, runs[k].first + runs[k].count - 1);
    LongRunMisread(disk[leaf], runs[lo..hi], runs[lo].first, k - lo);
  }

  /** The tree reads as the map from file block `first + j` to `blks[j]`, with holes elsewhere. */
  ghost predicate TreeMaps(disk: seq<Block>, root: seq<Byte>, first: nat, blks: seq<nat>)
    requires 12 <= |root| && 12 + 12 * Entries(root) <= |root|
  {
    forall l: nat ::
      TreeLookup(disk, root, l) == if first <= l < first + |blks| then blks[l - first] else 0
  }

  /** It does so for the run list it holds exactly when no run is longer than 32767 blocks. */
  lemma TreeInvertsRuns(disk: seq<Block>, root: seq<Byte>, runs: seq<Run>, cap: nat, first: nat)
    requires TreeHolds(disk, root, runs, cap) && Contiguous(runs, first) && Addressable(runs) && 0 !in Expand(runs)
    ensures TreeMaps(disk, root, first, Expand(runs)) <==> forall i :: 0 <= i < |runs| ==> CountFits(runs[i])
  {
    hide TreeLookup, CountFits, Contiguous, Expand, End, Addressable, LeafHolds;
    if forall i :: 0 <= i < |runs| ==> CountFits(runs[i]) {
      forall l: nat
        ensures TreeLookup(disk, root, l)
             == if first <= l < first + |Expand(runs)| then Expand(runs)[l - first] else 0
      {
        TreeDenotes(disk, root, runs, cap, first, l);
      }
    } else {
      var k :| 0 <= k < |runs| && !CountFits(runs[k]);
      TreeMisreadsLongRun(disk, root, runs, cap, first, k);
      LongRunCovers(runs, first, k);
    }
  }

  lemma LongRunCovers(runs: seq<Run>, first: nat, k: nat)
    requires Contiguous(runs, first) && k < |runs| && !CountFits(runs[k]) && 0 !in Expand(runs)
    ensures var l := runs[k].first + runs[k].count - 1;
      first <= l < first + |Expand(runs)| && Expand(runs)[l - first] != 0
  {
    hide Contiguous, Expand;
    ExpandAt(runs, first, k, runs[k].first + runs[k].count - 1);
  }
}
