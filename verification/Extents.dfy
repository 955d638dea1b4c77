/** Extent-tree nodes: a 12-byte header and 12-byte entries, in an inode's block area
    (sixty bytes, four entries) or in a whole block. */
module Extents {
  import opened Bytes
  import opened Runs

  const MAGIC := 0xF30A
  const ROOT_MAX := 4

  function Entries(node: seq<Byte>): (n: nat)
    requires 12 <= |node|
    ensures n < U16
  {
    Get16(node, 2)
  }

  function Depth(node: seq<Byte>): (n: nat)
    requires 12 <= |node|
  {
    Get16(node, 6)
  }

  predicate HasMagic(node: seq<Byte>)
    requires 12 <= |node|
  {
    Get16(node, 0) == MAGIC
  }

  /** A whole node header: entries in use, room for entries, levels below, and no generation. */
  predicate HeaderIs(node: seq<Byte>, entries: nat, max: nat, depth: nat) {
    && 12 <= |node| && HasMagic(node) && Entries(node) == entries && Get16(node, 4) == max && Depth(node) == depth
    && Get32(node, 8) == 0
  }

  /** The header build_tree and write_leaf store. */
  function PutHeader(node: seq<Byte>, entries: nat, max: nat, depth: nat): (r: seq<Byte>)
    requires 12 <= |node| && entries < U16 && max < U16 && depth < U16
    ensures |r| == |node| && HeaderIs(r, entries, max, depth)
    ensures forall j :: 12 <= j < |node| ==> r[j] == node[j]
  {
    var a := Put16(node, 0, MAGIC);
    var b := Put16(a, 2, entries);
    var c := Put16(b, 4, max);
    var d := Put16(c, 6, depth);
    Put32(d, 8, 0)
  }

  predicate EntryFits(node: seq<Byte>, i: nat) { 12 + 12 * i + 12 <= |node| }

  // ---------------- extents ----------------

  /** Entry `i` of a leaf, with its 16-bit count as stored. */
  function GetExtent(node: seq<Byte>, i: nat): (r: Run)
    requires EntryFits(node, i)
    ensures r.count < U16 && r.first < U32
  {
    var o := 12 + 12 * i;
    Run(Get32(node, o + 8) + U32 * Get16(node, o + 6), Get32(node, o), Get16(node, o + 4))
  }

  /** The count field a run is stored with: 16 bits, and 32768 is squeezed to 32767. */
  function StoredCount(count: nat): (c: nat)
    ensures c < U16
  {
    if count == 32768 then 32767 else count % U16
  }

  /** What entry a run becomes: every field is cut to its width. */
  function Stored(run: Run): (r: Run) {
    Run(run.start % 0x1_0000_0000_0000, run.first % U32, StoredCount(run.count))
  }

  function PutExtent(node: seq<Byte>, i: nat, run: Run): (r: seq<Byte>)
    requires EntryFits(node, i)
    ensures |r| == |node|
    ensures forall j :: 0 <= j < |node| && (j < 12 + 12 * i || 24 + 12 * i <= j) ==> r[j] == node[j]
  {
    var o := 12 + 12 * i;
    var a := Put32(node, o, run.first % U32);
    var b := Put16(a, o + 4, StoredCount(run.count));
    var c := Put32(b, o + 8, run.start % U32);
    Put16(c, o + 6, run.start / U32 % U16)
  }

  lemma Split48(x: nat)
    ensures x % 0x1_0000_0000_0000 == x % U32 + U32 * (x / U32 % U16)
  {
  }

  lemma PutExtentReads(node: seq<Byte>, i: nat, run: Run)
    requires EntryFits(node, i)
    ensures GetExtent(PutExtent(node, i, run), i) == Stored(run)
  {
    hide Put16, Put32, StoredCount;
    Split48(run.start);
    var o := 12 + 12 * i;
    var a := Put32(node, o, run.first % U32);
    var b := Put16(a, o + 4, StoredCount(run.count));
    var c := Put32(b, o + 8, run.start % U32);
    var r := Put16(c, o + 6, run.start / U32 % U16);
    assert Get32(r, o) == Get32(a, o);
    assert Get16(r, o + 4) == Get16(b, o + 4);
    assert Get32(r, o + 8) == Get32(c, o + 8);
  }

  lemma GetExtentSame(a: seq<Byte>, b: seq<Byte>, i: nat)
    requires EntryFits(a, i) && EntryFits(b, i)
    requires forall j :: 12 + 12 * i <= j < 24 + 12 * i ==> a[j] == b[j]
    ensures GetExtent(a, i) == GetExtent(b, i)
  {
  }

  /** Storing runs as entries 0, 1, ...: the fill loop of build_tree and write_leaf. */
  method FillExtents(node: seq<Byte>, runs: seq<Run>, from: nat, n: nat) returns (r: seq<Byte>)
    requires 12 + 12 * n <= |node| && from + n <= |runs|
    ensures |r| == |node|
    ensures forall i :: 0 <= i < n ==> GetExtent(r, i) == Stored(runs[from + i])
    ensures forall j :: 0 <= j < |node| && (j < 12 || 12 + 12 * n <= j) ==> r[j] == node[j]
  {
    r := node;
    for i := 0 to n
      invariant |r| == |node|
      invariant forall k :: 0 <= k < i ==> GetExtent(r, k) == Stored(runs[from + k])
      invariant forall j :: 0 <= j < |node| && (j < 12 || 12 + 12 * i <= j) ==> r[j] == node[j]
    {
      var was := r;
      r := PutExtent(r, i, runs[from + i]);
      PutExtentReads(was, i, runs[from + i]);
      forall k | 0 <= k < i ensures GetExtent(r, k) == GetExtent(was, k) {
        GetExtentSame(r, was, k);
      }
    }
  }

  // ---------------- reading ----------------

  /** A count of 32768 or more marks the extent as not yet written. */
  predicate Unwritten(e: Run) { e.count >= 32768 }

  function Len(e: Run): nat { if Unwritten(e) then e.count - 32768 else e.count }

  /** The entry covers the file block; the end is computed in 32 bits. */
  predicate Hits(e: Run, logical: nat) {
    e.first <= logical < (e.first + Len(e)) % U32
  }

  /** The disk block an entry gives for a file block it covers; 0 reads as a hole. */
  function Target(e: Run, logical: nat): nat
    requires e.first <= logical
  {
    if Unwritten(e) then 0 else e.start + (logical - e.first)
  }

  /** What a leaf's entries from `i` on map a file block to. */
  function LookupFrom(node: seq<Byte>, i: nat, logical: nat): nat
    requires LeafOk(node)
    decreases Entries(node) - i
  {
    if i >= Entries(node) then 0
    else if Hits(GetExtent(node, i), logical) then Target(GetExtent(node, i), logical)
    else LookupFrom(node, i + 1, logical)
  }

  predicate LeafOk(node: seq<Byte>) {
    12 <= |node| && 12 + 12 * Entries(node) <= |node|
  }

  /** What a leaf maps a file block to. */
  function Lookup(node: seq<Byte>, logical: nat): nat
    requires LeafOk(node)
  {
    LookupFrom(node, 0, logical)
  }

  /** The search loop of extent_lookup over a leaf. */
  method SearchLeaf(node: seq<Byte>, logical: nat) returns (phys: nat)
    requires LeafOk(node)
    ensures phys == Lookup(node, logical)
  {
    var i := 0;
    while i < Entries(node)
      invariant 0 <= i <= Entries(node)
      invariant LookupFrom(node, i, logical) == Lookup(node, logical)
    {
      var e := GetExtent(node, i);
      if Hits(e, logical) {
        if Unwritten(e) {
          return 0;
        }
        return e.start + (logical - e.first);
      }
      i := i + 1;
    }
    return 0;
  }

  // ---------------- a leaf holds a run list ----------------

  /** The leaf's entries are the runs, each cut to field width. */
  ghost predicate Holds(node: seq<Byte>, runs: seq<Run>) {
    && LeafOk(node) && Entries(node) == |runs|
    && forall i :: 0 <= i < |runs| ==> GetExtent(node, i) == Stored(runs[i])
  }

  lemma {:induction false} LookupSkips(node: seq<Byte>, runs: seq<Run>, first: nat, k: nat, i: nat, logical: nat)
    requires Holds(node, runs) && Contiguous(runs, first) && Addressable(runs)
    requires i <= k < |runs| && runs[k].Covers(logical)
    ensures LookupFrom(node, i, logical) == LookupFrom(node, k, logical)
    decreases k - i
  {
    if i < k {
      hide GetExtent, Contiguous, Stored, Len, Hits;
      FirstsIncrease(runs, first, i, k);
      StoredShorter(runs[i]);
      assert !Hits(GetExtent(node, i), logical);
      LookupSkips(node, runs, first, k, i + 1, logical);
    }
  }

  /** File and disk addresses are inside their fields; counts may be anything. */
  ghost predicate Addressable(runs: seq<Run>) {
    forall i :: 0 <= i < |runs| ==> runs[i].first + runs[i].count < U32 && runs[i].start < 0x1_0000_0000_0000
  }

  /** A stored entry never claims more blocks than its run has. */
  lemma StoredShorter(r: Run)
    requires r.first + r.count < U32
    ensures Stored(r).first == r.first && Len(Stored(r)) <= r.count && Len(Stored(r)) <= 32767
    ensures forall l: nat :: Hits(Stored(r), l) <==> r.first <= l < r.first + Len(Stored(r))
  {
  }

  lemma {:induction false} LookupMisses(node: seq<Byte>, runs: seq<Run>, i: nat, logical: nat)
    requires Holds(node, runs) && Addressable(runs) && i <= |runs|
    requires forall k :: i <= k < |runs| ==> !runs[k].Covers(logical)
    ensures LookupFrom(node, i, logical) == 0
    decreases |runs| - i
  {
    if i < |runs| {
      StoredShorter(runs[i]);
      assert !runs[i].Covers(logical);
      LookupMisses(node, runs, i + 1, logical);
    }
  }

  /** What a leaf holding a gap-free run list maps a covered file block to. */
  lemma LookupCovered(node: seq<Byte>, runs: seq<Run>, first: nat, k: nat, logical: nat)
    requires Holds(node, runs) && Contiguous(runs, first) && Addressable(runs)
    requires k < |runs| && runs[k].Covers(logical)
    ensures Lookup(node, logical)
         == if Hits(Stored(runs[k]), logical) then Target(Stored(runs[k]), logical) else 0
  {
    LookupSkips(node, runs, first, k, 0, logical);
    StoredShorter(runs[k]);
    if !Hits(Stored(runs[k]), logical) {
      forall j | k < j < |runs| ensures !runs[j].Covers(logical) {
        FirstsIncrease(runs, first, k, j);
      }
      LookupMisses(node, runs, k + 1, logical);
    }
  }

  /** Every file block of the list maps to its own disk block, and any other to a hole. */
  ghost predicate Denotes(node: seq<Byte>, first: nat, blks: seq<nat>)
    requires LeafOk(node)
  {
    && (forall j :: 0 <= j < |blks| ==> Lookup(node, first + j) == blks[j])
    && (forall l: nat :: l < first || first + |blks| <= l ==> Lookup(node, l) == 0)
  }

  predicate CountFits(r: Run) { r.count <= 32767 }

  lemma StoredExact(r: Run)
    requires CountFits(r) && r.first + r.count < U32 && r.start < 0x1_0000_0000_0000
    ensures Stored(r) == r && !Unwritten(r) && Len(r) == r.count
  {
  }

  /** A covered file block of a short enough run maps to its own disk block. */
  lemma LookupCoveredFitting(node: seq<Byte>, runs: seq<Run>, first: nat, k: nat, logical: nat)
    requires Holds(node, runs) && Contiguous(runs, first) && Addressable(runs)
    requires k < |runs| && CountFits(runs[k]) && runs[k].Covers(logical)
    ensures Lookup(node, logical) == runs[k].start + (logical - runs[k].first)
  {
    hide GetExtent, Hits, Lookup, Stored, Len, Contiguous;
    LookupCovered(node, runs, first, k, logical);
    StoredShorter(runs[k]);
    StoredExact(runs[k]);
  }

  lemma LookupFitting(node: seq<Byte>, runs: seq<Run>, first: nat, logical: nat)
    requires Holds(node, runs) && Contiguous(runs, first) && Addressable(runs)
    requires forall i :: 0 <= i < |runs| ==> CountFits(runs[i])
    ensures |Expand(runs)| == End(runs, first) - first
    ensures Lookup(node, logical)
         == if first <= logical < End(runs, first) then Expand(runs)[logical - first] else 0
  {
    hide GetExtent, Hits, Lookup, CountFits, Expand;
    ExpandLength(runs, first);
    if first <= logical < End(runs, first) {
      var k := FindCover(runs, first, logical);
      LookupCoveredFitting(node, runs, first, k, logical);
      ExpandAt(runs, first, k, logical);
    } else {
      forall k | 0 <= k < |runs| ensures !runs[k].Covers(logical) {
        StartsAtFirst(runs, first, k);
        EndsByEnd(runs, first, k);
      }
      LookupIsFrom(node, logical);
      LookupMisses(node, runs, 0, logical);
    }
  }

  lemma LookupIsFrom(node: seq<Byte>, logical: nat)
    requires LeafOk(node)
    ensures Lookup(node, logical) == LookupFrom(node, 0, logical)
  {
  }

  /** What becomes of a run too long for its count field: one block more than it can express loses just its last
      block, and up to 65535 blocks the whole run reads as unwritten. */
  lemma LongRunReads(node: seq<Byte>, runs: seq<Run>, first: nat, k: nat, logical: nat)
    requires Holds(node, runs) && Contiguous(runs, first) && Addressable(runs)
    requires k < |runs| && runs[k].Covers(logical) && 32768 <= runs[k].count < U16
    ensures Lookup(node, logical)
         == if runs[k].count == 32768 && logical < runs[k].first + 32767 then runs[k].start + (logical - runs[k].first) else 0
  {
    hide GetExtent, Lookup, Contiguous;
    LookupCovered(node, runs, first, k, logical);
  }

  lemma LongRunMisread(node: seq<Byte>, runs: seq<Run>, first: nat, k: nat)
    requires Holds(node, runs) && Contiguous(runs, first) && Addressable(runs)
    requires k < |runs| && !CountFits(runs[k])
    ensures Lookup(node, runs[k].first + runs[k].count - 1) == 0
  {
    hide GetExtent, Hits, Lookup;
    var l := runs[k].first + runs[k].count - 1;
    LookupCovered(node, runs, first, k, l);
    StoredShorter(runs[k]);
  }

  /** A leaf holding the runs of `blks` maps each file block to its own disk block, and all else
      to a hole, exactly when no run is longer than 32767 blocks. */
  lemma LookupInvertsRuns(node: seq<Byte>, runs: seq<Run>, first: nat)
    requires Holds(node, runs) && Contiguous(runs, first) && Addressable(runs) && 0 !in Expand(runs)
    ensures Denotes(node, first, Expand(runs)) <==> forall i :: 0 <= i < |runs| ==> CountFits(runs[i])
  {
    hide Denotes, Contiguous, Expand, Holds, Addressable, CountFits;
    HoldsLeaf(node, runs);
    if forall i :: 0 <= i < |runs| ==> CountFits(runs[i]) {
      FittingDenoted(node, runs, first);
    } else {
      var k :| 0 <= k < |runs| && !CountFits(runs[k]);
      LongRunNotDenoted(node, runs, first, k);
    }
  }

  lemma HoldsLeaf(node: seq<Byte>, runs: seq<Run>)
    requires Holds(node, runs)
    ensures LeafOk(node)
  {
  }

  lemma FittingDenoted(node: seq<Byte>, runs: seq<Run>, first: nat)
    requires Holds(node, runs) && Contiguous(runs, first) && Addressable(runs)
    requires forall i :: 0 <= i < |runs| ==> CountFits(runs[i])
    ensures Denotes(node, first, Expand(runs))
  {
    hide Lookup, Contiguous, Expand, Holds, Addressable, CountFits, End;
    HoldsLeaf(node, runs);
    ExpandLength(runs, first);
    forall l: nat
      ensures Lookup(node, l) == if first <= l < End(runs, first) then Expand(runs)[l - first] else 0
    {
      LookupFitting(node, runs, first, l);
    }
  }

  /** The last block of a run too long for its 16-bit count reads as a hole. */
  lemma LongRunNotDenoted(node: seq<Byte>, runs: seq<Run>, first: nat, k: nat)
    requires Holds(node, runs) && Contiguous(runs, first) && Addressable(runs) && 0 !in Expand(runs)
    requires k < |runs| && !CountFits(runs[k])
    ensures !Denotes(node, first, Expand(runs))
  {
    hide Lookup, Contiguous, Expand, Holds, Addressable;
    HoldsLeaf(node, runs);
    LongRunMisread(node, runs, first, k);
    var l := runs[k].first + runs[k].count - 1;
    ExpandAt(runs, first, k, l);
    assert Lookup(node, first + (l - first)) == 0;
  }

  // ---------------- depth-one trees ----------------

  datatype Index = Index(first: nat, leaf: nat)

  function GetIndex(node: seq<Byte>, i: nat): (r: Index)
    requires EntryFits(node, i)
  {
    var o := 12 + 12 * i;
    Index(Get32(node, o), Get32(node, o + 4) + U32 * Get16(node, o + 8))
  }

  function PutIndex(node: seq<Byte>, i: nat, x: Index): (r: seq<Byte>)
    requires EntryFits(node, i)
    ensures |r| == |node|
    ensures forall j :: 0 <= j < |node| && (j < 12 + 12 * i || 24 + 12 * i <= j) ==> r[j] == node[j]
  {
    var o := 12 + 12 * i;
    var a := Put32(node, o, x.first % U32);
    var b := Put32(a, o + 4, x.leaf % U32);
    var c := Put16(b, o + 8, x.leaf / U32 % U16);
    Put16(c, o + 10, 0)
  }

  lemma SmallIndex(x: Index)
    requires x.first < U32 && x.leaf < 0x1_0000_0000_0000
    ensures x.first % U32 == x.first && x.leaf % U32 + U32 * (x.leaf / U32 % U16) == x.leaf
  {
    Split48(x.leaf);
  }

  lemma PutIndexReads(node: seq<Byte>, i: nat, x: Index)
    requires EntryFits(node, i) && x.first < U32 && x.leaf < 0x1_0000_0000_0000
    ensures GetIndex(PutIndex(node, i, x), i) == x
  {
    hide Put16, Put32;
    SmallIndex(x);
    var o := 12 + 12 * i;
    var a := Put32(node, o, x.first % U32);
    var b := Put32(a, o + 4, x.leaf % U32);
    var c := Put16(b, o + 8, x.leaf / U32 % U16);
    var r := Put16(c, o + 10, 0);
    assert Get32(r, o) == Get32(a, o);
    assert Get32(r, o + 4) == Get32(b, o + 4);
    assert Get16(r, o + 8) == Get16(c, o + 8);
  }

  lemma GetIndexSame(a: seq<Byte>, b: seq<Byte>, i: nat)
    requires EntryFits(a, i) && EntryFits(b, i)
    requires forall j :: 12 + 12 * i <= j < 24 + 12 * i ==> a[j] == b[j]
    ensures GetIndex(a, i) == GetIndex(b, i)
  {
  }

  /** The last index, among the first `n`, whose key is at most `logical`. */
  function Chosen(node: seq<Byte>, n: nat, logical: nat): (c: int)
    requires 12 + 12 * n <= |node|
    ensures -1 <= c < n
  {
    if n == 0 then -1 else if GetIndex(node, n - 1).first <= logical then n - 1 else Chosen(node, n - 1, logical)
  }
}
