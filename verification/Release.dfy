/** Which of a file's blocks truncation would release: all of an inline tree's, if every count fits,
    and none of a deeper tree's data. */
module Release {
  import opened Bytes
  import opened Volume
  import opened Runs
  import opened Extents
  import opened Tree
  import opened Files

  /** The new blocks form runs the inline root can hold and the count field can express. */
  ghost predicate Inlineable(start: nat, blks: seq<nat>) {
    var runs := RunsOf(start, blks);
    |runs| <= ROOT_MAX && forall i :: 0 <= i < |runs| ==> CountFits(runs[i])
  }

  // ---------------- what an inline tree releases ----------------

  /** The same runs, none longer. */
  ghost predicate NoLonger(a: seq<Run>, b: seq<Run>) {
    |a| == |b| && forall i :: 0 <= i < |a| ==> b[i].start == a[i].start && b[i].count <= a[i].count
  }

  ghost predicate SameCounts(a: seq<Run>, b: seq<Run>)
    requires |a| == |b|
  {
    forall i :: 0 <= i < |a| ==> b[i].count == a[i].count
  }

  lemma {:induction false} NoLongerExpand(a: seq<Run>, b: seq<Run>)
    requires NoLonger(a, b)
    ensures |Expand(b)| <= |Expand(a)| && (|Expand(b)| == |Expand(a)| <==> SameCounts(a, b))
    ensures SetOf(Expand(b)) <= SetOf(Expand(a))
  {
    if a != [] {
      var n := |a| - 1;
      var x, y := a[..n], b[..n];
      NoLongerExpand(x, y);
      assert SameCounts(a, b) <==> SameCounts(x, y) && b[n].count == a[n].count by {
        forall i | 0 <= i < n ensures a[i] == x[i] && b[i] == y[i] {}
      }
      PrefixBlocks(a[n], b[n]);
      SetOfExpand(a);
      SetOfExpand(b);
    }
  }

  lemma PrefixBlocks(a: Run, b: Run)
    requires b.start == a.start && b.count <= a.count
    ensures SetOf(Blocks(b)) <= SetOf(Blocks(a))
  {
    forall x | x in Blocks(b) ensures x in Blocks(a) {
      assert Blocks(a)[x - a.start] == x;
    }
  }

  lemma SetOfExpand(runs: seq<Run>)
    requires runs != []
    ensures var n := |runs| - 1;
      && SetOf(Expand(runs)) == SetOf(Expand(runs[..n])) + SetOf(Blocks(runs[n]))
      && |Expand(runs)| == |Expand(runs[..n])| + runs[n].count
  {
  }

  /** Shortened runs of distinct blocks are still distinct. */
  lemma {:induction false} NoLongerDistinct(a: seq<Run>, b: seq<Run>)
    requires NoLonger(a, b) && Distinct(Expand(a))
    ensures Distinct(Expand(b))
  {
    if a != [] {
      var n := |a| - 1;
      var front, last := Expand(b[..n]), Blocks(b[n]);
      DistinctParts(Expand(a[..n]), Blocks(a[n]));
      NoLongerDistinct(a[..n], b[..n]);
      NoLongerExpand(a[..n], b[..n]);
      PrefixBlocks(a[n], b[n]);
      forall i, j | 0 <= i < |front| && 0 <= j < |last| ensures front[i] != last[j] {
        assert front[i] in SetOf(front) && last[j] in SetOf(last);
      }
    }
  }

  lemma DistinctParts(a: seq<nat>, b: seq<nat>)
    requires Distinct(a + b)
    ensures Distinct(a) && Distinct(b) && SetOf(a) !! SetOf(b)
  {
    var s := a + b;
    forall i, j | 0 <= i < j < |a| ensures a[i] != a[j] {
      assert s[i] == a[i] && s[j] == a[j];
    }
    forall i, j | 0 <= i < j < |b| ensures b[i] != b[j] {
      assert s[|a| + i] == b[i] && s[|a| + j] == b[j];
    }
    forall i, j | 0 <= i < |a| && 0 <= j < |b| ensures a[i] != b[j] {
      assert s[i] == a[i] && s[|a| + j] == b[j];
    }
  }

  /** An entry as truncation sees it is never longer than its run, and as long exactly when the count fits. */
  lemma StoredEntry(node: seq<Byte>, i: nat, run: Run)
    requires EntryFits(node, i) && GetExtent(node, i) == Stored(run)
    requires run.start < 0x1_0000_0000_0000
    ensures var e := EntryRun(node, i); e.start == run.start && e.count <= run.count && (e.count == run.count <==> CountFits(run))
  {
    hide GetExtent;
  }

  /** An inline tree releases some of the blocks it was built from, and all of them exactly when
      every run's count fits its field. */
  lemma InlineReleases(out: seq<Byte>, start: nat, blks: seq<nat>)
    requires InlineTree(out, RunsOf(start, blks)) && |RunsOf(start, blks)| <= ROOT_MAX
    requires Addressable(RunsOf(start, blks)) && Distinct(blks)
    ensures RootOk(Root(out)) && FreedUnits(Root(out)) == |TreeBlocks(Root(out))|
    ensures Distinct(TreeBlocks(Root(out))) && SetOf(TreeBlocks(Root(out))) <= SetOf(blks)
    ensures |TreeBlocks(Root(out))| <= |blks|
    ensures |TreeBlocks(Root(out))| == |blks| <==> Inlineable(start, blks)
    ensures Empty(Root(out)) ==> blks == []
  {
    hide GetExtent, RunsOf, Stored, CountFits, Contiguous, Maximal, EntryRun, SetOf, Distinct;
    var runs, root := RunsOf(start, blks), Root(out);
    RunsOfEncodes(start, blks);
    var es := EntryRuns(root, |runs|);
    forall i | 0 <= i < |runs|
      ensures es[i].start == runs[i].start && es[i].count <= runs[i].count
      ensures es[i].count == runs[i].count <==> CountFits(runs[i])
    {
      StoredEntry(root, i, runs[i]);
    }
    hide Expand;
    NoLongerExpand(runs, es);
    NoLongerDistinct(runs, es);
    ExpandNil();
  }

  // ---------------- what a deeper tree releases ----------------

  lemma {:induction false} LeavesAre(node: seq<Byte>, leaves: seq<nat>, n: nat)
    requires 12 + 12 * n <= |node| && n <= |leaves| && 0 !in leaves
    requires forall l :: 0 <= l < n ==> GetIndex(node, l).leaf == leaves[l]
    ensures Leaves(node, n) == leaves[..n]
  {
    hide GetIndex;
    if n > 0 {
      LeavesAre(node, leaves, n - 1);
      assert leaves[n - 1] in leaves;
    }
  }

  /** A deeper tree releases its leaf blocks and none of the data. */
  lemma DeepReleases(geo: Geometry, disk: seq<Block>, out: seq<Byte>, runs: seq<Run>, leaves: seq<nat>)
    requires geo.Ok() && 128 <= |out| && DeepTree(geo, disk, out, runs, leaves) && |runs| > 0 && 0 !in leaves
    ensures RootOk(Root(out)) && !Empty(Root(out))
    ensures TreeBlocks(Root(out)) == leaves && FreedUnits(Root(out)) == |leaves|
  {
    hide GetIndex, LeafHolds;
    LeavesAre(Root(out), leaves, |leaves|);
    assert leaves[..|leaves|] == leaves;
  }
}
