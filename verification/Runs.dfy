/** Runs of consecutive disk blocks: what e4_append_blocks collects while it allocates. */
module Runs {

  /** `count` file blocks from `first` on, stored on disk from `start` on. */
  datatype Run = Run(start: nat, first: nat, count: nat) {
    predicate Covers(logical: nat) { first <= logical < first + count }
  }

  /** Recording one more allocated block: the last run grows, or a new one begins. */
  function AddBlock(runs: seq<Run>, blk: nat, logical: nat): (r: seq<Run>)
  {
    if runs != [] && runs[|runs| - 1].start + runs[|runs| - 1].count == blk
       && runs[|runs| - 1].first + runs[|runs| - 1].count == logical
    then runs[|runs| - 1 := runs[|runs| - 1].(count := runs[|runs| - 1].count + 1)]
    else runs + [Run(blk, logical, 1)]
  }

  /** The runs the append loop has collected after allocating `blks` for file blocks `first`, `first + 1`, ... */
  function RunsOf(first: nat, blks: seq<nat>): (r: seq<Run>) {
    if blks == [] then [] else AddBlock(RunsOf(first, blks[..|blks| - 1]), blks[|blks| - 1], first + |blks| - 1)
  }

  // ---------------- what a run list means ----------------

  function Blocks(run: Run): (r: seq<nat>) {
    seq(run.count, i requires 0 <= i => run.start + i)
  }

  /** The disk blocks of a run list, in file order. */
  function Expand(runs: seq<Run>): (r: seq<nat>) {
    if runs == [] then [] else Expand(runs[..|runs| - 1]) + Blocks(runs[|runs| - 1])
  }

  /** No run is empty, and each starts where the one before it ends; the first starts at `first`. */
  ghost predicate Contiguous(runs: seq<Run>, first: nat) {
    && (forall i :: 0 <= i < |runs| ==> runs[i].count > 0)
    && (runs != [] ==> runs[0].first == first)
    && (forall i, j :: 0 <= i < j < |runs| && j == i + 1 ==> runs[j].first == runs[i].first + runs[i].count)
  }

  /** No two neighbouring runs could be merged. */
  ghost predicate Maximal(runs: seq<Run>) {
    forall i, j :: 0 <= i < j < |runs| && j == i + 1 ==> runs[j].start != runs[i].start + runs[i].count
  }

  function End(runs: seq<Run>, first: nat): nat {
    if runs == [] then first else runs[|runs| - 1].first + runs[|runs| - 1].count
  }

  lemma AddBlockKeeps(runs: seq<Run>, blk: nat, first: nat)
    requires Contiguous(runs, first) && Maximal(runs)
    ensures var r := AddBlock(runs, blk, End(runs, first));
      Contiguous(r, first) && Maximal(r) && End(r, first) == End(runs, first) + 1
  {
    hide AddBlock, Contiguous, Maximal;
    AddBlockContiguous(runs, blk, first);
    AddBlockMaximal(runs, blk, first);
  }

  lemma AddBlockContiguous(runs: seq<Run>, blk: nat, first: nat)
    requires Contiguous(runs, first)
    ensures var r := AddBlock(runs, blk, End(runs, first));
      Contiguous(r, first) && End(r, first) == End(runs, first) + 1
  {
  }

  lemma AddBlockMaximal(runs: seq<Run>, blk: nat, first: nat)
    requires Maximal(runs)
    ensures Maximal(AddBlock(runs, blk, End(runs, first)))
  {
  }

  lemma NoRuns(first: nat)
    ensures Contiguous([], first) && Maximal([]) && Expand([]) == [] && End([], first) == first
  {
  }

  /** The collected runs are gap-free and maximal, and they expand to exactly the allocated blocks. */
  lemma {:induction false} RunsOfEncodes(first: nat, blks: seq<nat>)
    ensures var runs := RunsOf(first, blks);
      Contiguous(runs, first) && Maximal(runs) && Expand(runs) == blks && End(runs, first) == first + |blks|
  {
    hide AddBlock, Contiguous, Maximal, Expand, End;
    if blks == [] {
      NoRuns(first);
    } else {
      var n := |blks| - 1;
      RunsOfEncodes(first, blks[..n]);
      AddBlockKeeps(RunsOf(first, blks[..n]), blks[n], first);
      AddBlockExpand(RunsOf(first, blks[..n]), blks[n], first + n);
      assert blks == blks[..n] + [blks[n]];
    }
  }

  lemma AddBlockExpand(runs: seq<Run>, blk: nat, logical: nat)
    ensures Expand(AddBlock(runs, blk, logical)) == Expand(runs) + [blk]
  {
    var r := AddBlock(runs, blk, logical);
    var n := |r| - 1;
    if |r| == |runs| {
      assert r[..n] == runs[..n];
      assert Blocks(r[n]) == Blocks(runs[n]) + [blk];
    } else {
      assert r[..n] == runs;
      assert Blocks(r[n]) == [blk];
    }
  }

  lemma {:induction false} ExpandLength(runs: seq<Run>, first: nat)
    requires Contiguous(runs, first)
    ensures |Expand(runs)| == End(runs, first) - first
  {
    if runs != [] {
      ExpandLength(runs[..|runs| - 1], first);
    }
  }

  /** File block `logical` of a gap-free list lies where the run covering it says. */
  lemma {:induction false} ExpandAt(runs: seq<Run>, first: nat, i: nat, logical: nat)
    requires Contiguous(runs, first) && i < |runs| && runs[i].Covers(logical)
    ensures first <= logical && logical - first < |Expand(runs)|
    ensures Expand(runs)[logical - first] == runs[i].start + (logical - runs[i].first)
  {
    var n := |runs| - 1;
    var front := runs[..n];
    ContiguousFront(runs, first);
    ExpandLength(front, first);
    if i < n {
      hide Contiguous, End, Blocks;
      ExpandAt(front, first, i, logical);
    } else {
      hide Contiguous, Expand;
      ExpandLast(runs);
    }
  }

  lemma ContiguousFront(runs: seq<Run>, first: nat)
    requires Contiguous(runs, first) && runs != []
    ensures var n := |runs| - 1; Contiguous(runs[..n], first) && End(runs[..n], first) == runs[n].first >= first
  {
    StartsAtFirst(runs, first, |runs| - 1);
  }

  lemma ExpandLast(runs: seq<Run>)
    requires runs != []
    ensures Expand(runs) == Expand(runs[..|runs| - 1]) + Blocks(runs[|runs| - 1])
  {
  }

  /** Every file block of a gap-free list is covered. */
  lemma {:induction false} FindCover(runs: seq<Run>, first: nat, logical: nat) returns (i: nat)
    requires Contiguous(runs, first) && first <= logical < End(runs, first)
    ensures i < |runs| && runs[i].Covers(logical)
  {
    var n := |runs| - 1;
    if runs[n].first <= logical {
      i := n;
    } else {
      i := FindCover(runs[..n], first, logical);
    }
  }

  lemma {:induction false} FirstsIncrease(runs: seq<Run>, first: nat, i: nat, j: nat)
    requires Contiguous(runs, first) && i < j < |runs|
    ensures runs[i].first + runs[i].count <= runs[j].first
    ensures first <= runs[i].first && runs[j].first + runs[j].count <= End(runs, first)
  {
    if i + 1 < j {
      FirstsIncrease(runs, first, i, j - 1);
    }
    StartsAtFirst(runs, first, i);
    EndsByEnd(runs, first, j);
  }

  lemma {:induction false} StartsAtFirst(runs: seq<Run>, first: nat, i: nat)
    requires Contiguous(runs, first) && i < |runs|
    ensures first <= runs[i].first
  {
    if i > 0 {
      StartsAtFirst(runs, first, i - 1);
    }
  }

  lemma {:induction false} EndsByEnd(runs: seq<Run>, first: nat, i: nat)
    requires Contiguous(runs, first) && i < |runs|
    ensures runs[i].first + runs[i].count <= End(runs, first)
    decreases |runs| - i
  {
    if i < |runs| - 1 {
      EndsByEnd(runs, first, i + 1);
    }
  }

  lemma DropLast(runs: seq<Run>, first: nat)
    requires Contiguous(runs, first) && Maximal(runs) && runs != []
    ensures var n := |runs| - 1; var less := runs[..n];
      && runs == less + [runs[n]] && Contiguous(less, first) && Maximal(less)
      && |Expand(runs)| == |Expand(less)| + runs[n].count && Expand(less) == Expand(runs)[..|Expand(less)|]
  {
  }

  /** There is only one gap-free, maximal way to encode a block sequence: `RunsOf` is canonical. */
  lemma {:induction false} MaximalIsUnique(a: seq<Run>, b: seq<Run>, first: nat)
    requires Contiguous(a, first) && Contiguous(b, first) && Maximal(a) && Maximal(b)
    requires Expand(a) == Expand(b)
    ensures a == b
  {
    if a == [] || b == [] {
      ExpandLength(a, first);
      ExpandLength(b, first);
    } else {
      hide Contiguous, Maximal, Expand, End;
      LastRunsAgree(a, b, first);
      DropLast(a, first);
      DropLast(b, first);
      MaximalIsUnique(a[..|a| - 1], b[..|b| - 1], first);
    }
  }

  lemma LastRunsAgree(a: seq<Run>, b: seq<Run>, first: nat)
    requires Contiguous(a, first) && Contiguous(b, first) && Maximal(a) && Maximal(b)
    requires Expand(a) == Expand(b) && a != [] && b != []
    ensures a[|a| - 1] == b[|b| - 1]
  {
    ExpandLength(a, first);
    ExpandLength(b, first);
    if a[|a| - 1].count < b[|b| - 1].count {
      LastRunNotShorter(a, b, first);
    } else if b[|b| - 1].count < a[|a| - 1].count {
      LastRunNotShorter(b, a, first);
    } else {
      ExpandAt(a, first, |a| - 1, a[|a| - 1].first);
      ExpandAt(b, first, |b| - 1, b[|b| - 1].first);
    }
  }

  /** A shorter last run would have to be merged with the run before it. */
  lemma LastRunNotShorter(a: seq<Run>, b: seq<Run>, first: nat)
    requires Contiguous(a, first) && Contiguous(b, first) && Maximal(a)
    requires Expand(a) == Expand(b) && a != [] && b != []
    ensures b[|b| - 1].count <= a[|a| - 1].count
  {
    var m, n := |a| - 1, |b| - 1;
    ExpandLength(a, first);
    ExpandLength(b, first);
    if a[m].count < b[n].count {
      StartsAtFirst(b, first, n);
      ExpandAt(b, first, n, a[m].first);
      ExpandAt(b, first, n, a[m].first - 1);
      ExpandAt(a, first, m, a[m].first);
      ExpandAt(a, first, m - 1, a[m].first - 1);
    }
  }

  lemma ExpandStep(runs: seq<Run>, r: Run)
    ensures Expand(runs + [r]) == Expand(runs) + Blocks(r)
  {
    hide Blocks;
    assert (runs + [r])[..|runs|] == runs;
  }

  lemma {:induction false} ExpandAppend(a: seq<Run>, b: seq<Run>)
    ensures Expand(a + b) == Expand(a) + Expand(b)
  {
    hide Blocks;
    if b == [] {
      assert a + b == a;
    } else {
      hide Expand;
      var n := |b| - 1;
      ExpandAppend(a, b[..n]);
      assert b == b[..n] + [b[n]] && a + b == (a + b[..n]) + [b[n]];
      ExpandStep(b[..n], b[n]);
      ExpandStep(a + b[..n], b[n]);
    }
  }

  lemma ExpandAround(a: seq<Run>, r: Run, b: seq<Run>)
    ensures Expand(a + [r] + b) == Expand(a) + Blocks(r) + Expand(b)
  {
    hide Blocks, Expand;
    ExpandStep(a, r);
    ExpandAppend(a + [r], b);
  }

  lemma SplitAt(runs: seq<Run>, i: nat)
    requires i < |runs|
    ensures runs == runs[..i] + [runs[i]] + runs[i + 1..]
    ensures runs[..i + 1] == runs[..i] + [runs[i]]
  {
  }

  /** Run `i` contributes the stretch right after what the runs before it contribute. */
  lemma ExpandSplit(runs: seq<Run>, i: nat)
    requires i < |runs|
    ensures Expand(runs[..i + 1]) == Expand(runs[..i]) + Blocks(runs[i])
    ensures Expand(runs) == Expand(runs[..i]) + Blocks(runs[i]) + Expand(runs[i + 1..])
  {
    hide Blocks, Expand;
    SplitAt(runs, i);
    ExpandStep(runs[..i], runs[i]);
    ExpandAround(runs[..i], runs[i], runs[i + 1..]);
  }

  // ---------------- lists of blocks as sets ----------------

  ghost predicate Distinct(s: seq<nat>) {
    forall i, j :: 0 <= i < j < |s| ==> s[i] != s[j]
  }

  ghost function SetOf(s: seq<nat>): set<nat> {
    set b | b in s
  }

  lemma {:induction false} DistinctCard(s: seq<nat>)
    requires Distinct(s)
    ensures |SetOf(s)| == |s|
  {
    if s != [] {
      var n := |s| - 1;
      DistinctCard(s[..n]);
      assert SetOf(s) == SetOf(s[..n]) + {s[n]};
    } else {
      assert SetOf(s) == {};
    }
  }

  lemma SubsetSame(a: set<nat>, b: set<nat>)
    requires a <= b
    ensures a == b <==> |a| == |b|
  {
    if a != b {
      assert b == a + (b - a) && |b - a| > 0;
    }
  }
}
