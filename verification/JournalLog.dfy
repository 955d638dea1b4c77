/** What a journal says: its records, which transactions count as committed, and the block
    writes a recovery makes, all as functions of the disk recovery starts from. */
module JournalLog {
  import opened Bytes
  import opened Extents

  const J_MAGIC := 0xC03B_3998
  const JT_DESC := 1
  const JT_REVOKE := 2
  const JT_COMMIT := 3
  const MAX_TRACKED := 256

  /** A recovery's parameters: the journal inode's block map, the scanned range, the tag size. */
  datatype Job = Job(root: seq<Byte>, first: nat, cap: nat, tagSize: nat, blockSize: nat, blocksCount: nat)
  {
    predicate Ok() {
      && LeafOk(root) && 16 <= blockSize && (tagSize == 12 || tagSize == 16) && 2 <= first
    }
  }

  predicate JobDisk(job: Job, disk: seq<Block>) {
    IsDisk(disk, job.blocksCount, job.blockSize)
  }

  /** jread: journal block `i`, unless the map has a hole there. */
  function JRead(job: Job, disk: seq<Block>, i: nat): (r: Option<Block>)
    requires job.Ok()
  {
    var phys := Lookup(job.root, i);
    if phys == 0 || phys >= |disk| then None else Some(disk[phys])
  }

  // ---------------- records ----------------

  /** Journal block `i` is a record of the given type. */
  predicate IsRecord(job: Job, disk: seq<Block>, i: nat, kind: nat)
    requires job.Ok()
  {
    var b := JRead(job, disk, i);
    b.Some? && 16 <= |b.value| && GetBe32(b.value, 0) == J_MAGIC && GetBe32(b.value, 4) == kind
  }

  function SeqOf(job: Job, disk: seq<Block>, i: nat): nat
    requires job.Ok() && JRead(job, disk, i).Some? && 16 <= |JRead(job, disk, i).value|
  {
    GetBe32(JRead(job, disk, i).value, 8)
  }

  /** The sequences of the commit records below `n`, in log order. */
  function Commits(job: Job, disk: seq<Block>, n: nat): (r: seq<nat>)
    requires job.Ok()
  {
    if n <= job.first then []
    else Commits(job, disk, n - 1) + (if IsRecord(job, disk, n - 1, JT_COMMIT) then [SeqOf(job, disk, n - 1)] else [])
  }

  function WordAt(block: Block, k: nat): nat
    requires 20 + 4 * k <= |block|
  {
    GetBe32(block, 16 + 4 * k)
  }

  /** A revoke record's first `used` bytes list block `b`. */
  ghost predicate Lists(block: Block, used: nat, b: nat)
    requires used <= |block|
  {
    exists k :: 0 <= k && 20 + 4 * k <= used && WordAt(block, k) == b
  }

  /** Journal block `i` revokes `b`; a record that claims more bytes than a block holds is ignored. */
  ghost predicate RevokedAt(job: Job, disk: seq<Block>, i: nat, b: nat)
    requires job.Ok()
  {
    IsRecord(job, disk, i, JT_REVOKE) &&
    var r := JRead(job, disk, i).value;
    Get32(r, 12) <= job.blockSize == |r| && Lists(r, Get32(r, 12), b)
  }

  /** Block `b` is named by some revoke record below `n`. */
  ghost predicate Revoked(job: Job, disk: seq<Block>, n: nat, b: nat)
    requires job.Ok()
  {
    exists i :: job.first <= i < n && RevokedAt(job, disk, i, b)
  }

  // ---------------- committed transactions ----------------

  /** The table note_commit builds: each new sequence is added while there is room. */
  function Tracked(cs: seq<nat>): (t: seq<nat>) {
    if cs == [] then []
    else
      var t, s := Tracked(cs[..|cs| - 1]), cs[|cs| - 1];
      if s in t || |t| >= MAX_TRACKED then t else t + [s]
  }

  function Largest(cs: seq<nat>): (m: nat) {
    if cs == [] then 0
    else
      var m, s := Largest(cs[..|cs| - 1]), cs[|cs| - 1];
      if s > m then s else m
  }

  // ---------------- what is replayed ----------------

  datatype Entry = Entry(target: nat, content: Block)

  function Escaped(content: Block, flags: nat): (r: Block)
    requires 4 <= |content|
    ensures |r| == |content|
  {
    if flags % 2 == 1 then content[0 := 0xC0][1 := 0x3B][2 := 0x39][3 := 0x98] else content
  }

  /** The tags of a descriptor from byte `off` on, with contents from journal block `c` on. A tag
      carrying the LAST flag ends the list and is itself not applied. */
  function Tags(job: Job, disk: seq<Block>, desc: Block, c: nat, off: nat): (r: seq<Entry>)
    requires job.Ok() && |desc| == job.blockSize
    decreases job.blockSize - off
  {
    if off + job.tagSize > job.blockSize || c >= job.cap then []
    else
      var target, flags, content := GetBe32(desc, off), GetBe32(desc, off + 4), JRead(job, disk, c);
      if flags / 8 % 2 == 1 || target == 0 || content.None? || |content.value| < 4 then []
      else [Entry(target, Escaped(content.value, flags))] + Tags(job, disk, desc, c + 1, off + job.tagSize)
  }

  /** The entries of the descriptor at `i`, if it is one and its transaction is in the table. */
  function EntriesAt(job: Job, disk: seq<Block>, table: seq<nat>, i: nat): (r: seq<Entry>)
    requires job.Ok()
  {
    if IsRecord(job, disk, i, JT_DESC) && |JRead(job, disk, i).value| == job.blockSize && SeqOf(job, disk, i) in table
    then Tags(job, disk, JRead(job, disk, i).value, i + 1, 12)
    else []
  }

  /** The whole log from `i` on; a descriptor's contents are skipped over. */
  function LogFrom(job: Job, disk: seq<Block>, table: seq<nat>, i: nat): (r: seq<Entry>)
    requires job.Ok()
    decreases job.cap - i
  {
    if i >= job.cap then []
    else
      var es := EntriesAt(job, disk, table, i);
      es + LogFrom(job, disk, table, i + 1 + |es|)
  }

  /** The entries that are written: revoked targets are skipped. */
  ghost function Kept(job: Job, disk: seq<Block>, es: seq<Entry>): (r: seq<Entry>)
    requires job.Ok()
  {
    if es == [] then []
    else (if Revoked(job, disk, job.cap, es[0].target) then [] else [es[0]]) + Kept(job, disk, es[1..])
  }

  function Log(job: Job, disk: seq<Block>): (r: seq<Entry>)
    requires job.Ok()
  {
    LogFrom(job, disk, Tracked(Commits(job, disk, job.cap)), job.first)
  }

  ghost function Writes(job: Job, disk: seq<Block>): (r: seq<Entry>)
    requires job.Ok()
  {
    Kept(job, disk, Log(job, disk))
  }

  // ---------------- the table of committed sequences ----------------

  lemma TrackedStep(cs: seq<nat>, s: nat)
    ensures Tracked(cs + [s]) == if s in Tracked(cs) || |Tracked(cs)| >= MAX_TRACKED then Tracked(cs) else Tracked(cs) + [s]
    ensures Largest(cs + [s]) == if s > Largest(cs) then s else Largest(cs)
  {
    assert (cs + [s])[..|cs|] == cs;
  }

  lemma {:induction false} TrackedBounded(cs: seq<nat>, s: nat)
    requires s in Tracked(cs)
    ensures s in cs && s <= Largest(cs)
  {
    var n := |cs| - 1;
    if s in Tracked(cs[..n]) {
      TrackedBounded(cs[..n], s);
    }
  }

  ghost function ToSet(cs: seq<nat>): set<nat> { set s | s in cs }

  lemma {:induction false} TrackedShape(cs: seq<nat>)
    ensures |Tracked(cs)| <= MAX_TRACKED && |ToSet(Tracked(cs))| == |Tracked(cs)| && ToSet(Tracked(cs)) <= ToSet(cs)
    ensures |ToSet(cs)| <= MAX_TRACKED ==> ToSet(Tracked(cs)) == ToSet(cs)
    ensures |Tracked(cs)| < MAX_TRACKED ==> ToSet(Tracked(cs)) == ToSet(cs)
  {
    if cs != [] {
      var n := |cs| - 1;
      var rest, s := cs[..n], cs[n];
      TrackedShape(rest);
      assert cs == rest + [s];
      TrackedStep(rest, s);
      assert ToSet(cs) == ToSet(rest) + {s};
      var t := Tracked(rest);
      if !(s in t || |t| >= MAX_TRACKED) {
        assert ToSet(t + [s]) == ToSet(t) + {s};
        assert s !in ToSet(t);
      } else if s !in t {
        assert ToSet(t) <= ToSet(rest);
        if s !in rest {
          assert |ToSet(rest)| >= |ToSet(t)| by { SubsetCard(ToSet(t), ToSet(rest)); }
        } else {
          assert ToSet(cs) == ToSet(rest);
        }
      }
    }
  }

  lemma {:induction false} SubsetCard(a: set<nat>, b: set<nat>)
    requires a <= b
    ensures |a| <= |b|
  {
    assert b == a + (b - a);
  }

  /** Exactly the sequences whose first commit record comes before 256 other distinct ones are
      in the table, and only those transactions are replayed. */
  lemma {:induction false} TrackedExactly(cs: seq<nat>, p: nat)
    requires p < |cs| && cs[p] !in cs[..p]
    ensures cs[p] in Tracked(cs) <==> |ToSet(cs[..p])| < MAX_TRACKED
    decreases |cs|
  {
    var n, s := |cs| - 1, cs[p];
    if p == n {
      TrackedShape(cs[..n]);
      assert cs == cs[..n] + [s];
      TrackedStep(cs[..n], s);
      if s in Tracked(cs[..n]) {
        TrackedBounded(cs[..n], s);
      }
      if |Tracked(cs[..n])| >= MAX_TRACKED {
        SubsetCard(ToSet(Tracked(cs[..n])), ToSet(cs[..n]));
      }
    } else {
      assert cs[..n][..p] == cs[..p] && cs == cs[..n] + [cs[n]];
      TrackedExactly(cs[..n], p);
      TrackedStep(cs[..n], cs[n]);
      if s !in Tracked(cs[..n]) && cs[n] == s {
        // the table was already full when the sequence first appeared, and it never shrinks
        TrackedGrows(cs[..p], cs[..n]);
        TrackedShape(cs[..p]);
        TrackedShape(cs[..n]);
      }
    }
  }

  lemma {:induction false} TrackedGrows(a: seq<nat>, b: seq<nat>)
    requires a <= b
    ensures Tracked(a) <= Tracked(b)
  {
    if |a| < |b| {
      var n := |b| - 1;
      TrackedGrows(a, b[..n]);
      assert b == b[..n] + [b[n]];
      TrackedStep(b[..n], b[n]);
    } else {
      assert a == b;
    }
  }

  /** The largest commit sequence: an upper bound of them all, and one of them. */
  lemma {:induction false} LargestIs(cs: seq<nat>)
    ensures forall i :: 0 <= i < |cs| ==> cs[i] <= Largest(cs)
    ensures cs != [] ==> exists i :: 0 <= i < |cs| && cs[i] == Largest(cs)
  {
    if cs != [] {
      var n := |cs| - 1;
      var front := cs[..n];
      LargestIs(front);
      forall i | 0 <= i < |cs| ensures cs[i] <= Largest(cs) {
        assert i < n ==> cs[i] == front[i];
      }
      assert front == [] ==> Largest(front) == 0;
      if cs[n] != Largest(cs) {
        var k :| 0 <= k < |front| && front[k] == Largest(front);
        assert cs[k] == Largest(cs);
      }
    }
  }

  // ---------------- one step at a time ----------------

  lemma KeptNil(job: Job, disk: seq<Block>)
    requires job.Ok()
    ensures Kept(job, disk, []) == []
  {
  }

  lemma {:induction false} KeptAppend(job: Job, disk: seq<Block>, a: seq<Entry>, b: seq<Entry>)
    requires job.Ok()
    ensures Kept(job, disk, a + b) == Kept(job, disk, a) + Kept(job, disk, b)
  {
    hide Revoked;
    if a == [] {
      assert a + b == b;
    } else {
      hide Kept;
      KeptAppend(job, disk, a[1..], b);
      assert (a + b)[0] == a[0] && (a + b)[1..] == a[1..] + b;
      KeptCons(job, disk, a);
      KeptCons(job, disk, a + b);
      Regroup(if Revoked(job, disk, job.cap, a[0].target) then [] else [a[0]], Kept(job, disk, a[1..]), Kept(job, disk, b));
    }
  }

  lemma KeptCons(job: Job, disk: seq<Block>, es: seq<Entry>)
    requires job.Ok() && es != []
    ensures Kept(job, disk, es)
         == (if Revoked(job, disk, job.cap, es[0].target) then [] else [es[0]]) + Kept(job, disk, es[1..])
  {
  }

  lemma KeptOne(job: Job, disk: seq<Block>, e: Entry)
    requires job.Ok()
    ensures Kept(job, disk, [e]) == if Revoked(job, disk, job.cap, e.target) then [] else [e]
  {
    hide Revoked;
    assert [e][1..] == [];
  }

  lemma JReadSize(job: Job, disk: seq<Block>, c: nat)
    requires job.Ok() && JobDisk(job, disk) && JRead(job, disk, c).Some?
    ensures |JRead(job, disk, c).value| == job.blockSize >= 16
  {
  }

  lemma TagsStep(job: Job, disk: seq<Block>, desc: Block, c: nat, off: nat)
    requires job.Ok() && |desc| == job.blockSize
    ensures var ts := Tags(job, disk, desc, c, off);
      if off + job.tagSize > job.blockSize || c >= job.cap then ts == []
      else
        var target, flags, content := GetBe32(desc, off), GetBe32(desc, off + 4), JRead(job, disk, c);
        if flags / 8 % 2 == 1 || target == 0 || content.None? || |content.value| < 4 then ts == []
        else ts == [Entry(target, Escaped(content.value, flags))] + Tags(job, disk, desc, c + 1, off + job.tagSize)
  {
  }

  lemma LogStep(job: Job, disk: seq<Block>, table: seq<nat>, i: nat)
    requires job.Ok()
    ensures i >= job.cap ==> LogFrom(job, disk, table, i) == []
    ensures var es := EntriesAt(job, disk, table, i);
      i < job.cap ==> LogFrom(job, disk, table, i) == es + LogFrom(job, disk, table, i + 1 + |es|)
  {
    hide EntriesAt, Job.Ok;
  }
}
