/** What a recovery must leave on the disk, said over the journal's bytes and without the code's own steps:
    which tags count, where each content comes from, and that the last one to a block wins. */
module JournalBytes {
  import opened Bytes
  import opened Extents
  import opened JournalLog

  // ---------------- records ----------------

  /** The big-endian word at `off`. */
  function Word(b: Block, off: nat): nat
    requires off + 4 <= |b|
  {
    0x100_0000 * b[off] as int + 0x1_0000 * b[off + 1] as int + 0x100 * b[off + 2] as int + b[off + 3] as int
  }

  /** Journal block `i` is mapped to a block of the disk. */
  predicate Readable(job: Job, disk: seq<Block>, i: nat)
    requires job.Ok()
  {
    0 < Lookup(job.root, i) < |disk|
  }

  function JBlock(job: Job, disk: seq<Block>, i: nat): (b: Block)
    requires job.Ok() && JobDisk(job, disk) && Readable(job, disk, i)
    ensures |b| == job.blockSize
  {
    disk[Lookup(job.root, i)]
  }

  lemma JReadIs(job: Job, disk: seq<Block>, i: nat)
    requires job.Ok() && JobDisk(job, disk)
    ensures JRead(job, disk, i).Some? <==> Readable(job, disk, i)
    ensures Readable(job, disk, i) ==> JRead(job, disk, i).value == JBlock(job, disk, i)
  {
    hide Lookup;
  }

  /** A descriptor is of kind 1, a revoke record 2, a commit record 3. */
  predicate Record(job: Job, disk: seq<Block>, i: nat, kind: nat)
    requires job.Ok() && JobDisk(job, disk)
  {
    Readable(job, disk, i) &&
    var b := JBlock(job, disk, i);
    b[0] == 0xC0 && b[1] == 0x3B && b[2] == 0x39 && b[3] == 0x98 && Word(b, 4) == kind
  }

  function Sequence(job: Job, disk: seq<Block>, i: nat): nat
    requires job.Ok() && JobDisk(job, disk) && Readable(job, disk, i)
  {
    Word(JBlock(job, disk, i), 8)
  }

  lemma MagicBytes(b: Block)
    requires 4 <= |b|
    ensures GetBe32(b, 0) == J_MAGIC <==> b[0] == 0xC0 && b[1] == 0x3B && b[2] == 0x39 && b[3] == 0x98
  {
  }

  lemma RecordIs(job: Job, disk: seq<Block>, i: nat, kind: nat)
    requires job.Ok() && JobDisk(job, disk)
    ensures Record(job, disk, i, kind) <==> IsRecord(job, disk, i, kind)
    ensures Record(job, disk, i, kind) ==> Sequence(job, disk, i) == SeqOf(job, disk, i)
    ensures Record(job, disk, i, kind) ==> JRead(job, disk, i) == Some(JBlock(job, disk, i))
  {
    hide JRead, JBlock, Lookup;
    JReadIs(job, disk, i);
    if Readable(job, disk, i) {
      MagicBytes(JBlock(job, disk, i));
    }
  }

  // ---------------- which transactions are remembered ----------------

  ghost function CommitSeqs(job: Job, disk: seq<Block>, n: nat): set<nat>
    requires job.Ok() && JobDisk(job, disk)
  {
    set i | job.first <= i < n && Record(job, disk, i, 3) :: Sequence(job, disk, i)
  }

  /** The first commit record of sequence `s` is at `p`, and fewer than 256 distinct sequences commit before it. */
  ghost predicate CommitsEarly(job: Job, disk: seq<Block>, p: nat, s: nat)
    requires job.Ok() && JobDisk(job, disk)
  {
    && job.first <= p && Record(job, disk, p, 3) && Sequence(job, disk, p) == s
    && s !in CommitSeqs(job, disk, p) && |CommitSeqs(job, disk, p)| < 256
  }

  ghost predicate Remembered(job: Job, disk: seq<Block>, n: nat, s: nat)
    requires job.Ok() && JobDisk(job, disk)
  {
    exists p :: 0 <= p < n && CommitsEarly(job, disk, p, s)
  }

  lemma CommitSeqsStep(job: Job, disk: seq<Block>, n: nat)
    requires job.Ok() && JobDisk(job, disk) && n >= job.first
    ensures CommitSeqs(job, disk, n + 1)
         == CommitSeqs(job, disk, n) + (if Record(job, disk, n, 3) then {Sequence(job, disk, n)} else {})
  {
    hide Record, Sequence;
  }

  lemma {:induction false} CommitsAre(job: Job, disk: seq<Block>, n: nat)
    requires job.Ok() && JobDisk(job, disk)
    ensures ToSet(Commits(job, disk, n)) == CommitSeqs(job, disk, n)
  {
    hide IsRecord, Record, SeqOf, Sequence;
    if n > job.first {
      CommitsAre(job, disk, n - 1);
      CommitSeqsStep(job, disk, n - 1);
      RecordIs(job, disk, n - 1, 3);
    }
  }

  /** The table holds exactly the remembered sequences. */
  lemma {:induction false} TableIs(job: Job, disk: seq<Block>, n: nat, s: nat)
    requires job.Ok() && JobDisk(job, disk)
    ensures s in Tracked(Commits(job, disk, n)) <==> Remembered(job, disk, n, s)
  {
    hide IsRecord, Record, SeqOf, Sequence, Tracked, CommitSeqs;
    if n <= job.first {
      NoneTracked(job, disk, n);
    } else {
      TableIs(job, disk, n - 1, s);
      RecordIs(job, disk, n - 1, 3);
      CommitsAre(job, disk, n - 1);
      var cs := Commits(job, disk, n - 1);
      TrackedShape(cs);
      RememberedStep(job, disk, n - 1, s);
      if Record(job, disk, n - 1, 3) {
        TrackedStep(cs, Sequence(job, disk, n - 1));
      } else {
        assert cs + [] == cs;
      }
    }
  }

  lemma NoneTracked(job: Job, disk: seq<Block>, n: nat)
    requires job.Ok() && n <= job.first
    ensures Tracked(Commits(job, disk, n)) == []
  {
  }

  lemma RememberedStep(job: Job, disk: seq<Block>, n: nat, s: nat)
    requires job.Ok() && JobDisk(job, disk)
    ensures Remembered(job, disk, n + 1, s) <==> Remembered(job, disk, n, s) || CommitsEarly(job, disk, n, s)
  {
    hide CommitsEarly;
  }

  // ---------------- which blocks are revoked ----------------

  /** The revoke record at `i` lists `b` as its word `k`, within the bytes it declares (little-endian, at 12). */
  ghost predicate RevokesAt(job: Job, disk: seq<Block>, i: nat, k: nat, b: nat)
    requires job.Ok() && JobDisk(job, disk)
  {
    Record(job, disk, i, 2) &&
    var r := JBlock(job, disk, i);
    var used := r[12] as int + 0x100 * r[13] as int + 0x1_0000 * r[14] as int + 0x100_0000 * r[15] as int;
    used <= job.blockSize && 20 + 4 * k <= used && Word(r, 16 + 4 * k) == b
  }

  ghost predicate RevokedByLog(job: Job, disk: seq<Block>, b: nat)
    requires job.Ok() && JobDisk(job, disk)
  {
    exists i, k :: job.first <= i < job.cap && 0 <= k && RevokesAt(job, disk, i, k, b)
  }

  lemma RevokesAtIs(job: Job, disk: seq<Block>, i: nat, b: nat)
    requires job.Ok() && JobDisk(job, disk)
    ensures RevokedAt(job, disk, i, b) <==> exists k :: 0 <= k && RevokesAt(job, disk, i, k, b)
  {
    hide JRead, JBlock, Lookup, IsRecord, Record;
    RecordIs(job, disk, i, 2);
    JReadIs(job, disk, i);
    if RevokedAt(job, disk, i, b) {
      var r := JBlock(job, disk, i);
      var k :| 0 <= k && 20 + 4 * k <= Get32(r, 12) && WordAt(r, k) == b;
      assert RevokesAt(job, disk, i, k, b);
    }
    if k :| 0 <= k && RevokesAt(job, disk, i, k, b) {
      assert WordAt(JBlock(job, disk, i), k) == b;
    }
  }

  lemma RevokedIs(job: Job, disk: seq<Block>, b: nat)
    requires job.Ok() && JobDisk(job, disk)
    ensures Revoked(job, disk, job.cap, b) <==> RevokedByLog(job, disk, b)
  {
    hide RevokedAt, RevokesAt;
    if Revoked(job, disk, job.cap, b) {
      var i :| job.first <= i < job.cap && RevokedAt(job, disk, i, b);
      RevokesAtIs(job, disk, i, b);
      var k :| 0 <= k && RevokesAt(job, disk, i, k, b);
    }
    if RevokedByLog(job, disk, b) {
      var i, k :| job.first <= i < job.cap && 0 <= k && RevokesAt(job, disk, i, k, b);
      RevokesAtIs(job, disk, i, b);
    }
  }

  // ---------------- tags ----------------

  /** Where tag `k` of a descriptor starts. */
  function TagOff(job: Job, k: nat): nat { 12 + (if job.tagSize == 16 then 16 * k else 12 * k) }

  function Target(job: Job, desc: Block, k: nat): nat
    requires TagOff(job, k) + 4 <= |desc|
  {
    Word(desc, TagOff(job, k))
  }

  function Flags(job: Job, desc: Block, k: nat): nat
    requires TagOff(job, k) + 8 <= |desc|
  {
    Word(desc, TagOff(job, k) + 4)
  }

  /** Tag `k` of the descriptor `desc` at journal block `i` can be applied: it lies in the descriptor, does not
      carry the LAST flag (bit 3), has a target, and its content, `k` blocks on, is in the log. */
  predicate Usable(job: Job, disk: seq<Block>, desc: Block, i: nat, k: nat)
    requires job.Ok() && |desc| == job.blockSize
  {
    && TagOff(job, k) + job.tagSize <= job.blockSize && i + 1 + k < job.cap && Readable(job, disk, i + 1 + k)
    && Flags(job, desc, k) / 8 % 2 == 0 && Target(job, desc, k) != 0
  }

  /** Tag `k` and all before it can. */
  ghost predicate UsableTo(job: Job, disk: seq<Block>, desc: Block, i: nat, k: nat)
    requires job.Ok() && |desc| == job.blockSize
  {
    forall j :: 0 <= j <= k ==> Usable(job, disk, desc, i, j)
  }

  /** The content of tag `k`: journal block `i` + 1 + `k`, byte for byte, but for the magic number put back into
      its first four bytes when bit 0 of the flags asks for it. */
  ghost predicate ContentIs(job: Job, disk: seq<Block>, desc: Block, i: nat, k: nat, content: Block)
    requires job.Ok() && JobDisk(job, disk) && |desc| == job.blockSize && Usable(job, disk, desc, i, k)
  {
    var from := JBlock(job, disk, i + 1 + k);
    && |content| == |from| && (forall x :: 4 <= x < |from| ==> content[x] == from[x])
    && (if Flags(job, desc, k) % 2 == 1
        then content[0] == 0xC0 && content[1] == 0x3B && content[2] == 0x39 && content[3] == 0x98
        else content[0] == from[0] && content[1] == from[1] && content[2] == from[2] && content[3] == from[3])
  }

  /** `e` is what tag `k` asks for. */
  ghost predicate TagIs(job: Job, disk: seq<Block>, desc: Block, i: nat, k: nat, e: Entry)
    requires job.Ok() && JobDisk(job, disk) && |desc| == job.blockSize
  {
    Usable(job, disk, desc, i, k) && e.target == Target(job, desc, k) && ContentIs(job, disk, desc, i, k, e.content)
  }

  lemma OneTag(job: Job, disk: seq<Block>, desc: Block, i: nat, k: nat)
    requires job.Ok() && JobDisk(job, disk) && |desc| == job.blockSize
    ensures var ts := Tags(job, disk, desc, i + 1 + k, TagOff(job, k));
      if Usable(job, disk, desc, i, k)
      then ts != [] && TagIs(job, disk, desc, i, k, ts[0]) && ts[1..] == Tags(job, disk, desc, i + 2 + k, TagOff(job, k + 1))
      else ts == []
  {
    hide JRead, JBlock, Lookup, Readable, Tags;
    TagsStep(job, disk, desc, i + 1 + k, TagOff(job, k));
    JReadIs(job, disk, i + 1 + k);
  }

  /** The tags of a descriptor from tag `k` on are the usable ones, up to the first that is not. */
  lemma {:induction false} TagsAre(job: Job, disk: seq<Block>, desc: Block, i: nat, k: nat, j: nat)
    requires job.Ok() && JobDisk(job, disk) && |desc| == job.blockSize && k <= j
    requires k > 0 ==> UsableTo(job, disk, desc, i, k - 1)
    ensures var ts := Tags(job, disk, desc, i + 1 + k, TagOff(job, k));
      && (j - k < |ts| <==> UsableTo(job, disk, desc, i, j))
      && (j - k < |ts| ==> TagIs(job, disk, desc, i, j, ts[j - k]))
    decreases j - k
  {
    hide Usable, TagIs, Tags, TagOff;
    OneTag(job, disk, desc, i, k);
    if Usable(job, disk, desc, i, k) && k < j {
      TagsAre(job, disk, desc, i, k + 1, j);
    }
  }

  // ---------------- the scan ----------------

  /** Tag `k` of the journal block at `i` is applied: the block is a descriptor of a remembered transaction,
      and no tag up to `k` stops the loop. */
  ghost predicate Applied(job: Job, disk: seq<Block>, i: nat, k: nat)
    requires job.Ok() && JobDisk(job, disk)
  {
    && Record(job, disk, i, 1) && Remembered(job, disk, job.cap, Sequence(job, disk, i))
    && UsableTo(job, disk, JBlock(job, disk, i), i, k)
  }

  /** Exactly the first `n` tags at `i` are applied. */
  ghost predicate TagCount(job: Job, disk: seq<Block>, i: nat, n: nat)
    requires job.Ok() && JobDisk(job, disk)
  {
    !Applied(job, disk, i, n) && forall k :: 0 <= k < n ==> Applied(job, disk, i, k)
  }

  /** The scan looks at journal block `i`: the first one, or the one behind the contents of one it looks at. */
  ghost predicate Scanned(job: Job, disk: seq<Block>, i: nat)
    requires job.Ok() && JobDisk(job, disk)
    decreases i
  {
    i == job.first || exists j, n :: job.first <= j < i && Follows(job, disk, j, n, i) && Scanned(job, disk, j)
  }

  ghost predicate Follows(job: Job, disk: seq<Block>, j: nat, n: nat, i: nat)
    requires job.Ok() && JobDisk(job, disk)
  {
    TagCount(job, disk, j, n) && i == j + 1 + n
  }

  lemma AppliedBefore(job: Job, disk: seq<Block>, i: nat, k: nat, j: nat)
    requires job.Ok() && JobDisk(job, disk) && Applied(job, disk, i, k) && j <= k
    ensures Applied(job, disk, i, j)
  {
    hide Record, Remembered, Usable, JBlock;
  }

  lemma CountUnique(job: Job, disk: seq<Block>, i: nat, n: nat, m: nat)
    requires job.Ok() && JobDisk(job, disk) && TagCount(job, disk, i, n) && TagCount(job, disk, i, m)
    ensures n == m
  {
    hide Applied;
  }

  /** What the log function makes of block `i`. */
  lemma EntriesAre(job: Job, disk: seq<Block>, i: nat)
    requires job.Ok() && JobDisk(job, disk)
    ensures var es := EntriesAt(job, disk, Tracked(Commits(job, disk, job.cap)), i);
      && TagCount(job, disk, i, |es|)
      && forall k :: 0 <= k < |es| ==> EntryIs(job, disk, i, k, es[k])
  {
    hide JRead, JBlock, Lookup, IsRecord, Remembered, Usable, TagIs, Tags, SeqOf, Sequence, Tracked, Commits, Word;
    var es := EntriesAt(job, disk, Tracked(Commits(job, disk, job.cap)), i);
    RecordIs(job, disk, i, 1);
    if Record(job, disk, i, 1) {
      TableIs(job, disk, job.cap, Sequence(job, disk, i));
      if Remembered(job, disk, job.cap, Sequence(job, disk, i)) {
        forall k: nat ensures k < |es| <==> Applied(job, disk, i, k)
                      ensures k < |es| ==> EntryIs(job, disk, i, k, es[k])
        {
          TagsAre(job, disk, JBlock(job, disk, i), i, 0, k);
        }
      }
    }
  }

  /** `e` is what tag `k` of the descriptor at `i` asks for. */
  ghost predicate EntryIs(job: Job, disk: seq<Block>, i: nat, k: nat, e: Entry)
    requires job.Ok() && JobDisk(job, disk)
  {
    Applied(job, disk, i, k) && TagIs(job, disk, JBlock(job, disk, i), i, k, e)
  }

  /** The scan never looks inside a descriptor's contents. */
  lemma {:induction false} ScanOrder(job: Job, disk: seq<Block>, i: nat, n: nat, p: nat)
    requires job.Ok() && JobDisk(job, disk) && Scanned(job, disk, i) && Scanned(job, disk, p) && i < p
    requires i >= job.first && TagCount(job, disk, i, n)
    ensures p >= i + 1 + n
    decreases p
  {
    hide TagCount;
    var j, m :| job.first <= j < p && Follows(job, disk, j, m, p) && Scanned(job, disk, j);
    if j < i {
      ScanOrder(job, disk, j, m, i);
    } else if j == i {
      CountUnique(job, disk, i, n, m);
    } else {
      ScanOrder(job, disk, i, n, j);
    }
  }

  // ---------------- the last tag to a block ----------------

  /** Tag `k` at `i` is applied in the course of the scan, to block `b`. */
  ghost predicate GoesTo(job: Job, disk: seq<Block>, i: nat, k: nat, b: nat)
    requires job.Ok() && JobDisk(job, disk)
  {
    i >= job.first && Scanned(job, disk, i) && Applied(job, disk, i, k) && TagTarget(job, disk, i, k) == b
  }

  ghost function TagTarget(job: Job, disk: seq<Block>, i: nat, k: nat): nat
    requires job.Ok() && JobDisk(job, disk) && Applied(job, disk, i, k)
  {
    assert Usable(job, disk, JBlock(job, disk, i), i, k);
    Target(job, JBlock(job, disk, i), k)
  }

  /** Tag `j` at `q` comes after tag `k` at `i`. */
  predicate Later(q: nat, j: nat, i: nat, k: nat) { q > i || (q == i && j > k) }

  ghost predicate LastAt(es: seq<Entry>, x: nat, b: nat) {
    x < |es| && es[x].target == b && forall y :: x < y < |es| ==> es[y].target != b
  }

  lemma {:induction false} LastIndex(es: seq<Entry>, b: nat) returns (x: int)
    ensures if x < 0 then forall y :: 0 <= y < |es| ==> es[y].target != b else LastAt(es, x, b)
  {
    x := |es| - 1;
    while x >= 0 && es[x].target != b
      invariant -1 <= x < |es| && forall y :: x < y < |es| ==> es[y].target != b
    {
      x := x - 1;
    }
  }

  lemma AppliedInside(job: Job, disk: seq<Block>, i: nat, k: nat)
    requires job.Ok() && JobDisk(job, disk) && Applied(job, disk, i, k)
    ensures i < job.cap
  {
    assert Usable(job, disk, JBlock(job, disk, i), i, 0);
  }

  /** The same block `i`, as tags and as entries. */
  lemma GoesToHere(job: Job, disk: seq<Block>, i: nat, k: nat, b: nat)
    requires job.Ok() && JobDisk(job, disk) && i >= job.first && Scanned(job, disk, i)
    ensures var es := EntriesAt(job, disk, Tracked(Commits(job, disk, job.cap)), i);
      && (GoesTo(job, disk, i, k, b) <==> k < |es| && es[k].target == b)
      && (k < |es| ==> EntryIs(job, disk, i, k, es[k]))
  {
    hide EntriesAt, Tracked, Commits, Scanned, ContentIs, Usable, Record, JBlock, UsableTo;
    EntriesAre(job, disk, i);
    var es := EntriesAt(job, disk, Tracked(Commits(job, disk, job.cap)), i);
    if Applied(job, disk, i, k) {
      if k >= |es| {
        AppliedBefore(job, disk, i, k, |es|);
      }
    }
  }

  ghost predicate NoneFrom(job: Job, disk: seq<Block>, i: nat, b: nat)
    requires job.Ok() && JobDisk(job, disk)
  {
    forall q: nat, j: nat :: q >= i ==> !GoesTo(job, disk, q, j, b)
  }

  ghost predicate NoneAfter(job: Job, disk: seq<Block>, p: nat, k: nat, b: nat)
    requires job.Ok() && JobDisk(job, disk)
  {
    forall q: nat, j: nat :: Later(q, j, p, k) ==> !GoesTo(job, disk, q, j, b)
  }

  /** The log from a scanned block on, and the last tag to `b` in it. */
  lemma {:induction false} SuffixLast(job: Job, disk: seq<Block>, i: nat, b: nat) returns (x: int, p: nat, k: nat)
    requires job.Ok() && JobDisk(job, disk) && i >= job.first && Scanned(job, disk, i)
    ensures var es := LogFrom(job, disk, Tracked(Commits(job, disk, job.cap)), i);
      if x < 0 then (forall y :: 0 <= y < |es| ==> es[y].target != b) && NoneFrom(job, disk, i, b)
      else p >= i && LastAt(es, x, b) && GoesTo(job, disk, p, k, b) && EntryIs(job, disk, p, k, es[x])
           && NoneAfter(job, disk, p, k, b)
    decreases job.cap - i
  {
    hide EntriesAt, Tracked, Commits, LogFrom, GoesTo, EntryIs, Scanned, TagCount;
    var table := Tracked(Commits(job, disk, job.cap));
    LogStep(job, disk, table, i);
    x, p, k := -1, 0, 0;
    if i >= job.cap {
      NothingBehind(job, disk, i, b);
    } else {
      var es := EntriesAt(job, disk, table, i);
      var next := i + 1 + |es|;
      EntriesAre(job, disk, i);
      NextScanned(job, disk, i, |es|);
      var y;
      y, p, k := SuffixLast(job, disk, next, b);
      if y >= 0 {
        x := |es| + y;
      } else {
        x := LastIndex(es, b);
        p, k := i, if x < 0 then 0 else x;
        forall q: nat, j: nat | q >= i && (x < 0 || Later(q, j, i, x)) ensures !GoesTo(job, disk, q, j, b) {
          GoesToHere(job, disk, i, j, b);
          if q > i && GoesTo(job, disk, q, j, b) {
            NextBehind(job, disk, i, |es|, q, j, b);
          }
        }
        if x >= 0 {
          GoesToHere(job, disk, i, x, b);
        }
      }
    }
  }

  lemma NothingBehind(job: Job, disk: seq<Block>, i: nat, b: nat)
    requires job.Ok() && JobDisk(job, disk) && i >= job.cap
    ensures NoneFrom(job, disk, i, b)
  {
    hide Applied, Scanned;
    forall q: nat, j: nat | q >= i ensures !GoesTo(job, disk, q, j, b) {
      if GoesTo(job, disk, q, j, b) {
        AppliedInside(job, disk, q, j);
      }
    }
  }

  lemma NextScanned(job: Job, disk: seq<Block>, i: nat, n: nat)
    requires job.Ok() && JobDisk(job, disk) && i >= job.first && Scanned(job, disk, i) && TagCount(job, disk, i, n)
    ensures Scanned(job, disk, i + 1 + n)
  {
    hide TagCount;
    assert Follows(job, disk, i, n, i + 1 + n);
  }

  lemma NextBehind(job: Job, disk: seq<Block>, i: nat, n: nat, q: nat, j: nat, b: nat)
    requires job.Ok() && JobDisk(job, disk) && i >= job.first && Scanned(job, disk, i) && TagCount(job, disk, i, n)
    requires q > i && GoesTo(job, disk, q, j, b)
    ensures q >= i + 1 + n
  {
    hide Scanned, TagCount, Applied;
    ScanOrder(job, disk, i, n, q);
  }
}
