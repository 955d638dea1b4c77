/** Recovery as a list of atomic effects, and what a crash between any two of them leads to. */
module JournalCrash {
  import opened Bytes
  import opened Extents
  import opened JournalLog

  /** The medium: its blocks, and whether the superblock asks for recovery. */
  datatype Media = Media(disk: seq<Block>, recover: bool)

  /** What mounting knows: block size and count, and where the journal's inode lies. */
  datatype Env = Env(blockSize: nat, blocksCount: nat, inodeBlk: nat, inodeOff: nat, largeFile: bool)
  {
    predicate Ok() {
      1024 <= blockSize && inodeBlk < blocksCount && inodeOff + 128 <= blockSize
    }
  }

  ghost predicate MediaOk(env: Env, disk: seq<Block>) {
    env.Ok() && IsDisk(disk, env.blocksCount, env.blockSize)
  }

  function InodeAt(env: Env, disk: seq<Block>): (raw: seq<Byte>)
    requires env.Ok() && |disk| == env.blocksCount && |disk[env.inodeBlk]| == env.blockSize
    ensures |raw| == 128
  {
    disk[env.inodeBlk][env.inodeOff..env.inodeOff + 128]
  }

  /** The journal inode maps its blocks through an inline extent tree. */
  ghost predicate InlineJournal(env: Env, disk: seq<Block>)
    requires MediaOk(env, disk)
  {
    var root := InodeAt(env, disk)[40..100];
    LeafOk(root) && HasMagic(root) && Depth(root) == 0
  }

  /** The journal superblock's fields, and the inode's, make a recovery job or are turned down. */
  function JobFrom(env: Env, raw: seq<Byte>, jsb: Block): (r: Option<Job>)
    requires |raw| == 128 && LeafOk(raw[40..100]) && 1024 <= env.blockSize == |jsb|
    ensures r.Some? ==> r.value.Ok() && r.value.root == raw[40..100]
    ensures r.Some? ==> r.value.blockSize == env.blockSize && r.value.blocksCount == env.blocksCount
  {
    var size := Get32(raw, 4) + (if env.largeFile && Get16(raw, 0) / 0x1000 != 4 then U32 * Get32(raw, 108) else 0);
    var jblocks := size / env.blockSize;
    var maxlen, first, start := Get32(jsb, 16), Get32(jsb, 20), Get32(jsb, 24);
    if Get32(raw, 32) / 0x8_0000 % 2 == 0 then None
    else if Get32(jsb, 12) != env.blockSize || first < 2 || first >= jblocks || start >= jblocks then None
    else
      var cap := if maxlen != 0 && maxlen <= jblocks then maxlen else jblocks;
      Some(Job(raw[40..100], first, cap, if Get32(jsb, 36) / 2 % 2 == 1 then 16 else 12, env.blockSize, env.blocksCount))
  }

  /** The block holding the journal superblock. */
  function JsbBlock(env: Env, disk: seq<Block>): nat
    requires env.Ok() && |disk| == env.blocksCount && |disk[env.inodeBlk]| == env.blockSize
    requires LeafOk(InodeAt(env, disk)[40..100])
  {
    Lookup(InodeAt(env, disk)[40..100], 0)
  }

  ghost function FindJob(env: Env, disk: seq<Block>): (r: Option<Job>)
    requires MediaOk(env, disk) && InlineJournal(env, disk)
    ensures r.Some? ==> r.value.Ok() && JobDisk(r.value, disk) && r.value.root == InodeAt(env, disk)[40..100]
    ensures r.Some? ==> 0 < JsbBlock(env, disk) < |disk|
  {
    var j := JsbBlock(env, disk);
    if j == 0 || j >= |disk| then None else JobFrom(env, InodeAt(env, disk), disk[j])
  }

  /** The journal superblock as e4_journal_reset leaves it: emptied, with the next sequence. */
  function ResetJsb(jsb: Block, next: nat): (r: Block)
    requires 40 <= |jsb| && next < U32
    ensures |r| == |jsb|
  {
    Put32(Put32(jsb, 24, 0), 28, next)
  }

  ghost function NextSeq(job: Job, disk: seq<Block>): (n: nat)
    requires job.Ok()
    ensures n < U32
  {
    (Largest(Commits(job, disk, job.cap)) + 1) % U32
  }

  // ---------------- effects ----------------

  datatype Effect = Put(b: nat, content: Block) | ClearRecover

  ghost function Puts(es: seq<Entry>): (r: seq<Effect>)
    ensures |r| == |es| && forall k :: 0 <= k < |es| ==> r[k] == Put(es[k].target, es[k].content)
  {
    seq(|es|, k requires 0 <= k < |es| => Put(es[k].target, es[k].content))
  }

  /** Everything one recovery writes, in order: the replayed blocks, the emptied journal
      superblock, and last the superblock without its recovery flag. */
  ghost function Effects(env: Env, m: Media): (r: seq<Effect>)
    requires MediaOk(env, m.disk) && InlineJournal(env, m.disk)
  {
    if !m.recover || FindJob(env, m.disk).None? then []
    else
      var job, j := FindJob(env, m.disk).value, JsbBlock(env, m.disk);
      Puts(Writes(job, m.disk)) + [Put(j, ResetJsb(m.disk[j], NextSeq(job, m.disk))), ClearRecover]
  }

  ghost function Do(m: Media, e: Effect): Media {
    match e
    case Put(b, content) => if b < |m.disk| then m.(disk := m.disk[b := content]) else m
    case ClearRecover => m.(recover := false)
  }

  ghost function DoAll(m: Media, es: seq<Effect>): Media {
    if es == [] then m else Do(DoAll(m, es[..|es| - 1]), es[|es| - 1])
  }

  /** One uninterrupted recovery. */
  ghost function Recover(env: Env, m: Media): Media
    requires MediaOk(env, m.disk) && InlineJournal(env, m.disk)
  {
    DoAll(m, Effects(env, m))
  }

  // ---------------- the last write to each block wins ----------------

  ghost predicate WritesTo(es: seq<Effect>, b: nat) {
    exists k :: 0 <= k < |es| && es[k].Put? && es[k].b == b
  }

  /** The contents the effects leave in block `b` when they write it at all. */
  ghost function LastPut(es: seq<Effect>, b: nat): (r: Block)
    requires WritesTo(es, b)
  {
    var n := |es| - 1;
    if es[n].Put? && es[n].b == b then es[n].content
    else
      var k :| 0 <= k < |es| && es[k].Put? && es[k].b == b;
      assert es[..n][k] == es[k];
      LastPut(es[..n], b)
  }

  lemma {:induction false} DoAllIs(m: Media, es: seq<Effect>, b: nat)
    requires b < |m.disk|
    ensures |DoAll(m, es).disk| == |m.disk|
    ensures DoAll(m, es).disk[b] == if WritesTo(es, b) then LastPut(es, b) else m.disk[b]
    ensures DoAll(m, es).recover == (m.recover && ClearRecover !in es)
  {
    if es != [] {
      var n := |es| - 1;
      DoAllIs(m, es[..n], b);
      assert es == es[..n] + [es[n]];
      if WritesTo(es[..n], b) {
        var k :| 0 <= k < |es[..n]| && es[..n][k].Put? && es[..n][k].b == b;
        assert es[k].Put? && es[k].b == b;
      }
      if WritesTo(es, b) && !(es[n].Put? && es[n].b == b) {
        var k :| 0 <= k < |es| && es[k].Put? && es[k].b == b;
        assert es[..n][k] == es[k];
      }
    }
  }

  /** Repeating a list of effects after any part of it ends where the list alone ends. */
  lemma Absorbed(m: Media, es: seq<Effect>, k: nat)
    requires k <= |es|
    ensures DoAll(DoAll(m, es[..k]), es) == DoAll(m, es)
  {
    hide LastPut;
    var a, b := DoAll(DoAll(m, es[..k]), es), DoAll(m, es);
    SameLength(m, es[..k]);
    SameLength(m, es);
    SameLength(DoAll(m, es[..k]), es);
    forall x | 0 <= x < |m.disk| ensures a.disk[x] == b.disk[x] {
      DoAllIs(m, es, x);
      DoAllIs(m, es[..k], x);
      DoAllIs(DoAll(m, es[..k]), es, x);
      if WritesTo(es[..k], x) {
        var i :| 0 <= i < |es[..k]| && es[..k][i].Put? && es[..k][i].b == x;
        assert es[i].Put? && es[i].b == x;
      }
    }
  }

  lemma {:induction false} SameLength(m: Media, es: seq<Effect>)
    ensures |DoAll(m, es).disk| == |m.disk|
    ensures DoAll(m, es).recover == (m.recover && ClearRecover !in es)
  {
    if es != [] {
      var n := |es| - 1;
      SameLength(m, es[..n]);
      assert es == es[..n] + [es[n]];
    }
  }

  // ---------------- a disk with the same journal replays the same way ----------------

  /** The two disks agree on every journal block from the first log block on. */
  ghost predicate SameLog(job: Job, a: seq<Block>, b: seq<Block>)
    requires job.Ok()
  {
    forall i: nat :: i >= job.first ==> JRead(job, a, i) == JRead(job, b, i)
  }

  lemma {:induction false} SameCommits(job: Job, a: seq<Block>, b: seq<Block>, n: nat)
    requires job.Ok() && SameLog(job, a, b)
    ensures Commits(job, a, n) == Commits(job, b, n)
  {
    hide JRead;
    if n > job.first {
      SameCommits(job, a, b, n - 1);
      assert JRead(job, a, n - 1) == JRead(job, b, n - 1);
    }
  }

  lemma SameRevoked(job: Job, a: seq<Block>, b: seq<Block>, x: nat)
    requires job.Ok() && SameLog(job, a, b)
    ensures Revoked(job, a, job.cap, x) == Revoked(job, b, job.cap, x)
  {
    hide JRead, Lists;
    forall i: nat | i >= job.first ensures RevokedAt(job, a, i, x) == RevokedAt(job, b, i, x) {
      assert JRead(job, a, i) == JRead(job, b, i);
    }
  }

  lemma {:induction false} SameTags(job: Job, a: seq<Block>, b: seq<Block>, desc: Block, c: nat, off: nat)
    requires job.Ok() && SameLog(job, a, b) && |desc| == job.blockSize && c >= job.first
    ensures Tags(job, a, desc, c, off) == Tags(job, b, desc, c, off)
    decreases job.blockSize - off
  {
    hide JRead;
    if off + job.tagSize <= job.blockSize && c < job.cap {
      assert JRead(job, a, c) == JRead(job, b, c);
      SameTags(job, a, b, desc, c + 1, off + job.tagSize);
    }
  }

  lemma SameEntries(job: Job, a: seq<Block>, b: seq<Block>, table: seq<nat>, i: nat)
    requires job.Ok() && SameLog(job, a, b) && i >= job.first
    ensures EntriesAt(job, a, table, i) == EntriesAt(job, b, table, i)
  {
    hide JRead, Tags;
    assert JRead(job, a, i) == JRead(job, b, i);
    if IsRecord(job, a, i, JT_DESC) && |JRead(job, a, i).value| == job.blockSize {
      SameTags(job, a, b, JRead(job, a, i).value, i + 1, 12);
    }
  }

  lemma {:induction false} SameLogFrom(job: Job, a: seq<Block>, b: seq<Block>, table: seq<nat>, i: nat)
    requires job.Ok() && SameLog(job, a, b) && i >= job.first
    ensures LogFrom(job, a, table, i) == LogFrom(job, b, table, i)
    decreases job.cap - i
  {
    hide EntriesAt, SameLog;
    if i < job.cap {
      SameEntries(job, a, b, table, i);
      SameLogFrom(job, a, b, table, i + 1 + |EntriesAt(job, a, table, i)|);
    }
  }

  lemma {:induction false} SameKept(job: Job, a: seq<Block>, b: seq<Block>, es: seq<Entry>)
    requires job.Ok() && SameLog(job, a, b)
    ensures Kept(job, a, es) == Kept(job, b, es)
  {
    hide Revoked, SameLog;
    if es != [] {
      SameRevoked(job, a, b, es[0].target);
      SameKept(job, a, b, es[1..]);
    }
  }

  lemma SameWrites(job: Job, a: seq<Block>, b: seq<Block>)
    requires job.Ok() && SameLog(job, a, b)
    ensures Log(job, a) == Log(job, b) && Writes(job, a) == Writes(job, b) && NextSeq(job, a) == NextSeq(job, b)
  {
    hide LogFrom, Kept, Commits, SameLog;
    SameCommits(job, a, b, job.cap);
    SameLogFrom(job, a, b, Tracked(Commits(job, a, job.cap)), job.first);
    SameKept(job, a, b, Log(job, a));
  }

  // ---------------- targets away from the journal ----------------

  /** A block recovery may write: on the disk, and neither the superblock's block, nor the journal
      inode's block, nor a journal block. */
  ghost predicate Outside(env: Env, root: seq<Byte>, b: nat)
    requires LeafOk(root)
  {
    b < env.blocksCount && b != SuperBlockAt(env.blockSize) && b != env.inodeBlk && forall i: nat :: Lookup(root, i) != b
  }

  /** The log's tags stay outside, and the journal superblock's block is its own. */
  ghost predicate Safe(env: Env, disk: seq<Block>)
    requires MediaOk(env, disk) && InlineJournal(env, disk)
  {
    FindJob(env, disk).Some? ==>
      var job, j := FindJob(env, disk).value, JsbBlock(env, disk);
      && (forall k :: 0 <= k < |Log(job, disk)| ==> Outside(env, job.root, Log(job, disk)[k].target))
      && j != env.inodeBlk && (forall i: nat :: i >= job.first ==> Lookup(job.root, i) != j)
  }

  lemma {:induction false} KeptFromLog(job: Job, disk: seq<Block>, es: seq<Entry>, k: nat)
    requires job.Ok() && k < |Kept(job, disk, es)|
    ensures Kept(job, disk, es)[k] in es && !Revoked(job, disk, job.cap, Kept(job, disk, es)[k].target)
  {
    hide Revoked;
    var skip := Revoked(job, disk, job.cap, es[0].target);
    if skip {
      KeptFromLog(job, disk, es[1..], k);
    } else if k > 0 {
      KeptFromLog(job, disk, es[1..], k - 1);
    }
  }

  lemma {:induction false} TagContents(job: Job, disk: seq<Block>, desc: Block, c: nat, off: nat, k: nat)
    requires job.Ok() && JobDisk(job, disk) && |desc| == job.blockSize && k < |Tags(job, disk, desc, c, off)|
    ensures |Tags(job, disk, desc, c, off)[k].content| == job.blockSize
    decreases k
  {
    if k > 0 {
      TagContents(job, disk, desc, c + 1, off + job.tagSize, k - 1);
    }
  }

  lemma {:induction false} LogContents(job: Job, disk: seq<Block>, table: seq<nat>, i: nat, k: nat)
    requires job.Ok() && JobDisk(job, disk) && k < |LogFrom(job, disk, table, i)|
    ensures |LogFrom(job, disk, table, i)[k].content| == job.blockSize
    decreases job.cap - i
  {
    hide Tags;
    var es := EntriesAt(job, disk, table, i);
    if k < |es| {
      TagContents(job, disk, JRead(job, disk, i).value, i + 1, 12, k);
    } else {
      LogContents(job, disk, table, i + 1 + |es|, k - |es|);
    }
  }

  /** What each write of a recovery looks like. */
  lemma WriteIs(env: Env, disk: seq<Block>, k: nat)
    requires MediaOk(env, disk) && InlineJournal(env, disk) && Safe(env, disk) && FindJob(env, disk).Some?
    requires k < |Writes(FindJob(env, disk).value, disk)|
    ensures var job := FindJob(env, disk).value; var w := Writes(job, disk)[k];
      Outside(env, job.root, w.target) && |w.content| == env.blockSize
  {
    hide LogFrom, Kept, JRead, JobFrom, Outside;
    var job := FindJob(env, disk).value;
    KeptFromLog(job, disk, Log(job, disk), k);
    var i :| 0 <= i < |Log(job, disk)| && Log(job, disk)[i] == Writes(job, disk)[k];
    LogContents(job, disk, Tracked(Commits(job, disk, job.cap)), job.first, i);
  }

  // ---------------- crashes ----------------

  /** The medium after a crash that lets the first `k` effects through. */
  ghost function Crashed(env: Env, m: Media, k: nat): Media
    requires MediaOk(env, m.disk) && InlineJournal(env, m.disk) && k <= |Effects(env, m)|
  {
    DoAll(m, Effects(env, m)[..k])
  }

  /** A crash leaves the journal's inode and log alone; the journal superblock is old or reset. */
  lemma CrashKeepsJournal(env: Env, m: Media, k: nat)
    requires MediaOk(env, m.disk) && InlineJournal(env, m.disk) && Safe(env, m.disk)
    requires m.recover && FindJob(env, m.disk).Some? && k <= |Effects(env, m)|
    ensures var c, job, j := Crashed(env, m, k), FindJob(env, m.disk).value, JsbBlock(env, m.disk);
      && |c.disk| == |m.disk| && c.disk[env.inodeBlk] == m.disk[env.inodeBlk] && SameLog(job, m.disk, c.disk)
      && (c.disk[j] == m.disk[j] || c.disk[j] == ResetJsb(m.disk[j], NextSeq(job, m.disk)))
  {
    hide Writes, NextSeq, ResetJsb, LastPut, JobFrom, Lookup;
    var job, j, es := FindJob(env, m.disk).value, JsbBlock(env, m.disk), Effects(env, m);
    var c := Crashed(env, m, k);
    SameLength(m, es[..k]);
    var w := |Writes(job, m.disk)|;
    forall i | 0 <= i < w ensures es[i].Put? && Outside(env, job.root, es[i].b) {
      WriteIs(env, m.disk, i);
    }
    DoAllIs(m, es[..k], env.inodeBlk);
    forall i: nat | i >= job.first ensures JRead(job, c.disk, i) == JRead(job, m.disk, i) {
      var phys := Lookup(job.root, i);
      if phys < |m.disk| {
        DoAllIs(m, es[..k], phys);
      }
    }
    JsbOldOrReset(env, m, k);
  }

  lemma JsbOldOrReset(env: Env, m: Media, k: nat)
    requires MediaOk(env, m.disk) && InlineJournal(env, m.disk) && Safe(env, m.disk)
    requires m.recover && FindJob(env, m.disk).Some? && k <= |Effects(env, m)|
    ensures var c, job, j := Crashed(env, m, k), FindJob(env, m.disk).value, JsbBlock(env, m.disk);
      |c.disk| == |m.disk| && (c.disk[j] == m.disk[j] || c.disk[j] == ResetJsb(m.disk[j], NextSeq(job, m.disk)))
  {
    hide Writes, NextSeq, ResetJsb, JobFrom, Lookup;
    var job, j, es := FindJob(env, m.disk).value, JsbBlock(env, m.disk), Effects(env, m);
    SameLength(m, es[..k]);
    DoAllIs(m, es[..k], j);
    if WritesTo(es[..k], j) {
      var i := LastPutFrom(es[..k], j);
      if i < |Writes(job, m.disk)| {
        WriteIs(env, m.disk, i);
      }
    }
  }

  lemma {:induction false} LastPutFrom(es: seq<Effect>, b: nat) returns (i: nat)
    requires WritesTo(es, b)
    ensures i < |es| && es[i] == Put(b, LastPut(es, b))
  {
    var n := |es| - 1;
    if es[n].Put? && es[n].b == b {
      i := n;
    } else {
      var k :| 0 <= k < |es| && es[k].Put? && es[k].b == b;
      assert es[..n][k] == es[k];
      i := LastPutFrom(es[..n], b);
    }
  }

  lemma ResetTwice(jsb: Block, next: nat)
    requires 40 <= |jsb| && next < U32
    ensures ResetJsb(ResetJsb(jsb, next), next) == ResetJsb(jsb, next)
  {
    var a, b := ResetJsb(jsb, next), ResetJsb(ResetJsb(jsb, next), next);
    assert forall j :: 0 <= j < |a| ==> a[j] == b[j];
  }

  /** A reset journal superblock describes the same job. */
  lemma ResetSameJob(env: Env, raw: seq<Byte>, jsb: Block, next: nat)
    requires |raw| == 128 && LeafOk(raw[40..100]) && 1024 <= env.blockSize == |jsb| && next < U32
    requires JobFrom(env, raw, jsb).Some?
    ensures JobFrom(env, raw, ResetJsb(jsb, next)) == JobFrom(env, raw, jsb)
  {
    hide Put32;
    var a := Put32(jsb, 24, 0);
    var r := Put32(a, 28, next);
    assert Get32(r, 24) == Get32(a, 24) == 0;
    assert Get32(r, 12) == Get32(jsb, 12) && Get32(r, 16) == Get32(jsb, 16);
    assert Get32(r, 20) == Get32(jsb, 20) && Get32(r, 36) == Get32(jsb, 36);
  }

  lemma {:induction false} DoAllSizes(env: Env, m: Media, es: seq<Effect>)
    requires MediaOk(env, m.disk) && forall i :: 0 <= i < |es| && es[i].Put? ==> |es[i].content| == env.blockSize
    ensures MediaOk(env, DoAll(m, es).disk)
  {
    if es != [] {
      DoAllSizes(env, m, es[..|es| - 1]);
    }
  }

  lemma EffectSizes(env: Env, m: Media)
    requires MediaOk(env, m.disk) && InlineJournal(env, m.disk) && Safe(env, m.disk)
    ensures forall i :: 0 <= i < |Effects(env, m)| && Effects(env, m)[i].Put? ==>
              |Effects(env, m)[i].content| == env.blockSize
  {
    hide Writes, NextSeq, JobFrom, Lookup, Outside;
    var es := Effects(env, m);
    forall i | 0 <= i < |es| && es[i].Put? ensures |es[i].content| == env.blockSize {
      if i < |Writes(FindJob(env, m.disk).value, m.disk)| {
        WriteIs(env, m.disk, i);
      }
    }
  }

  /** A crashed medium has the same job to do, with the same effects, unless it was done already. */
  lemma CrashSameEffects(env: Env, m: Media, k: nat)
    requires MediaOk(env, m.disk) && InlineJournal(env, m.disk) && Safe(env, m.disk)
    requires m.recover && FindJob(env, m.disk).Some? && k < |Effects(env, m)|
    ensures var c := Crashed(env, m, k);
      && MediaOk(env, c.disk) && InlineJournal(env, c.disk) && Safe(env, c.disk)
      && c.recover && Effects(env, c) == Effects(env, m)
  {
    hide Writes, NextSeq, ResetJsb, JobFrom, Lookup, Log, Outside, SameLog;
    var job, j, es := FindJob(env, m.disk).value, JsbBlock(env, m.disk), Effects(env, m);
    var c := Crashed(env, m, k);
    EffectSizes(env, m);
    DoAllSizes(env, m, es[..k]);
    SameLength(m, es[..k]);
    CrashKeepsJournal(env, m, k);
    SameWrites(job, m.disk, c.disk);
    assert InodeAt(env, c.disk) == InodeAt(env, m.disk);
    ResetSameJob(env, InodeAt(env, m.disk), m.disk[j], NextSeq(job, m.disk));
    ResetTwice(m.disk[j], NextSeq(job, m.disk));
    assert FindJob(env, c.disk) == Some(job);
  }

  /** Stopping recovery after any number of its writes and running it again ends with exactly the
      medium one uninterrupted recovery ends with. */
  lemma CrashThenRecover(env: Env, m: Media, k: nat)
    requires MediaOk(env, m.disk) && InlineJournal(env, m.disk) && Safe(env, m.disk) && k <= |Effects(env, m)|
    ensures var c := Crashed(env, m, k);
      && MediaOk(env, c.disk) && InlineJournal(env, c.disk)
      && (c.recover ==> Safe(env, c.disk))
      && Recover(env, c) == Recover(env, m)
  {
    hide Writes, NextSeq, ResetJsb, JobFrom, Lookup, Safe;
    var es := Effects(env, m);
    if es == [] {
      assert es[..k] == [];
    } else if k < |es| {
      CrashSameEffects(env, m, k);
      Absorbed(m, es, k);
    } else {
      assert es[..k] == es && es[|es| - 1] == ClearRecover;
      EffectSizes(env, m);
      DoAllSizes(env, m, es);
      SameLength(m, es);
      CrashKeepsJournal(env, m, k);
      assert InodeAt(env, Crashed(env, m, k).disk) == InodeAt(env, m.disk);
    }
  }

  /** A history of attempts, each stopped somewhere along its effects. */
  ghost predicate Attempts(env: Env, ms: seq<Media>, ks: seq<nat>) {
    && |ms| == |ks| + 1
    && forall i :: 0 <= i < |ks| ==> Attempt(env, ms[i], ks[i], ms[i + 1])
  }

  ghost predicate Attempt(env: Env, m: Media, k: nat, c: Media) {
    MediaOk(env, m.disk) && InlineJournal(env, m.disk) && k <= |Effects(env, m)| && c == Crashed(env, m, k)
  }

  /** However often recovery is interrupted, the recovery that completes leaves the same medium. */
  lemma {:induction false} ManyCrashes(env: Env, ms: seq<Media>, ks: seq<nat>)
    requires Attempts(env, ms, ks) && MediaOk(env, ms[0].disk) && InlineJournal(env, ms[0].disk) && Safe(env, ms[0].disk)
    ensures var last := ms[|ks|];
      && MediaOk(env, last.disk) && InlineJournal(env, last.disk) && (last.recover ==> Safe(env, last.disk))
      && Recover(env, last) == Recover(env, ms[0])
  {
    hide Safe, Recover, Crashed, Effects;
    if |ks| > 0 {
      var n := |ks| - 1;
      assert Attempts(env, ms[..n + 1], ks[..n]);
      ManyCrashes(env, ms[..n + 1], ks[..n]);
      var m := ms[n];
      assert ms[..n + 1][n] == m && Attempt(env, ms[n], ks[n], ms[n + 1]);
      if m.recover {
        CrashThenRecover(env, m, ks[n]);
      } else {
        DoneIsDone(env, m, ks[n]);
      }
    }
  }

  /** Without the recovery flag nothing is written. */
  lemma DoneIsDone(env: Env, m: Media, k: nat)
    requires MediaOk(env, m.disk) && InlineJournal(env, m.disk) && !m.recover && k <= |Effects(env, m)|
    ensures Crashed(env, m, k) == m
  {
    assert Effects(env, m)[..k] == [];
  }
}
