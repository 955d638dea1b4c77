/** A whole recovery, block by block and byte by byte. */
module JournalEffect {
  import opened Bytes
  import opened Extents
  import opened JournalLog
  import opened JournalBytes
  import opened JournalCrash

  // ---------------- the journal superblock ----------------

  /** The little-endian word at `off`. */
  function Le(b: seq<Byte>, off: nat): nat
    requires off + 4 <= |b|
  {
    b[off] as int + 0x100 * b[off + 1] as int + 0x1_0000 * b[off + 2] as int + 0x100_0000 * b[off + 3] as int
  }

  /** The journal's length in blocks, from the inode's size. */
  function JournalLength(env: Env, raw: seq<Byte>): int
    requires env.Ok() && |raw| == 128
  {
    (Le(raw, 4) + (if env.largeFile && raw[1] / 16 != 4 then U32 * Le(raw, 108) else 0)) / env.blockSize
  }

  /** The journal superblock's block: the first block the journal inode maps. */
  ghost function JsbAt(env: Env, disk: seq<Block>): nat
    requires MediaOk(env, disk) && InlineJournal(env, disk)
  {
    assert InodeAt(env, disk)[40..100] == disk[env.inodeBlk][env.inodeOff + 40..env.inodeOff + 100];
    Lookup(disk[env.inodeBlk][env.inodeOff + 40..env.inodeOff + 100], 0)
  }

  /** The log to recover, as the inode and the journal superblock describe it. */
  ghost predicate JobFields(env: Env, disk: seq<Block>, job: Job)
    requires MediaOk(env, disk) && InlineJournal(env, disk)
  {
    var raw, j := disk[env.inodeBlk][env.inodeOff..env.inodeOff + 128], JsbAt(env, disk);
    && 0 < j < |disk| && Le(raw, 32) / 0x8_0000 % 2 == 1
    && var jsb, n := disk[j], JournalLength(env, raw);
       && Le(jsb, 12) == env.blockSize && 2 <= Le(jsb, 20) < n && Le(jsb, 24) < n
       && job.root == raw[40..100] && job.first == Le(jsb, 20)
       && job.cap == (if 0 < Le(jsb, 16) <= n then Le(jsb, 16) else n)
       && job.tagSize == (if Le(jsb, 36) / 2 % 2 == 1 then 16 else 12)
       && job.blockSize == env.blockSize && job.blocksCount == env.blocksCount
  }

  lemma FindJobIs(env: Env, disk: seq<Block>, job: Job)
    requires MediaOk(env, disk) && InlineJournal(env, disk)
    ensures FindJob(env, disk) == Some(job) <==> JobFields(env, disk, job)
  {
    hide Lookup;
    assert InodeAt(env, disk)[40..100] == disk[env.inodeBlk][env.inodeOff + 40..env.inodeOff + 100];
  }

  lemma FieldsOk(env: Env, disk: seq<Block>, job: Job)
    requires MediaOk(env, disk) && InlineJournal(env, disk) && JobFields(env, disk, job)
    ensures job.Ok() && JobDisk(job, disk) && FindJob(env, disk) == Some(job) && JsbAt(env, disk) == JsbBlock(env, disk)
  {
    hide Lookup, JobFrom;
    FindJobIs(env, disk, job);
    assert InodeAt(env, disk)[40..100] == disk[env.inodeBlk][env.inodeOff + 40..env.inodeOff + 100];
  }

  /** `m` is the largest sequence with a commit record, or zero without any. */
  ghost predicate LargestCommit(job: Job, disk: seq<Block>, m: nat)
    requires job.Ok() && JobDisk(job, disk)
  {
    var cs := CommitSeqs(job, disk, job.cap);
    (forall s :: s in cs ==> s <= m) && (m in cs || (cs == {} && m == 0))
  }

  lemma LargestCommitIs(job: Job, disk: seq<Block>)
    requires job.Ok() && JobDisk(job, disk)
    ensures LargestCommit(job, disk, Largest(Commits(job, disk, job.cap)))
  {
    hide CommitSeqs, Commits, Largest;
    var cs := Commits(job, disk, job.cap);
    CommitsAre(job, disk, job.cap);
    LargestIs(cs);
    if cs == [] {
      LargestNone();
    } else {
      var i :| 0 <= i < |cs| && cs[i] == Largest(cs);
      assert cs[i] in ToSet(cs);
    }
    forall s | s in CommitSeqs(job, disk, job.cap) ensures s <= Largest(cs) {
      assert s in ToSet(cs);
      var i :| 0 <= i < |cs| && cs[i] == s;
    }
  }

  lemma LargestNone()
    ensures Largest([]) == 0
  {
  }

  /** The journal superblock after recovery: no log, and the sequence after the largest commit. */
  ghost predicate JsbEmptied(job: Job, disk: seq<Block>, was: Block, now: Block)
    requires job.Ok() && JobDisk(job, disk)
  {
    && 40 <= |was| == |now| && Le(now, 24) == 0
    && (exists m: nat :: LargestCommit(job, disk, m) && Le(now, 28) == (m + 1) % U32)
    && forall x :: 0 <= x < |was| && !(24 <= x < 32) ==> now[x] == was[x]
  }

  lemma ResetEmpties(job: Job, disk: seq<Block>, jsb: Block)
    requires job.Ok() && JobDisk(job, disk) && 40 <= |jsb|
    ensures JsbEmptied(job, disk, jsb, ResetJsb(jsb, NextSeq(job, disk)))
  {
    hide Put32, LargestCommit;
    LargestCommitIs(job, disk);
    var a := Put32(jsb, 24, 0);
    var r := Put32(a, 28, NextSeq(job, disk));
    assert Le(r, 24) == Get32(a, 24) && Le(r, 28) == Get32(r, 28);
  }

  // ---------------- one block ----------------

  /** Block `b` after the replay: untouched when the log revokes it or no applied tag goes to it, and otherwise
      with the content of the last such tag. */
  ghost predicate BlockReplayed(job: Job, disk: seq<Block>, b: nat, after: Block)
    requires job.Ok() && JobDisk(job, disk) && b < |disk|
  {
    if RevokedByLog(job, disk, b) || NoneFrom(job, disk, job.first, b) then after == disk[b]
    else exists p: nat, k: nat :: LastTag(job, disk, p, k, b) && TagContent(job, disk, p, k, after)
  }

  ghost predicate LastTag(job: Job, disk: seq<Block>, p: nat, k: nat, b: nat)
    requires job.Ok() && JobDisk(job, disk)
  {
    GoesTo(job, disk, p, k, b) && NoneAfter(job, disk, p, k, b)
  }

  ghost predicate TagContent(job: Job, disk: seq<Block>, p: nat, k: nat, after: Block)
    requires job.Ok() && JobDisk(job, disk)
  {
    Record(job, disk, p, 1) && Usable(job, disk, JBlock(job, disk, p), p, k)
    && ContentIs(job, disk, JBlock(job, disk, p), p, k, after)
  }

  lemma {:induction false} LastWins(m: Media, es: seq<Effect>, x: nat, b: nat)
    requires x < |es| && es[x].Put? && es[x].b == b < |m.disk|
    requires forall y :: x < y < |es| ==> !(es[y].Put? && es[y].b == b)
    ensures |DoAll(m, es).disk| == |m.disk| && DoAll(m, es).disk[b] == es[x].content
  {
    var n := |es| - 1;
    SameLength(m, es[..n]);
    if x < n {
      LastWins(m, es[..n], x, b);
    }
  }

  lemma {:induction false} Untouched(m: Media, es: seq<Effect>, b: nat)
    requires b < |m.disk| && forall y :: 0 <= y < |es| ==> !(es[y].Put? && es[y].b == b)
    ensures |DoAll(m, es).disk| == |m.disk| && DoAll(m, es).disk[b] == m.disk[b]
  {
    if es != [] {
      Untouched(m, es[..|es| - 1], b);
    }
  }

  /** Skipping revoked targets keeps the last entry for a block that is not revoked. */
  lemma KeptLast(job: Job, disk: seq<Block>, es: seq<Entry>, x: nat, b: nat) returns (y: nat)
    requires job.Ok() && LastAt(es, x, b) && !Revoked(job, disk, job.cap, b)
    ensures LastAt(Kept(job, disk, es), y, b) && Kept(job, disk, es)[y] == es[x]
  {
    hide Kept, Revoked;
    var a, c := es[..x], es[x + 1..];
    assert es == a + ([es[x]] + c);
    KeptAppend(job, disk, a, [es[x]] + c);
    KeptAppend(job, disk, [es[x]], c);
    KeptOne(job, disk, es[x]);
    y := |Kept(job, disk, a)|;
    var ks, rest := Kept(job, disk, es), Kept(job, disk, c);
    forall z | y < z < |ks| ensures ks[z].target != b {
      assert ks[z] == rest[z - y - 1];
      KeptFromLog(job, disk, c, z - y - 1);
    }
  }

  lemma KeptNone(job: Job, disk: seq<Block>, es: seq<Entry>, b: nat, z: nat)
    requires job.Ok() && z < |Kept(job, disk, es)|
    requires Revoked(job, disk, job.cap, b) || forall y :: 0 <= y < |es| ==> es[y].target != b
    ensures Kept(job, disk, es)[z].target != b
  {
    hide Kept, Revoked;
    KeptFromLog(job, disk, es, z);
  }

  /** Where the replay of block `b` comes from, as an index into the writes, or nowhere. */
  lemma WriteOf(job: Job, disk: seq<Block>, b: nat) returns (y: int)
    requires job.Ok() && JobDisk(job, disk) && b < |disk|
    ensures var ws := JournalLog.Writes(job, disk);
      if y < 0
      then (forall z :: 0 <= z < |ws| ==> ws[z].target != b) && BlockReplayed(job, disk, b, disk[b])
      else LastAt(ws, y, b) && BlockReplayed(job, disk, b, ws[y].content)
  {
    hide Kept, Revoked, LogFrom, Tracked, Commits, RevokedByLog, GoesTo, NoneAfter, EntryIs, TagContent;
    var es := Log(job, disk);
    RevokedIs(job, disk, b);
    var x, p, k := SuffixLast(job, disk, job.first, b);
    assert es == LogFrom(job, disk, Tracked(Commits(job, disk, job.cap)), job.first);
    if Revoked(job, disk, job.cap, b) || x < 0 {
      y := -1;
      forall z | 0 <= z < |Kept(job, disk, es)| ensures Kept(job, disk, es)[z].target != b {
        KeptNone(job, disk, es, b, z);
      }
    } else {
      y := KeptLast(job, disk, es, x, b);
      EntryContent(job, disk, p, k, es[x]);
      assert !NoneFrom(job, disk, job.first, b);
      assert LastTag(job, disk, p, k, b);
    }
  }

  lemma EntryContent(job: Job, disk: seq<Block>, p: nat, k: nat, e: Entry)
    requires job.Ok() && JobDisk(job, disk) && EntryIs(job, disk, p, k, e)
    ensures TagContent(job, disk, p, k, e.content)
  {
    hide ContentIs, JBlock, UsableTo;
  }

  // ---------------- the whole disk ----------------

  /** The disk a recovery of `d0` leaves: every block replayed, and the journal superblock emptied. */
  ghost predicate Replayed(env: Env, job: Job, d0: seq<Block>, d: seq<Block>)
    requires MediaOk(env, d0) && InlineJournal(env, d0) && JobFields(env, d0, job)
  {
    FieldsOk(env, d0, job);
    && |d| == |d0| && JsbEmptied(job, d0, d0[JsbAt(env, d0)], d[JsbAt(env, d0)])
    && forall b :: 0 <= b < |d0| && b != JsbAt(env, d0) ==> BlockReplayed(job, d0, b, d[b])
  }

  /** One recovery leaves exactly that disk, and no flag. */
  lemma RecoverReplays(env: Env, m: Media, job: Job)
    requires MediaOk(env, m.disk) && InlineJournal(env, m.disk) && Safe(env, m.disk) && m.recover
    requires JobFields(env, m.disk, job)
    ensures !Recover(env, m).recover && Replayed(env, job, m.disk, Recover(env, m).disk)
  {
    hide JobFrom, Lookup, JournalLog.Writes, Log, ResetJsb, NextSeq, BlockReplayed, JsbEmptied, JobFields, DoAll, InlineJournal,
         Outside;
    FieldsOk(env, m.disk, job);
    var ws, es, j := JournalLog.Writes(job, m.disk), Effects(env, m), JsbAt(env, m.disk);
    assert es[|es| - 1] == ClearRecover;
    SameLength(m, es);
    forall z | 0 <= z < |ws| ensures es[z] == Put(ws[z].target, ws[z].content) && ws[z].target != j {
      WriteApart(env, m.disk, job, z);
    }
    forall b | 0 <= b < |m.disk| && b != j ensures BlockReplayed(job, m.disk, b, DoAll(m, es).disk[b]) {
      var y := WriteOf(job, m.disk, b);
      if y < 0 {
        Untouched(m, es, b);
      } else {
        LastWins(m, es, y, b);
      }
    }
    LastWins(m, es, |ws|, j);
    ResetEmpties(job, m.disk, m.disk[j]);
  }

  lemma WriteApart(env: Env, disk: seq<Block>, job: Job, z: nat)
    requires MediaOk(env, disk) && InlineJournal(env, disk) && Safe(env, disk) && FindJob(env, disk) == Some(job)
    requires z < |JournalLog.Writes(job, disk)|
    ensures JournalLog.Writes(job, disk)[z].target != JsbBlock(env, disk)
  {
    hide JobFrom, Lookup, JournalLog.Writes, Log;
    WriteIs(env, disk, z);
  }

  /** However often the recovery is interrupted, the one that completes leaves that disk. */
  lemma CrashesReplay(env: Env, ms: seq<Media>, ks: seq<nat>, job: Job)
    requires Attempts(env, ms, ks) && MediaOk(env, ms[0].disk) && InlineJournal(env, ms[0].disk) && Safe(env, ms[0].disk)
    requires ms[0].recover && JobFields(env, ms[0].disk, job)
    ensures var last := ms[|ks|];
      && MediaOk(env, last.disk) && InlineJournal(env, last.disk)
      && Replayed(env, job, ms[0].disk, Recover(env, last).disk)
  {
    hide Safe, Recover, Attempt, Replayed, JobFields;
    ManyCrashes(env, ms, ks);
    RecoverReplays(env, ms[0], job);
  }
}
