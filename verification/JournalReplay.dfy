/** fs/ext4_journal.c as it runs: the table of committed sequences, the revoke bitmap, two
    passes over the log, and the reset. */
module JournalReplay {
  import opened Bytes
  import opened Extents
  import opened JournalLog
  import opened JournalCrash
  import opened JournalEffect

  // ---------------- the revoke bitmap ----------------

  /** The bitmap has a bit for every block, set for the blocks revoked below journal block `n`. */
  ghost predicate BitmapIs(job: Job, disk: seq<Block>, bits: seq<Byte>, n: nat)
    requires job.Ok()
  {
    && job.blocksCount <= 8 * |bits|
    && forall b: nat :: b < job.blocksCount ==> (BitAt(bits, b) <==> Revoked(job, disk, n, b))
  }

  lemma RevokedStep(job: Job, disk: seq<Block>, n: nat, b: nat)
    requires job.Ok() && n >= job.first
    ensures Revoked(job, disk, n + 1, b) <==> Revoked(job, disk, n, b) || RevokedAt(job, disk, n, b)
  {
    hide RevokedAt;
  }

  /** The inner loop of pass 1 over one revoke record: the listed blocks' bits are set, no others change. */
  method MarkRevokes(bits: seq<Byte>, record: Block, used: nat, blocksCount: nat) returns (r: seq<Byte>)
    requires blocksCount <= 8 * |bits| && used <= |record|
    ensures |r| == |bits|
    ensures forall b: nat :: b < blocksCount ==> (BitAt(r, b) <==> BitAt(bits, b) || Lists(record, used, b))
  {
    hide BitAt, SetBitAt;
    r := bits;
    var off := 16;
    ghost var n := 0;
    while off + 4 <= used
      invariant off == 16 + 4 * n && |r| == |bits|
      invariant forall b: nat :: b < blocksCount ==>
                  (BitAt(r, b) <==> BitAt(bits, b) || exists k :: 0 <= k < n && 20 + 4 * k <= used && WordAt(record, k) == b)
    {
      var b := GetBe32(record, off);
      assert b == WordAt(record, n);
      if b < blocksCount {
        SetBitAtReads(r, b, true);
        r := SetBitAt(r, b, true);
      }
      n := n + 1;
      off := off + 4;
    }
    forall b: nat | b < blocksCount ensures BitAt(r, b) <==> BitAt(bits, b) || Lists(record, used, b) {
      if Lists(record, used, b) {
        var k :| 0 <= k && 20 + 4 * k <= used && WordAt(record, k) == b;
        assert k < n;
      }
    }
  }

  // ---------------- the recovery ----------------

  class Recovery {
    const env: Env
    var disk: seq<Block>
    var recover: bool
    var committed: seq<nat>
    var lastSeq: nat
    var revbits: seq<Byte>
    ghost var trace: seq<Effect>

    constructor (env: Env, m: Media)
      ensures this.env == env && disk == m.disk && recover == m.recover && trace == []
    {
      this.env, disk, recover := env, m.disk, m.recover;
      committed, lastSeq, revbits, trace := [], 0, [], [];
    }

    /** note_commit: remember a sequence while there is room, and the largest one seen always. */
    method NoteCommit(s: nat, ghost cs: seq<nat>)
      requires committed == Tracked(cs) && lastSeq == Largest(cs)
      modifies `committed, `lastSeq
      ensures committed == Tracked(cs + [s]) && lastSeq == Largest(cs + [s])
    {
      hide Tracked, Largest;
      TrackedStep(cs, s);
      var i := 0;
      while i < |committed|
        invariant 0 <= i <= |committed| && s !in committed[..i]
      {
        if committed[i] == s {
          TrackedBounded(cs, s);
          return;
        }
        i := i + 1;
      }
      if |committed| < MAX_TRACKED {
        committed := committed + [s];
      }
      if s > lastSeq || |committed| == 0 {
        lastSeq := s;
      }
    }

    /** was_committed. */
    method WasCommitted(s: nat) returns (yes: bool)
      ensures yes <==> s in committed
    {
      var i := 0;
      while i < |committed|
        invariant 0 <= i <= |committed| && s !in committed[..i]
      {
        if committed[i] == s {
          return true;
        }
        i := i + 1;
      }
      return false;
    }

    /** Pass 1: commits and revokes, over the whole log. */
    method PassOne(job: Job)
      requires job.Ok() && JobDisk(job, disk)
      modifies `committed, `lastSeq, `revbits
      ensures committed == Tracked(Commits(job, disk, job.cap)) && lastSeq == Largest(Commits(job, disk, job.cap))
      ensures BitmapIs(job, disk, revbits, job.cap)
    {
      hide Lists, Tracked, Largest;
      committed, lastSeq := [], 0;
      revbits := Zeros((job.blocksCount + 7) / 8);
      StartTables(job, disk, revbits);
      var i := job.first;
      while i < job.cap
        invariant job.first <= i && (i <= job.cap || i == job.first)
        invariant committed == Tracked(Commits(job, disk, i)) && lastSeq == Largest(Commits(job, disk, i))
        invariant BitmapIs(job, disk, revbits, i)
      {
        ghost var bits := revbits;
        var buf := JRead(job, disk, i);
        if buf.Some? && GetBe32(buf.value, 0) == J_MAGIC {
          if GetBe32(buf.value, 4) == JT_COMMIT {
            NoteCommit(GetBe32(buf.value, 8), Commits(job, disk, i));
          } else if GetBe32(buf.value, 4) == JT_REVOKE {
            var used := Get32(buf.value, 12);
            if used <= job.blockSize {
              revbits := MarkRevokes(revbits, buf.value, used, job.blocksCount);
            }
          }
        }
        assert Commits(job, disk, i) + [] == Commits(job, disk, i);
        BitmapStep(job, disk, bits, revbits, i);
        i := i + 1;
      }
      PastEnd(job, disk, i);
    }

    /** The tag loop of pass 2 over one descriptor: each tag's content goes to its target unless
        the target is revoked. */
    method ApplyTags(job: Job, desc: Block, i: nat, ghost d0: seq<Block>) returns (c: nat, ghost es: seq<Entry>)
      requires job.Ok() && |desc| == job.blockSize && i >= job.first && BitmapIs(job, d0, revbits, job.cap)
      requires |disk| == |d0| == job.blocksCount && SameLog(job, d0, disk) && JobDisk(job, d0)
      requires AllOutside(env, job, Tags(job, d0, desc, i + 1, 12))
      modifies `disk, `trace
      ensures es == Tags(job, d0, desc, i + 1, 12) && c == i + 1 + |es|
      ensures |disk| == |old(disk)| && SameLog(job, d0, disk)
      ensures trace == old(trace) + Puts(Kept(job, d0, es))
      ensures Media(disk, recover) == DoAll(Media(old(disk), recover), Puts(Kept(job, d0, es)))
    {
      hide JRead, Tags, Kept, Revoked, BitAt, Lookup, DoAll, Puts, Escaped;
      DoAllNil(Media(disk, recover));
      ghost var m0 := Media(disk, recover);
      c, es := i + 1, [];
      var off := 12;
      KeptNil(job, d0);
      ghost var all := Tags(job, d0, desc, i + 1, 12);
      assert [] + all == all && trace + [] == trace;
      while true
        invariant off >= 12 && c == i + 1 + |es| && es + Tags(job, d0, desc, c, off) == all
        invariant |disk| == |d0| && SameLog(job, d0, disk)
        invariant trace == old(trace) + Puts(Kept(job, d0, es))
        invariant Media(disk, recover) == DoAll(m0, Puts(Kept(job, d0, es)))
        decreases job.blockSize - off
      {
        TagsStep(job, d0, desc, c, off);
        if !(off + job.tagSize <= job.blockSize && c < job.cap) {
          assert es + [] == es;
          break;
        }
        var target, flags := GetBe32(desc, off), GetBe32(desc, off + 4);
        if flags / 8 % 2 == 1 {
          assert es + [] == es;
          break;
        }
        if target == 0 {
          assert es + [] == es;
          break;
        }
        var content := JRead(job, disk, c);
        assert content == JRead(job, d0, c);
        if content.None? {
          assert es + [] == es;
          break;
        }
        JReadSize(job, d0, c);
        ghost var e := Entry(target, Escaped(content.value, flags));
        assert all[|es|] == e;
        assert Outside(env, job.root, target);
        if !BitAt(revbits, target) {
          assert !Revoked(job, d0, job.cap, target);
          StillSameLog(env, job, d0, disk, target, Escaped(content.value, flags));
          disk := disk[target := Escaped(content.value, flags)];
          trace := trace + [Put(target, Escaped(content.value, flags))];
        }
        KeptOneMore(job, d0, es, e, m0);
        es := es + [e];
        assert es + Tags(job, d0, desc, c + 1, off + job.tagSize) == all;
        c := c + 1;
        off := off + job.tagSize;
      }
    }

    /** One round of pass 2: journal block `i` is applied if it is a descriptor of a tracked transaction. */
    method ApplyAt(job: Job, i: nat, ghost d0: seq<Block>) returns (c: nat, ghost es: seq<Entry>)
      requires job.Ok() && i >= job.first && BitmapIs(job, d0, revbits, job.cap)
      requires |disk| == |d0| == job.blocksCount && SameLog(job, d0, disk) && JobDisk(job, d0)
      requires AllOutside(env, job, EntriesAt(job, d0, committed, i))
      modifies `disk, `trace
      ensures es == EntriesAt(job, d0, committed, i) && c == i + 1 + |es|
      ensures |disk| == |old(disk)| && SameLog(job, d0, disk)
      ensures trace == old(trace) + Puts(Kept(job, d0, es))
      ensures Media(disk, recover) == DoAll(Media(old(disk), recover), Puts(Kept(job, d0, es)))
    {
      hide Kept, EntriesAt, Tags, Revoked, BitmapIs, JRead;
      c, es := i + 1, [];
      KeptNil(job, d0);
      NoEntries(job, d0, committed, i);
      assert DoAll(Media(disk, recover), []) == Media(disk, recover) && trace + [] == trace;
      var buf := JRead(job, disk, i);
      assert buf == JRead(job, d0, i);
      if buf.None? {
        return;
      }
      JReadSize(job, d0, i);
      if GetBe32(buf.value, 0) != J_MAGIC {
        return;
      }
      var yes := WasCommitted(GetBe32(buf.value, 8));
      if GetBe32(buf.value, 4) != JT_DESC || !yes {
        return;
      }
      EntriesAre(job, d0, committed, i);
      c, es := ApplyTags(job, buf.value, i, d0);
    }

    /** Pass 2: every descriptor of a tracked transaction is applied, and its contents skipped over. */
    method PassTwo(job: Job)
      requires job.Ok() && JobDisk(job, disk) && committed == Tracked(Commits(job, disk, job.cap))
      requires BitmapIs(job, disk, revbits, job.cap) && AllOutside(env, job, Log(job, disk))
      modifies `disk, `trace
      ensures |disk| == |old(disk)| && SameLog(job, old(disk), disk)
      ensures trace == old(trace) + Puts(Writes(job, old(disk)))
      ensures Media(disk, recover) == DoAll(Media(old(disk), recover), Puts(Writes(job, old(disk))))
    {
      hide Kept, LogFrom, Tracked, Commits, EntriesAt, BitmapIs, DoAll, AllOutside, Puts;
      DoAllNil(Media(disk, recover));
      ghost var d0, m0, log := disk, Media(disk, recover), Log(job, disk);
      ghost var done: seq<Entry> := [];
      KeptNil(job, d0);
      assert [] + log == log && trace + [] == trace;
      var i := job.first;
      while i < job.cap
        invariant i >= job.first && done + LogFrom(job, d0, committed, i) == log
        invariant |disk| == |d0| && SameLog(job, d0, disk)
        invariant trace == old(trace) + Puts(Kept(job, d0, done))
        invariant Media(disk, recover) == DoAll(m0, Puts(Kept(job, d0, done)))
        decreases job.cap - i
      {
        LogStep(job, d0, committed, i);
        ghost var next := EntriesAt(job, d0, committed, i);
        OutsidePart(env, job, log, done, next);
        ghost var es;
        var c: nat;
        c, es := ApplyAt(job, i, d0);
        PutsAppend(job, d0, done, es, m0);
        assert done + (es + LogFrom(job, d0, committed, c)) == (done + es) + LogFrom(job, d0, committed, c);
        done := done + es;
        i := c - 1;
        i := i + 1;
      }
      LogStep(job, d0, committed, i);
      assert done + [] == done;
    }

    /** e4_journal_reset: the journal superblock is emptied and given the next sequence, and then
        the superblock loses its recovery flag. */
    method Reset()
      requires MediaOk(env, disk) && InlineJournal(env, disk) && lastSeq < U32
      requires 0 < JsbBlock(env, disk) < |disk|
      modifies `disk, `recover, `trace
      ensures var j := JsbBlock(env, old(disk));
        var es := [Put(j, ResetJsb(old(disk)[j], (lastSeq + 1) % U32)), ClearRecover];
        trace == old(trace) + es && Media(disk, recover) == DoAll(Media(old(disk), old(recover)), es)
    {
      hide ResetJsb, Lookup;
      var phys := JsbBlock(env, disk);
      var buf := ResetJsb(disk[phys], (lastSeq + 1) % U32);
      ghost var m, e1, e2 := Media(disk, recover), Put(phys, buf), ClearRecover;
      disk := disk[phys := buf];
      trace := trace + [e1];
      recover := false;
      trace := trace + [e2];
      TwoEffects(m, e1, e2);
    }

    /** Both passes and the reset, for the log the journal superblock describes. */
    method ReplayLog(job: Job)
      requires MediaOk(env, disk) && InlineJournal(env, disk) && Safe(env, disk) && trace == [] && recover
      requires FindJob(env, disk) == Some(job)
      modifies this
      ensures trace == Effects(env, old(Media(disk, recover)))
      ensures Media(disk, recover) == Recover(env, old(Media(disk, recover)))
    {
      hide JobFrom, Writes, ResetJsb, Lookup, BitmapIs, Commits, Tracked, Largest, Log, Outside;
      ghost var m := Media(disk, recover);
      ghost var j := JsbBlock(env, disk);
      PassOne(job);
      CommitsBound(job, disk, job.cap);
      if |committed| > 0 {
        PassTwo(job);
      } else {
        NothingTracked(job, disk);
        assert DoAll(m, []) == m;
      }
      AfterWrites(env, m, disk, job, j);
      Reset();
      DoAllAppend(m, Puts(Writes(job, m.disk)), [Put(j, ResetJsb(m.disk[j], NextSeq(job, m.disk))), ClearRecover]);
    }

    /** e4_journal_replay: nothing without the recovery flag or a usable journal superblock;
        otherwise exactly the effects of a recovery, in order. */
    method Replay() returns (ok: bool)
      requires MediaOk(env, disk) && InlineJournal(env, disk) && Safe(env, disk) && trace == []
      modifies this
      ensures ok <==> !old(recover) || exists job :: JobFields(env, old(disk), job)
      ensures trace == Effects(env, old(Media(disk, recover)))
      ensures Media(disk, recover) == Recover(env, old(Media(disk, recover)))
      ensures !ok || !old(recover) ==> disk == old(disk) && recover == old(recover)
      ensures ok && old(recover) ==>
        !recover && exists job :: JobFields(env, old(disk), job) && Replayed(env, job, old(disk), disk)
    {
      hide JobFrom, Writes, Lookup, Log, Outside, JobFields, Replayed, Safe;
      ghost var m := Media(disk, recover);
      committed, lastSeq, revbits := [], 0, [];
      if !recover {
        return true;
      }
      JobOrNone(env, disk);
      var j := JsbBlock(env, disk);
      if j == 0 || j >= |disk| {
        return false;
      }
      var found := JobFrom(env, InodeAt(env, disk), disk[j]);
      if found.None? {
        return false;
      }
      FindJobIs(env, disk, found.value);
      RecoverReplays(env, m, found.value);
      ReplayLog(found.value);
      return true;
    }
  }

  lemma JobOrNone(env: Env, disk: seq<Block>)
    requires MediaOk(env, disk) && InlineJournal(env, disk)
    ensures FindJob(env, disk).Some? <==> exists job :: JobFields(env, disk, job)
  {
    hide FindJob, JobFields;
    if FindJob(env, disk).Some? {
      FindJobIs(env, disk, FindJob(env, disk).value);
    }
    if job :| JobFields(env, disk, job) {
      FindJobIs(env, disk, job);
    }
  }

  lemma DoAllNil(m: Media)
    ensures DoAll(m, []) == m
  {
  }

  lemma EntriesAre(job: Job, disk: seq<Block>, table: seq<nat>, i: nat)
    requires job.Ok() && JRead(job, disk, i).Some? && |JRead(job, disk, i).value| == job.blockSize
    requires IsRecord(job, disk, i, JT_DESC) && SeqOf(job, disk, i) in table
    ensures EntriesAt(job, disk, table, i) == Tags(job, disk, JRead(job, disk, i).value, i + 1, 12)
  {
  }

  lemma NoEntries(job: Job, disk: seq<Block>, table: seq<nat>, i: nat)
    requires job.Ok()
    ensures !IsRecord(job, disk, i, JT_DESC) || SeqOf(job, disk, i) !in table ==> EntriesAt(job, disk, table, i) == []
  {
  }

  lemma OutsidePart(env: Env, job: Job, log: seq<Entry>, done: seq<Entry>, es: seq<Entry>)
    requires job.Ok() && AllOutside(env, job, log) && done + es <= log
    ensures AllOutside(env, job, es)
  {
    hide Outside;
    forall k | 0 <= k < |es| ensures Outside(env, job.root, es[k].target) {
      assert log[|done| + k] == es[k];
    }
  }

  lemma PutsAppend(job: Job, disk: seq<Block>, a: seq<Entry>, b: seq<Entry>, m: Media)
    requires job.Ok()
    ensures Puts(Kept(job, disk, a + b)) == Puts(Kept(job, disk, a)) + Puts(Kept(job, disk, b))
    ensures DoAll(m, Puts(Kept(job, disk, a + b))) == DoAll(DoAll(m, Puts(Kept(job, disk, a))), Puts(Kept(job, disk, b)))
  {
    hide Kept;
    KeptAppend(job, disk, a, b);
    DoAllAppend(m, Puts(Kept(job, disk, a)), Puts(Kept(job, disk, b)));
  }

  lemma {:induction false} DoAllAppend(m: Media, a: seq<Effect>, b: seq<Effect>)
    ensures DoAll(m, a + b) == DoAll(DoAll(m, a), b)
  {
    if b == [] {
      assert a + b == a;
    } else {
      var n := |b| - 1;
      DoAllAppend(m, a, b[..n]);
      assert (a + b)[..|a| + n] == a + b[..n];
    }
  }

  lemma TwoEffects(m: Media, e1: Effect, e2: Effect)
    ensures DoAll(m, [e1, e2]) == Do(Do(m, e1), e2)
  {
    assert [e1, e2][..1] == [e1] && [e1][..0] == [];
    assert DoAll(m, [e1]) == Do(m, e1);
  }

  lemma {:induction false} CommitsBound(job: Job, disk: seq<Block>, n: nat)
    requires job.Ok()
    ensures Largest(Commits(job, disk, n)) < U32
  {
    if n > job.first {
      CommitsBound(job, disk, n - 1);
      var cs := Commits(job, disk, n - 1);
      if IsRecord(job, disk, n - 1, JT_COMMIT) {
        TrackedStep(cs, SeqOf(job, disk, n - 1));
      } else {
        assert cs + [] == cs;
      }
    }
  }

  /** With no tracked transaction there is nothing to write. */
  lemma NothingTracked(job: Job, disk: seq<Block>)
    requires job.Ok() && Tracked(Commits(job, disk, job.cap)) == []
    ensures Writes(job, disk) == [] && Puts(Writes(job, disk)) == []
  {
    NoLog(job, disk, job.first);
  }

  lemma {:induction false} NoLog(job: Job, disk: seq<Block>, i: nat)
    requires job.Ok()
    ensures LogFrom(job, disk, [], i) == []
    decreases job.cap - i
  {
    if i < job.cap {
      NoLog(job, disk, i + 1);
    }
  }

  /** The replayed blocks are not the journal's: its superblock is still the old one. */
  lemma AfterWrites(env: Env, m: Media, disk: seq<Block>, job: Job, j: nat)
    requires MediaOk(env, m.disk) && InlineJournal(env, m.disk) && Safe(env, m.disk) && m.recover
    requires FindJob(env, m.disk) == Some(job) && j == JsbBlock(env, m.disk)
    requires Media(disk, true) == DoAll(m, Puts(Writes(job, m.disk)))
    ensures MediaOk(env, disk) && InlineJournal(env, disk) && JsbBlock(env, disk) == j && disk[j] == m.disk[j]
  {
    hide Writes, JobFrom, Lookup, Log, ResetJsb, NextSeq;
    var es := Puts(Writes(job, m.disk));
    assert Effects(env, m)[..|es|] == es;
    EffectSizes(env, m);
    DoAllSizes(env, m, es);
    SameLength(m, es);
    forall i | 0 <= i < |es| ensures es[i].b != env.inodeBlk && es[i].b != j {
      WriteIs(env, m.disk, i);
    }
    DoAllIs(m, es, env.inodeBlk);
    DoAllIs(m, es, j);
    assert InodeAt(env, disk) == InodeAt(env, m.disk);
  }

  /** Every entry's target is clear of the journal. */
  ghost predicate AllOutside(env: Env, job: Job, es: seq<Entry>)
    requires job.Ok()
  {
    env.blocksCount == job.blocksCount && forall k :: 0 <= k < |es| ==> Outside(env, job.root, es[k].target)
  }

  /** One more entry: one more put, or none when its target is revoked. */
  lemma KeptOneMore(job: Job, disk: seq<Block>, es: seq<Entry>, e: Entry, m: Media)
    requires job.Ok()
    ensures var ps, qs := Puts(Kept(job, disk, es)), Puts(Kept(job, disk, es + [e]));
      if Revoked(job, disk, job.cap, e.target) then qs == ps
      else qs == ps + [Put(e.target, e.content)] && DoAll(m, qs) == Do(DoAll(m, ps), Put(e.target, e.content))
  {
    hide Kept, Revoked;
    KeptAppend(job, disk, es, [e]);
    KeptOne(job, disk, e);
    var ps, qs := Puts(Kept(job, disk, es)), Puts(Kept(job, disk, es + [e]));
    if Revoked(job, disk, job.cap, e.target) {
      assert Kept(job, disk, es) + [] == Kept(job, disk, es);
    } else {
      assert qs == ps + [Put(e.target, e.content)];
      assert qs[..|ps|] == ps;
    }
  }

  /** Writing outside the journal leaves the log as it was. */
  lemma StillSameLog(env: Env, job: Job, d0: seq<Block>, d: seq<Block>, target: nat, content: Block)
    requires job.Ok() && SameLog(job, d0, d) && target < |d| && Outside(env, job.root, target)
    ensures SameLog(job, d0, d[target := content])
  {
    forall i: nat | i >= job.first ensures JRead(job, d0, i) == JRead(job, d[target := content], i) {
      assert JRead(job, d0, i) == JRead(job, d, i);
    }
  }

  lemma StartTables(job: Job, disk: seq<Block>, bits: seq<Byte>)
    requires job.Ok() && bits == Zeros((job.blocksCount + 7) / 8)
    ensures Commits(job, disk, job.first) == [] && Tracked([]) == [] && Largest([]) == 0
    ensures BitmapIs(job, disk, bits, job.first)
  {
    forall b: nat | b < job.blocksCount ensures !BitAt(bits, b) {
      ZeroBits(b % 8);
    }
  }

  lemma {:induction false} ZeroBits(k: nat)
    ensures !Bit(0, k)
  {
    if k > 0 {
      ZeroBits(k - 1);
    }
  }

  /** One journal block's worth of the bitmap. */
  lemma BitmapStep(job: Job, disk: seq<Block>, bits: seq<Byte>, r: seq<Byte>, i: nat)
    requires job.Ok() && BitmapIs(job, disk, bits, i) && i >= job.first && |r| == |bits|
    requires forall b: nat :: b < job.blocksCount ==> (BitAt(r, b) <==> BitAt(bits, b) || RevokedAt(job, disk, i, b))
    ensures BitmapIs(job, disk, r, i + 1)
  {
    hide RevokedAt, BitAt, Revoked;
    forall b: nat | b < job.blocksCount ensures BitAt(r, b) <==> Revoked(job, disk, i + 1, b) {
      RevokedStep(job, disk, i, b);
    }
  }

  /** A log whose end lies before its first block is empty. */
  lemma PastEnd(job: Job, disk: seq<Block>, i: nat)
    requires job.Ok() && i >= job.cap && (i <= job.cap || i == job.first)
    ensures Commits(job, disk, job.cap) == Commits(job, disk, i)
    ensures forall b: nat :: Revoked(job, disk, job.cap, b) == Revoked(job, disk, i, b)
  {
    hide RevokedAt;
  }

  // ---------------- what is replayed, and what is not ----------------

  /** Entry `w` comes from a tag of the descriptor at journal block `i`, whose transaction committed. */
  ghost predicate FromCommitted(job: Job, disk: seq<Block>, i: nat, w: Entry)
    requires job.Ok()
  {
    && job.first <= i < job.cap && IsRecord(job, disk, i, JT_DESC) && |JRead(job, disk, i).value| == job.blockSize
    && SeqOf(job, disk, i) in Commits(job, disk, job.cap)
    && w in Tags(job, disk, JRead(job, disk, i).value, i + 1, 12)
  }

  lemma {:induction false} LogFromCommitted(job: Job, disk: seq<Block>, i: nat, w: Entry) returns (d: nat)
    requires job.Ok() && i >= job.first && w in LogFrom(job, disk, Tracked(Commits(job, disk, job.cap)), i)
    ensures FromCommitted(job, disk, d, w)
    decreases job.cap - i
  {
    hide Tags, Tracked, Commits, JRead;
    var table := Tracked(Commits(job, disk, job.cap));
    var es := EntriesAt(job, disk, table, i);
    if w in es {
      d := i;
      TrackedBounded(Commits(job, disk, job.cap), SeqOf(job, disk, i));
    } else {
      d := LogFromCommitted(job, disk, i + 1 + |es|, w);
    }
  }

  /** Every block recovery writes is a tag target of a committed transaction and is not revoked anywhere. */
  lemma ReplaySound(job: Job, disk: seq<Block>, k: nat) returns (d: nat)
    requires job.Ok() && k < |Writes(job, disk)|
    ensures FromCommitted(job, disk, d, Writes(job, disk)[k])
    ensures !Revoked(job, disk, job.cap, Writes(job, disk)[k].target)
  {
    hide Revoked, LogFrom, Kept, FromCommitted;
    KeptFromLog(job, disk, Log(job, disk), k);
    d := LogFromCommitted(job, disk, job.first, Writes(job, disk)[k]);
  }

  function SlotAt(job: Job, off: nat, k: nat): nat
    decreases k
  {
    if k == 0 then off else SlotAt(job, off + job.tagSize, k - 1)
  }

  /** The tag loop stops here: end of block or log, the LAST flag, a zero target, or no content. */
  predicate Stops(job: Job, disk: seq<Block>, desc: Block, c: nat, off: nat)
    requires job.Ok() && |desc| == job.blockSize
  {
    off + job.tagSize > job.blockSize || c >= job.cap || GetBe32(desc, off + 4) / 8 % 2 == 1
    || GetBe32(desc, off) == 0 || JRead(job, disk, c).None?
  }

  /** The tags applied are exactly those before the first stop, so the tag carrying LAST is lost. */
  lemma {:induction false} TagsUpToStop(job: Job, disk: seq<Block>, desc: Block, c: nat, off: nat, k: nat)
    requires job.Ok() && JobDisk(job, disk) && |desc| == job.blockSize && k <= |Tags(job, disk, desc, c, off)|
    ensures Stops(job, disk, desc, c + k, SlotAt(job, off, k)) <==> k == |Tags(job, disk, desc, c, off)|
    decreases k
  {
    hide JRead;
    if JRead(job, disk, c).Some? {
      JReadSize(job, disk, c);
    }
    if k > 0 {
      TagsUpToStop(job, disk, desc, c + 1, off + job.tagSize, k - 1);
    }
  }
}
