/** The allocator itself: its region, the head of its free list and its statistics. */
module KernelHeap {
  import opened Bytes
  import opened HeapModel
  import opened HeapSteps
  import opened Heap
  import opened HeapWrap

  /** A pointer, as its distance from the (sixteen-aligned) base of the heap. */
  datatype Ptr = Null | At(rel: int)

  /** The header offset kfree computes for a pointer, in 32 bits. */
  function OffOf(p: Ptr): nat
    requires p.At?
  {
    (p.rel - HDR) % U32
  }

  /** The bytes at `off` read as the header of a block in use. */
  predicate LooksUsed(mem: seq<Byte>, off: nat) {
    off + HDR <= |mem| && HdrAt(mem, off).magic == MAGIC_USED && HdrAt(mem, off).used != 0
  }

  /** kfree turns the pointer away: out of the region, beyond 2^31, or no used header there. */
  predicate Refuses(mem: seq<Byte>, p: Ptr) {
    p.At? && (OffOf(p) >= 0x8000_0000 || OffOf(p) >= |mem| || !LooksUsed(mem, OffOf(p)))
  }

  ghost predicate LiveAt(bs: seq<Blk>, off: nat, i: nat) {
    i < |bs| && bs[i].used && bs[i].off == off
  }

  /** What may be passed to kfree: header bytes inside the region, and no forged used header. */
  ghost predicate Freeable(mem: seq<Byte>, bs: seq<Blk>, p: Ptr) {
    p.At? && !(OffOf(p) >= 0x8000_0000 || OffOf(p) >= |mem|) ==>
      && OffOf(p) + HDR <= |mem|
      && (LooksUsed(mem, OffOf(p)) ==> exists i :: LiveAt(bs, OffOf(p), i))
  }

  // ---------------- walking the free list ----------------

  /** The list is at block index `i`: `prev` is the last free block before it, `cur` the first from it on. */
  ghost predicate Cursor(bs: seq<Blk>, i: nat, prev: nat, cur: nat) {
    i <= |bs| && prev == Last(Before(bs, i)) && cur == First(FreeOffs(bs[i..]), END)
  }

  lemma CursorStart(bs: seq<Blk>)
    ensures Cursor(bs, 0, END, First(FreeOffs(bs), END))
  {
    assert bs[..0] == [] && bs[0..] == bs;
  }

  /** The block index of the free block the cursor points at. */
  lemma {:induction false} CursorBlock(bs: seq<Blk>, n: nat, i: nat, prev: nat, cur: nat) returns (k: nat)
    requires Tiles(bs, 0, n) && n < END && Cursor(bs, i, prev, cur) && cur != END
    ensures i <= k < |bs| && !bs[k].used && bs[k].off == cur && Cursor(bs, k, prev, cur)
    ensures forall j :: i <= j < k ==> bs[j].used
    decreases |bs| - i
  {
    hide Tiles;
    assert bs[|bs|..] == [];
    assert bs[i..][0] == bs[i] && bs[i..][1..] == bs[i + 1..];
    if !bs[i].used {
      k := i;
    } else {
      BeforeStep(bs, i);
      k := CursorBlock(bs, n, i + 1, prev, cur);
    }
  }

  lemma BeforeStep(bs: seq<Blk>, i: nat)
    requires i < |bs|
    ensures Before(bs, i + 1) == if bs[i].used then Before(bs, i) else Before(bs, i) + [bs[i].off]
  {
    assert bs[..i + 1] == bs[..i] + [bs[i]];
    FreeOffsAppend(bs[..i], [bs[i]]);
  }

  /** Following the link of the block under the cursor. */
  lemma CursorNext(mem: seq<Byte>, bs: seq<Blk>, k: nat, prev: nat, cur: nat)
    requires Tiles(bs, 0, |mem|) && |mem| < END && Seg(mem, FreeOffs(bs), END) && k < |bs| && !bs[k].used
    requires Cursor(bs, k, prev, cur) && bs[k].off == cur
    ensures cur + HDR <= |mem| && Cursor(bs, k + 1, cur, HdrAt(mem, cur).next)
  {
    hide Tiles, Seg, HdrAt, FreeOffs;
    BeforeStep(bs, k);
    ListAroundFree(mem, bs, First(FreeOffs(bs), END), k);
  }

  // ---------------- more frames ----------------

  lemma GiveKeeps(mem: seq<Byte>, prev: nat, c: nat, next: nat, b: Blk)
    requires c + HDR <= |mem| && b.End() <= |mem| && (c + HDR <= b.off || b.End() <= c) && next < U32 && c < U32
    requires prev == END || (prev + HDR <= |mem| && (prev + HDR <= b.off || b.End() <= prev))
    ensures Kept(mem, GiveMem(mem, prev, c, next), b)
  {
    hide PutHdr, HdrAt;
    HdrAtFits(mem, c);
    var m := PutHdr(mem, c, HdrAt(mem, c).(magic := MAGIC_FREE, used := 0, next := next));
    if prev != END {
      HdrAtFits(m, prev);
    }
    PayloadKept(mem, GiveMem(mem, prev, c, next), b, c, if prev == END then c else prev);
  }

  /** Nor is the payload of the block being freed overwritten by the header writes. */
  lemma GiveKeepsOwn(mem: seq<Byte>, prev: nat, c: nat, next: nat, b: Blk)
    requires b.off == c && b.End() <= |mem| && next < U32 && c < U32
    requires prev == END || prev + HDR <= c
    ensures Kept(mem, GiveMem(mem, prev, c, next), b)
  {
    hide PutHdr, HdrAt;
    HdrAtFits(mem, c);
    var m := PutHdr(mem, c, HdrAt(mem, c).(magic := MAGIC_FREE, used := 0, next := next));
    if prev != END {
      HdrAtFits(m, prev);
    }
    PayloadKept(mem, GiveMem(mem, prev, c, next), b, c, if prev == END then c else prev);
  }

  lemma JoinKeeps(mem: seq<Byte>, c: nat, n: nat, b: Blk)
    requires c + HDR <= |mem| && n + HDR <= |mem| && HdrAt(mem, c).size + HDR + HdrAt(mem, n).size < U32
    requires b.End() <= |mem| && (c <= b.off || b.End() <= c)
    ensures Kept(mem, JoinMem(mem, c, n), b)
  {
    hide PutHdr, HdrAt;
    HdrAtFits(mem, c);
    HdrAtFits(mem, n);
    PayloadKept(mem, JoinMem(mem, c, n), b, c, c);
  }

  /** Joining changes no header's magic or use. */
  lemma JoinMagic(mem: seq<Byte>, c: nat, n: nat, o: nat)
    requires c + HDR <= |mem| && n + HDR <= |mem| && HdrAt(mem, c).size + HDR + HdrAt(mem, n).size < U32
    requires o + HDR <= |mem| && c % 16 == 0 && o % 16 == 0
    ensures HdrAt(JoinMem(mem, c, n), o).magic == HdrAt(mem, o).magic
    ensures HdrAt(JoinMem(mem, c, n), o).used == HdrAt(mem, o).used
  {
    hide PutHdr, HdrAt;
    HdrAtFits(mem, c);
    HdrAtFits(mem, n);
    var h := HdrAt(mem, c).(size := HdrAt(mem, c).size + HDR + HdrAt(mem, n).size, next := HdrAt(mem, n).next);
    PutHdrReads(mem, c, h);
    if o != c {
      PutHdrOther(mem, c, h, o);
    }
  }

  lemma KeptTwice(a: seq<Byte>, b: seq<Byte>, c: seq<Byte>, x: Blk)
    requires Kept(a, b, x) && Kept(b, c, x)
    ensures Kept(a, c, x)
  {
  }

  /** Every block in use stays in use with the same bytes. */
  ghost predicate AllKept(mem: seq<Byte>, r: seq<Byte>, bs: seq<Blk>, rs: seq<Blk>, except: nat) {
    forall k :: 0 <= k < |bs| && k != except && bs[k].used ==> bs[k] in rs && Kept(mem, r, bs[k])
  }

  /** The lowest block that fits was taken, and the payload handed out starts at `rel`. */
  ghost predicate TakenFirstFit(bs: seq<Blk>, rs: seq<Blk>, need: nat, rel: int) {
    exists i: nat :: FirstFit(bs, need, i) && rel == bs[i].off + HDR && rs == Carved(bs, i, need)
  }

  /** Everything one allocation does to bytes, blocks and sums. */
  lemma AllocStep(mem: seq<Byte>, bs: seq<Blk>, head: nat, i: nat, need: nat)
    requires Rep(mem, bs, head) && NoAdjacentFree(bs) && FirstFit(bs, need, i) && need % 16 == 0 && HDR <= |mem|
    ensures var c, prev, rs := bs[i].off, Last(Before(bs, i)), Carved(bs, i, need);
      && c + HDR <= |mem| < END && (prev == END || prev + HDR <= |mem|) && c + HDR + HdrAt(mem, c).size <= |mem|
      && var m := AllocMem(mem, prev, c, need);
         && Rep(m, rs, Unlinked(head, prev, if need + HDR + 16 <= HdrAt(mem, c).size
                                            then HdrAt(SplitMem(mem, c, need), c).next else HdrAt(mem, c).next))
         && NoAdjacentFree(rs) && UsedSum(rs) == UsedSum(bs) + HdrAt(m, c).size && UsedSum(rs) + HDR <= |mem|
         && AllKept(mem, m, bs, rs, |bs|) && TakenFirstFit(bs, rs, need, c + HDR)
  {
    hide Rep, HdrAt, AllocMem, Carved, Before, Last, AllKept, NoAdjacentFree, SplitMem, Split2, UsedSum, FreeSum, Neighbours;
    AllocRep(mem, bs, head, i, need);
    AllocAll(mem, bs, head, i, need);
    CarvedNoAdjacent(bs, i, need);
    CarvedSum(bs, i, need);
    if Splits(bs[i], need) {
      SplitFacts(mem, bs, head, i, need);
    }
    var c, prev, rs := bs[i].off, Last(Before(bs, i)), Carved(bs, i, need);
    var m := AllocMem(mem, prev, c, need);
    var h := Unlinked(head, prev, if Splits(bs[i], need) then c + HDR + need else HdrAt(mem, c).next);
    RepBlock(m, rs, h, i);
    UsedBound(m, rs, h);
  }

  lemma AllocAll(mem: seq<Byte>, bs: seq<Blk>, head: nat, i: nat, need: nat)
    requires Rep(mem, bs, head) && i < |bs| && Fits(bs[i], need) && need % 16 == 0
    ensures var c, prev := bs[i].off, Last(Before(bs, i));
      && bs[i].End() <= |mem| < END && (prev == END || prev + HDR <= |mem|) && HdrAt(mem, c).size == bs[i].size
      && AllKept(mem, AllocMem(mem, prev, c, need), bs, Carved(bs, i, need), |bs|)
  {
    hide Rep, HdrAt, AllocMem, Carved, FreeOffs, Kept;
    RepBlock(mem, bs, head, i);
    var c, prev := bs[i].off, Last(Before(bs, i));
    forall k | 0 <= k < |bs| && bs[k].used
      ensures bs[k] in Carved(bs, i, need) && Kept(mem, AllocMem(mem, prev, c, need), bs[k])
    {
      AllocKeeps(mem, bs, head, i, need, k);
    }
  }

  lemma AllKeptTwice(a: seq<Byte>, b: seq<Byte>, c: seq<Byte>, x: seq<Blk>, y: seq<Blk>, z: seq<Blk>, except: nat)
    requires AllKept(a, b, x, y, except) && AllKept(b, c, y, z, |y|)
    ensures AllKept(a, c, x, z, except)
  {
    hide Kept;
    forall k | 0 <= k < |x| && k != except && x[k].used ensures x[k] in z && Kept(a, c, x[k]) {
      var m :| 0 <= m < |y| && y[m] == x[k];
      KeptTwice(a, b, c, x[k]);
    }
  }

  /** Skipping blocks in use does not move the cursor. */
  lemma {:induction false} CursorSkip(bs: seq<Blk>, i: nat, k: nat, prev: nat, cur: nat)
    requires Cursor(bs, i, prev, cur) && i <= k <= |bs| && forall j :: i <= j < k ==> bs[j].used
    ensures Cursor(bs, k, prev, cur)
    decreases k - i
  {
    if i < k {
      assert bs[i..][0] == bs[i] && bs[i..][1..] == bs[i + 1..];
      BeforeStep(bs, i);
      CursorSkip(bs, i + 1, k, prev, cur);
    }
  }

  lemma CursorAtUsed(bs: seq<Blk>, i: nat, prev: nat, cur: nat)
    requires Cursor(bs, i, prev, cur) && i < |bs| && bs[i].used
    ensures prev == Last(Before(bs, i)) && cur == First(After(bs, i), END)
  {
    assert bs[i..][0] == bs[i] && bs[i..][1..] == bs[i + 1..];
  }

  lemma PutHdrTwice(mem: seq<Byte>, off: nat, g: Header, h: Header)
    requires off + HDR <= |mem| && HdrFits(g) && HdrFits(h)
    ensures PutHdr(PutHdr(mem, off, g), off, h) == PutHdr(mem, off, h)
  {
    var a, b := PutHdr(PutHdr(mem, off, g), off, h), PutHdr(mem, off, h);
    assert forall j :: off <= j < off + HDR ==> a[j] == b[j];
  }

  lemma GiveAll(mem: seq<Byte>, bs: seq<Blk>, head: nat, i: nat)
    requires Rep(mem, bs, head) && i < |bs| && bs[i].used
    ensures var c, prev, next := bs[i].off, Last(Before(bs, i)), First(After(bs, i), END);
      && c + HDR <= |mem| < END && (prev == END || prev + HDR <= |mem|) && next < U32
      && AllKept(mem, GiveMem(mem, prev, c, next), bs, bs[i := bs[i].(used := false)], i)
  {
    hide HdrAt, FreeOffs, GiveMem, Rep;
    RepBlock(mem, bs, head, i);
    RepApart(mem, bs, head);
    var c, prev, next := bs[i].off, Last(Before(bs, i)), First(After(bs, i), END);
    var g := bs[i := bs[i].(used := false)];
    forall k | 0 <= k < |bs| && k != i && bs[k].used ensures bs[k] in g && Kept(mem, GiveMem(mem, prev, c, next), bs[k]) {
      assert g[k] == bs[k];
      RepBlock(mem, bs, head, k);
      PrevIsFree(mem, bs, head, i, k);
      GiveKeeps(mem, prev, c, next, bs[k]);
    }
  }

  lemma JoinAll(mem: seq<Byte>, bs: seq<Blk>, head: nat, i: nat)
    requires Rep(mem, bs, head) && i + 1 < |bs| && !bs[i].used && !bs[i + 1].used
    ensures var c, n := bs[i].off, bs[i + 1].off;
      && n + HDR <= |mem| < END && c + HDR <= |mem| && HdrAt(mem, c).size + HDR + HdrAt(mem, n).size < U32
      && AllKept(mem, JoinMem(mem, c, n), bs, Joined(bs, i), |bs|)
  {
    hide HdrAt, FreeOffs, JoinMem, Rep, Joined;
    Join(mem, bs, head, i);
    RepApart(mem, bs, head);
    RepBlock(mem, bs, head, i);
    var c, n := bs[i].off, bs[i + 1].off;
    forall k | 0 <= k < |bs| && bs[k].used ensures bs[k] in Joined(bs, i) && Kept(mem, JoinMem(mem, c, n), bs[k]) {
      RepBlock(mem, bs, head, k);
      JoinedKeeps(bs, i, k);
      JoinKeeps(mem, c, n, bs[k]);
    }
  }

  /** The headers at `off` say the same about magic and use. */
  ghost predicate SameMark(mem: seq<Byte>, r: seq<Byte>, off: nat) {
    off + HDR <= |mem| == |r| && HdrAt(r, off).magic == HdrAt(mem, off).magic && HdrAt(r, off).used == HdrAt(mem, off).used
  }

  const POISON: Byte := 0xA5

  // ---------------- one request, whatever its size ----------------

  /** The first free block has room to be split when the wrapped sums say so. */
  ghost predicate Splittable(bs: seq<Blk>) {
    exists i: nat :: FirstFree(bs, 0, i) && bs[i].size >= 16
  }

  /** What an allocation that does not wrap gives: the first block that fits, or nothing because none
      does; every block in use stays as it was. */
  ghost predicate Served(mem: seq<Byte>, r: seq<Byte>, bs: seq<Blk>, rs: seq<Blk>, size: nat, p: Ptr) {
    && AllKept(mem, r, bs, rs, |bs|)
    && (p.At? ==> TakenFirstFit(bs, rs, AlignUp(size), p.rel))
    && (p.Null? && size > 0 ==> r == mem && rs == bs && forall j :: 0 <= j < |bs| ==> !Fits(bs[j], AlignUp(size)))
  }

  lemma NotServed(mem: seq<Byte>, bs: seq<Blk>, head: nat, size: nat)
    requires Rep(mem, bs, head) && size < U32
    requires size > 0 ==> forall j :: 0 <= j < |bs| ==> bs[j].used || bs[j].size < (AlignUp(size) + HDR) % U32
    ensures !SumWraps(size) ==> Served(mem, mem, bs, bs, size, Null)
    ensures SumWraps(size) ==> !Splittable(bs)
  {
    hide Rep, AllKept;
    KeepSelf(mem, bs, head, |bs|);
    AlignUpExact(size);
    hide AlignUp;
  }

  /** The blocks once block `i` is taken. */
  ghost function TakenBlocks(bs: seq<Blk>, i: nat, size: nat): (r: seq<Blk>)
    requires size < U32 && FirstFree(bs, (AlignUp(size) + HDR) % U32, i)
  {
    AlignUpExact(size);
    if SumWraps(size) then bs[i := bs[i].(used := true)] else Carved(bs, i, AlignUp(size))
  }

  lemma OnlyFirstFree(bs: seq<Blk>, i: nat)
    requires FirstFree(bs, 0, i)
    ensures Splittable(bs) <==> bs[i].size >= 16
  {
    forall j: nat | FirstFree(bs, 0, j) ensures j == i {
    }
  }

  /** What the writes for block `i` leave, whatever the size asked for. */
  lemma TakeStep(mem: seq<Byte>, bs: seq<Blk>, head: nat, i: nat, size: nat)
    requires Rep(mem, bs, head) && NoAdjacentFree(bs) && 0 < size < U32 && HDR <= |mem|
    requires FirstFree(bs, (AlignUp(size) + HDR) % U32, i)
    ensures var need, c, prev, rs := AlignUp(size), bs[i].off, Last(Before(bs, i)), TakenBlocks(bs, i, size);
      && CarveOk(mem, prev, c, need)
      && var r, newHead := Alloc32(mem, prev, c, need), Head32(mem, head, prev, c, need);
         && c + HDR <= |r| == |mem| < END
         && (if SumWraps(size) && Splittable(bs) then Broken(r, newHead)
             else Rep(r, rs, newHead) && NoAdjacentFree(rs) && UsedSum(rs) == UsedSum(bs) + HdrAt(r, c).size
                  && UsedSum(rs) + HDR <= |mem|)
         && (!SumWraps(size) ==> Served(mem, r, bs, rs, size, At(c + HDR)))
  {
    hide Rep, HdrAt, NoAdjacentFree, UsedSum, Alloc32, Head32, AllKept, Broken, AllocMem, Before, Last, AlignUp, TakenFirstFit,
         Carved, SplitMem;
    var need, c, prev := AlignUp(size), bs[i].off, Last(Before(bs, i));
    AlignUpExact(size);
    RepBlock(mem, bs, head, i);
    if !SumWraps(size) {
      AllocStep(mem, bs, head, i, need);
      Alloc32Is(mem, head, prev, c, need);
    } else {
      OnlyFirstFree(bs, i);
      UsedBound(mem, bs, head);
      if bs[i].size >= 16 {
        WrapBreaks(mem, bs, head, i, need);
      } else {
        WrapHarmless(mem, bs, head, i, need);
      }
    }
  }

  // ---------------- the allocator ----------------

  class KHeap {
    var mem: seq<Byte>
    var freeHead: nat
    var totalBytes: nat
    var usedBytes: nat
    var freeBytes: nat
    var highWater: nat
    var allocCount: nat
    var freeCount: nat
    var errors: nat
    ghost var blocks: seq<Blk>

    ghost predicate Valid()
      reads this
    {
      && Rep(mem, blocks, freeHead) && NoAdjacentFree(blocks)
      && HDR <= |mem| && totalBytes == |mem| - HDR
      && usedBytes == UsedSum(blocks) && usedBytes + freeBytes == totalBytes && usedBytes <= highWater
    }

    /** heap_init over a region whose base and size are multiples of sixteen. */
    constructor (region: seq<Byte>)
      requires HDR <= |region| < U32 && |region| % 16 == 0
      ensures Valid() && blocks == [Blk(0, |region| - HDR, false)]
      ensures usedBytes == 0 && freeBytes == |region| - HDR && errors == 0
    {
      var h := Header(MAGIC_FREE, |region| - HDR, END, 0);
      mem := PutHdr(region, 0, h);
      freeHead := 0;
      totalBytes, freeBytes := |region| - HDR, |region| - HDR;
      usedBytes, highWater, allocCount, freeCount, errors := 0, 0, 0, 0, 0;
      blocks := [Blk(0, |region| - HDR, false)];
      new;
      InitRep(region);
    }

    /** The search of kmalloc: the first free block large enough, and its list predecessor. */
    method FindFit(want: nat) returns (found: bool, prev: nat, cur: nat, ghost i: nat)
      requires Valid()
      ensures found ==> FirstFree(blocks, want, i) && blocks[i].off == cur && prev == Last(Before(blocks, i))
      ensures !found ==> forall j :: 0 <= j < |blocks| ==> blocks[j].used || blocks[j].size < want
    {
      hide HdrAt, Tiles, Seg, FreeOffs;
      prev, cur, i := END, freeHead, 0;
      CursorStart(blocks);
      while cur != END
        invariant Cursor(blocks, i, prev, cur)
        invariant forall j :: 0 <= j < i ==> blocks[j].used || blocks[j].size < want
        decreases |blocks| - i
      {
        ghost var k := CursorBlock(blocks, |mem|, i, prev, cur);
        RepBlock(mem, blocks, freeHead, k);
        if HdrAt(mem, cur).size >= want {
          i := k;
          return true, prev, cur, i;
        }
        CursorNext(mem, blocks, k, prev, cur);
        prev := cur;
        cur := HdrAt(mem, cur).next;
        i := k + 1;
      }
      NothingLeft(blocks, |mem|, i, prev);
      return false, prev, cur, i;
    }

    /** The header writes of kmalloc, in order and in 32 bits: split, unlink, mark. */
    method Carve(prev: nat, cur: nat, need: nat) returns (size: nat)
      requires CarveOk(mem, prev, cur, need)
      modifies `mem, `freeHead
      ensures mem == Alloc32(old(mem), prev, cur, need) && freeHead == Head32(old(mem), old(freeHead), prev, cur, need)
      ensures size == HdrAt(mem, cur).size < U32
    {
      hide PutHdr, HdrAt;
      HdrAtFits(mem, cur);
      var h := HdrAt(mem, cur);
      if h.size >= (need + HDR + 16) % U32 {
        RestFits(mem, prev, cur, need);
        var newOff := (cur + HDR + need) % U32;
        mem := PutHdr(mem, newOff, Header(MAGIC_FREE, (h.size - need - HDR) % U32, h.next, 0));
        HdrAtFits(mem, cur);
        mem := PutHdr(mem, cur, HdrAt(mem, cur).(size := need, next := newOff));
      }
      HdrAtFits(mem, cur);
      var next := HdrAt(mem, cur).next;
      if prev == END {
        freeHead := next;
      } else {
        mem := SetNext(mem, prev, next);
      }
      HdrAtFits(mem, cur);
      mem := PutHdr(mem, cur, HdrAt(mem, cur).(used := 1, magic := MAGIC_USED));
      HdrAtFits(mem, cur);
      size := HdrAt(mem, cur).size;
    }

    /** kmalloc: the lowest free block of at least the rounded size plus a header is taken, its
        remainder split off when it can stand alone; without one only the error count moves. The
        sixteen sizes whose header sum wraps break the heap, unless the first free block is empty
        or there is none. */
    method KMalloc(size: nat) returns (p: Ptr)
      requires Valid() && size < U32
      modifies this
      ensures |mem| == |old(mem)| && totalBytes == old(totalBytes)
      ensures if SumWraps(size) && Splittable(old(blocks)) then p.At? && Broken(mem, freeHead) else Valid()
      ensures !SumWraps(size) ==> Served(old(mem), mem, old(blocks), blocks, size, p)
      ensures !SumWraps(size) ==> highWater == if usedBytes > old(highWater) then usedBytes else old(highWater)
      ensures p.At? ==> allocCount == (old(allocCount) + 1) % U32 && errors == old(errors) && freeCount == old(freeCount)
      ensures size == 0 ==> p == Null && unchanged(this)
      ensures p.Null? && size > 0 ==>
                && errors == (old(errors) + 1) % U32
                && unchanged(this`mem, this`blocks, this`freeHead, this`usedBytes, this`freeBytes, this`allocCount)
                && unchanged(this`freeCount, this`highWater)
    {
      hide HdrAt, FreeOffs, Rep, NoAdjacentFree, UsedSum, Alloc32, Head32, Served, CarveOk, Broken, AlignUp, FirstFree,
           TakenBlocks, Splittable, SumWraps, Before, Last, Tiles;
      if size == 0 {
        NotServed(mem, blocks, freeHead, size);
        return Null;
      }
      AlignUpExact(size);
      var need := AlignUp(size);
      var found, prev, cur, i := FindFit((need + HDR) % U32);
      if !found {
        NotServed(mem, blocks, freeHead, size);
        errors := (errors + 1) % U32;
        return Null;
      }
      TakeFound(prev, cur, i, size);
      return At(cur + HDR);
    }

    /** The part of kmalloc from the block found on. */
    method TakeFound(prev: nat, cur: nat, ghost i: nat, size: nat)
      requires Valid() && 0 < size < U32 && FirstFree(blocks, (AlignUp(size) + HDR) % U32, i)
      requires cur == blocks[i].off && prev == Last(Before(blocks, i))
      modifies this
      ensures |mem| == |old(mem)| && totalBytes == old(totalBytes)
      ensures if SumWraps(size) && Splittable(old(blocks)) then Broken(mem, freeHead) else Valid()
      ensures !SumWraps(size) ==> Served(old(mem), mem, old(blocks), blocks, size, At(cur + HDR))
      ensures highWater == if usedBytes > old(highWater) then usedBytes else old(highWater)
      ensures allocCount == (old(allocCount) + 1) % U32 && errors == old(errors) && freeCount == old(freeCount)
    {
      hide HdrAt, FreeOffs, Rep, NoAdjacentFree, UsedSum, Alloc32, Head32, Served, CarveOk, Broken, AlignUp, FirstFree,
           TakenBlocks, Splittable, SumWraps, Before, Last, Tiles;
      ghost var rs := TakenBlocks(blocks, i, size);
      TakeStep(mem, blocks, freeHead, i, size);
      AlignUpExact(size);
      var got := Carve(prev, cur, AlignUp(size));
      blocks := rs;
      Account(got);
    }

    /** The statistics of a successful allocation. */
    method Account(got: nat)
      modifies `usedBytes, `freeBytes, `allocCount, `highWater
      ensures usedBytes == (old(usedBytes) + got) % U32 && freeBytes == (old(freeBytes) - got) % U32
      ensures allocCount == (old(allocCount) + 1) % U32
      ensures highWater == if usedBytes > old(highWater) then usedBytes else old(highWater)
    {
      usedBytes := (usedBytes + got) % U32;
      freeBytes := (freeBytes - got) % U32;
      allocCount := (allocCount + 1) % U32;
      if usedBytes > highWater {
        highWater := usedBytes;
      }
    }

    /** The walk of kfree: the free blocks on either side of a block that is not on the list. */
    method FindPlace(off: nat, ghost i: nat) returns (prev: nat, walk: nat)
      requires |mem| < END && Tiles(blocks, 0, |mem|) && LiveAt(blocks, off, i)
      requires freeHead == First(FreeOffs(blocks), END) && Seg(mem, FreeOffs(blocks), END)
      ensures prev == Last(Before(blocks, i)) && walk == First(After(blocks, i), END)
    {
      hide HdrAt, Tiles, Seg, FreeOffs;
      prev, walk := END, freeHead;
      ghost var g := 0;
      CursorStart(blocks);
      OffsAligned(blocks, |mem|);
      while walk != END && walk < off
        invariant Cursor(blocks, g, prev, walk) && g <= i
        decreases |blocks| - g
      {
        ghost var k := CursorBlock(blocks, |mem|, g, prev, walk);
        assert k < i;
        CursorNext(mem, blocks, k, prev, walk);
        prev := walk;
        walk := HdrAt(mem, walk).next;
        g := k + 1;
      }
      if walk == END {
        NothingLeft(blocks, |mem|, g, prev);
      } else {
        ghost var k := CursorBlock(blocks, |mem|, g, prev, walk);
        assert i < k;
      }
      CursorSkip(blocks, g, i, prev, walk);
      CursorAtUsed(blocks, i, prev, walk);
    }

    /** Marking a block free and linking it into the list by offset. */
    method Insert(off: nat, ghost i: nat) returns (prev: nat)
      requires Rep(mem, blocks, freeHead) && LiveAt(blocks, off, i)
      modifies `mem, `freeHead, `blocks
      ensures blocks == old(blocks)[i := old(blocks)[i].(used := false)] && Rep(mem, blocks, freeHead)
      ensures prev == Last(Before(blocks, i)) && AllKept(old(mem), mem, old(blocks), blocks, i) && |mem| == |old(mem)|
      ensures Kept(old(mem), mem, old(blocks)[i])
    {
      hide HdrAt, PutHdr, AllHeaders, Tiles, Seg, FreeOffs, AllKept;
      ghost var m, bs, head := mem, blocks, freeHead;
      RepBlock(mem, blocks, freeHead, i);
      Give(m, bs, head, i);
      GiveAll(m, bs, head, i);
      TilesUpdate(bs, |m|, i, false);
      HdrAtFits(mem, off);
      var h := HdrAt(mem, off).(magic := MAGIC_FREE, used := 0);
      mem := PutHdr(mem, off, h);
      FreeOffsRange(bs, |m|, i);
      SegPut(m, FreeOffs(bs), END, off, h);
      var walk: nat;
      prev, walk := FindPlace(off, i);
      PutHdrReads(m, off, h);
      mem := PutHdr(mem, off, HdrAt(mem, off).(next := walk));
      PutHdrTwice(m, off, h, h.(next := walk));
      if prev == END {
        freeHead := off;
      } else {
        mem := SetNext(mem, prev, off);
      }
      blocks := bs[i := bs[i].(used := false)];
      assert mem == GiveMem(m, prev, off, walk);
      GiveKeepsOwn(m, prev, off, walk, bs[i]);
    }

    /** Absorbing the block into the free one right before it. */
    method MergeBack(prev: nat, off: nat, ghost i: nat, ghost own: Blk) returns (cur: nat)
      requires Rep(mem, blocks, freeHead) && i < |blocks| && !blocks[i].used && blocks[i].off == off
      requires prev == Last(Before(blocks, i)) && own.off == off && own.End() <= |mem|
      modifies `mem, `blocks
      ensures blocks == JoinBack(old(blocks), i) && Rep(mem, blocks, freeHead)
      ensures BackIndex(old(blocks), i) < |blocks| && !blocks[BackIndex(old(blocks), i)].used
      ensures cur == blocks[BackIndex(old(blocks), i)].off <= off && Kept(old(mem), mem, own)
      ensures AllKept(old(mem), mem, old(blocks), blocks, |old(blocks)|) && SameMark(old(mem), mem, off)
    {
      hide HdrAt, PutHdr, Rep, FreeOffs, AllKept, Joined, Before;
      BackAdjacent(mem, blocks, freeHead, i);
      KeepSelf(mem, blocks, freeHead, |blocks|);
      RepBlock(mem, blocks, freeHead, i);
      cur := off;
      if prev != END && prev + HDR + HdrAt(mem, prev).size == off {
        ghost var m, bs := mem, blocks;
        RepBlock(mem, blocks, freeHead, i - 1);
        Join(m, bs, freeHead, i - 1);
        JoinAll(m, bs, freeHead, i - 1);
        JoinMagic(m, prev, off, off);
        JoinKeeps(m, prev, off, own);
        JoinedAt(bs, i - 1);
        HdrAtFits(mem, prev);
        HdrAtFits(mem, off);
        mem := PutHdr(mem, prev, HdrAt(mem, prev).(size := HdrAt(mem, prev).size + HDR + HdrAt(mem, off).size,
                                                   next := HdrAt(mem, off).next));
        blocks := Joined(bs, i - 1);
        cur := prev;
      }
    }

    /** Absorbing the free block right behind. */
    method MergeFront(cur: nat, ghost j: nat, ghost off: nat, ghost own: Blk)
      requires Rep(mem, blocks, freeHead) && j < |blocks| && !blocks[j].used && blocks[j].off == cur
      requires off + HDR <= |mem| && off % 16 == 0 && cur <= own.off && own.End() <= |mem|
      modifies `mem, `blocks
      ensures blocks == JoinFront(old(blocks), j) && Rep(mem, blocks, freeHead) && Kept(old(mem), mem, own)
      ensures AllKept(old(mem), mem, old(blocks), blocks, |old(blocks)|) && SameMark(old(mem), mem, off)
    {
      hide HdrAt, PutHdr, Rep, FreeOffs, AllKept, Joined, Before;
      FrontAdjacent(mem, blocks, freeHead, j);
      KeepSelf(mem, blocks, freeHead, |blocks|);
      RepBlock(mem, blocks, freeHead, j);
      var h := HdrAt(mem, cur);
      if cur + HDR + h.size == h.next && h.next != END {
        var n := HdrAt(mem, h.next);
        if n.magic == MAGIC_FREE && n.used == 0 {
          ghost var m, bs := mem, blocks;
          Join(m, bs, freeHead, j);
          JoinAll(m, bs, freeHead, j);
          JoinMagic(m, cur, h.next, off);
          JoinKeeps(m, cur, h.next, own);
          HdrAtFits(mem, cur);
          HdrAtFits(mem, h.next);
          mem := PutHdr(mem, cur, h.(size := h.size + HDR + n.size, next := n.next));
          blocks := Joined(bs, j);
        }
      }
    }

    /** Poisoning a live block, putting it back on the list and joining it with its neighbours. */
    method Release(off: nat, size: nat, ghost i: nat)
      requires Rep(mem, blocks, freeHead) && NoAdjacentFree(blocks) && LiveAt(blocks, off, i) && size == blocks[i].size
      modifies `mem, `freeHead, `blocks
      ensures Rep(mem, blocks, freeHead) && NoAdjacentFree(blocks) && |mem| == |old(mem)|
      ensures UsedSum(old(blocks)) == UsedSum(blocks) + size
      ensures FreedLive(old(mem), mem, old(blocks), blocks, off) && !LooksUsed(mem, off)
      ensures old(blocks)[i].End() <= |mem| && forall b :: b in Payload(mem, old(blocks)[i]) ==> b == POISON
    {
      hide HdrAt, PutHdr, Rep, FreeOffs, AllKept, UsedSum, NoAdjacentFree, Released, JoinBack, JoinFront, Kept;
      ghost var bs, m := blocks, mem;
      RepBlock(mem, bs, freeHead, i);
      mem := Patch(mem, off + HDR, seq(size, _ => POISON));
      PayloadWritten(m, mem, bs, freeHead, i);
      KeptExcept(m, mem, bs, i);
      ghost var poisoned := mem;
      var prev := Insert(off, i);
      ghost var g, mg := blocks, mem;
      AllKeptFrom(m, poisoned, mem, bs, g, i);
      RepBlock(mem, g, freeHead, i);
      var cur := MergeBack(prev, off, i, bs[i]);
      AllKeptTwice(m, mg, mem, bs, g, blocks, i);
      ghost var b, mb := blocks, mem;
      MergeFront(cur, BackIndex(g, i), off, bs[i]);
      AllKeptTwice(m, mb, mem, bs, b, blocks, i);
      ReleasedIs(bs, i);
      ReleasedNoAdjacent(bs, i);
      ReleasedSum(bs, i);
      KeptTwice(poisoned, mg, mb, bs[i]);
      KeptTwice(poisoned, mb, mem, bs[i]);
      PayloadIs(poisoned, mem, bs[i], seq(size, _ => POISON));
    }

    /** kfree: a pointer it does not recognise only counts as an error; a live one is released. */
    method KFree(p: Ptr)
      requires Valid() && Freeable(mem, blocks, p)
      modifies this
      ensures Valid() && |mem| == |old(mem)| && totalBytes == old(totalBytes)
      ensures p == Null ==> unchanged(this)
      ensures Refuses(old(mem), p) ==>
                && errors == (old(errors) + 1) % U32
                && unchanged(this`mem, this`blocks, this`freeHead, this`usedBytes, this`freeBytes, this`freeCount)
      ensures p.At? && !Refuses(old(mem), p) ==>
                && FreedLive(old(mem), mem, old(blocks), blocks, OffOf(p))
                && !LooksUsed(mem, OffOf(p))
                && freeCount == (old(freeCount) + 1) % U32 && errors == old(errors)
      ensures allocCount == old(allocCount) && highWater == old(highWater)
    {
      hide HdrAt, Rep, FreedLive, UsedSum, NoAdjacentFree;
      if p == Null {
        return;
      }
      var off := OffOf(p);
      if off >= 0x8000_0000 || off >= |mem| {
        errors := (errors + 1) % U32;
        return;
      }
      var h := HdrAt(mem, off);
      if h.magic != MAGIC_USED || h.used == 0 {
        errors := (errors + 1) % U32;
        return;
      }
      ghost var i: nat :| LiveAt(blocks, off, i);
      RepBlock(mem, blocks, freeHead, i);
      Release(off, h.size, i);
      usedBytes := usedBytes - h.size;
      freeBytes := freeBytes + h.size;
      freeCount := (freeCount + 1) % U32;
    }

    /** krealloc: a fresh block gets as many bytes as both sizes allow, and the old one is freed.
        When no fresh block is found the old one is left alone. */
    method KRealloc(p: Ptr, size: nat) returns (q: Ptr)
      requires Valid() && size <= 0xFFFF_FFE0
      requires p == Null || LivePtr(blocks, p)
      modifies this
      ensures Valid() && |mem| == |old(mem)|
      ensures totalBytes == old(totalBytes)
      ensures p == Null ==> Served(old(mem), mem, old(blocks), blocks, size, q)
      ensures q == Null && size > 0 ==> forall j :: 0 <= j < |old(blocks)| ==> !Fits(old(blocks)[j], AlignUp(size))
      ensures allocCount == if q.At? then (old(allocCount) + 1) % U32 else old(allocCount)
      ensures p.At? && (q.At? || size == 0) ==> FreeCounted(p, old(freeCount), old(errors), freeCount, errors)
      ensures p == Null || (q == Null && size > 0) ==> freeCount == old(freeCount)
      ensures q == Null && size > 0 ==> errors == (old(errors) + 1) % U32
      ensures p == Null && (q.At? || size == 0) ==> errors == old(errors)
      ensures p == Null && q.At? ==> TakenFirstFit(old(blocks), blocks, AlignUp(size), q.rel)
      ensures p == Null && q == Null ==> blocks == old(blocks) && mem == old(mem)
      ensures p.At? && q.At? ==> Moved(old(mem), mem, old(blocks), blocks, OffOf(p), q.rel, size)
      ensures p.At? && q == Null && size > 0 ==> blocks == old(blocks) && mem == old(mem)
      ensures p.At? && size == 0 ==>
        && q == Null
        && (if Refuses(old(mem), p) then mem == old(mem) && blocks == old(blocks)
            else FreedLive(old(mem), mem, old(blocks), blocks, OffOf(p)))
    {
      hide HdrAt, Rep, FreedLive, UsedSum, NoAdjacentFree, TakenFirstFit, AllKept, Moved, KeptBut, Kept, OffOf, AlignUp,
           LooksUsed;
      if p == Null {
        q := KMalloc(size);
        return;
      }
      ghost var bs, m, head := blocks, mem, freeHead;
      ghost var i: nat :| LiveAt(bs, OffOf(p), i);
      if size == 0 {
        LiveFreeable(mem, bs, freeHead, p, i);
        KFree(p);
        return Null;
      }
      q := KMalloc(size);
      if q == Null {
        return;
      }
      AlignUpExact(size);
      ghost var i1, f := AfterAlloc(m, mem, bs, blocks, head, freeHead, AlignUp(size), q.rel, i);
      CopyAndFree(p, q.rel, size, m, bs, i, i1, f);
    }

    /** The second half of krealloc: the copy, and the free of the old block. */
    method CopyAndFree(p: Ptr, q: int, size: nat, ghost m: seq<Byte>, ghost bs: seq<Blk>, ghost i: nat, ghost i1: nat,
                       ghost f: nat)
      requires Valid() && p.At? && LiveAt(bs, OffOf(p), i)
      requires i1 < |blocks| && blocks[i1] == bs[i] && Kept(m, mem, bs[i]) && AllKept(m, mem, bs, blocks, |bs|)
      requires f < |blocks| && blocks[f].used && blocks[f].off + HDR == q && size <= blocks[f].size
      requires forall k :: 0 <= k < |bs| && bs[k].used ==> bs[k].off != blocks[f].off
      requires TakenFirstFit(bs, blocks, AlignUp(size), q)
      modifies this
      ensures Valid() && |mem| == |old(mem)| && Moved(m, mem, bs, blocks, OffOf(p), q, size)
      ensures totalBytes == old(totalBytes) && allocCount == old(allocCount)
      ensures FreeCounted(p, old(freeCount), old(errors), freeCount, errors)
    {
      hide HdrAt, Rep, FreedLive, UsedSum, NoAdjacentFree, AllKept, Moved, KeptBut, Kept, OffOf, SamePrefix, TakenFirstFit,
           OldGone, Refuses, LooksUsed;
      ghost var bs1, m1, head := blocks, mem, freeHead;
      CopyBounds(mem, bs1, head, p, i1, f);
      var curSize := HdrAt(mem, OffOf(p)).size;
      var n := if curSize < size then curSize else size;
      mem := Patch(mem, q, mem[OffOf(p) + HDR..OffOf(p) + HDR + n]);
      ghost var m2 := mem;
      CopyStep(m, m1, m2, bs, bs1, head, OffOf(p), i, i1, f, n);
      PayloadWritten(m1, m2, bs1, head, f);
      LiveFreeable(mem, bs1, head, p, i1);
      KFree(p);
      FreeKeepsRest(m2, mem, bs1, blocks, head, p, Refuses(m2, p));
      OldGoneBy(m2, mem, bs1, blocks, p);
      MovedBy(m, m2, mem, bs, bs1, blocks, OffOf(p), q, i, f, size, n);
    }
  }

  /** A free of a live pointer in the statistics: one more free, or one more error where kfree refuses it. */
  predicate FreeCounted(p: Ptr, freesWere: nat, errorsWere: nat, frees: nat, errors: nat) {
    p.At? &&
    if OffOf(p) < 0x8000_0000 then frees == (freesWere + 1) % U32 && errors == errorsWere
    else frees == freesWere && errors == (errorsWere + 1) % U32
  }

  /** A pointer kmalloc handed out and nobody has freed. */
  ghost predicate LivePtr(bs: seq<Blk>, p: Ptr) {
    p.At? && HDR <= p.rel < U32 && exists i: nat :: LiveAt(bs, OffOf(p), i)
  }

  /** Blocks in use, other than the one at `off`, stay in use with the same bytes. */
  ghost predicate KeptBut(mem: seq<Byte>, r: seq<Byte>, bs: seq<Blk>, rs: seq<Blk>, off: nat) {
    forall k :: 0 <= k < |bs| && bs[k].used && bs[k].off != off ==> bs[k] in rs && Kept(mem, r, bs[k])
  }

  /** kfree took the block at `off` back, unless it lies where kfree refuses live pointers. */
  ghost predicate OldGone(r: seq<Byte>, bs: seq<Blk>, rs: seq<Blk>, off: nat) {
    if off < 0x8000_0000
    then !LooksUsed(r, off) && exists i: nat :: LiveAt(bs, off, i) && rs == Released(bs, i)
    else rs == bs
  }

  /** The fresh block `f` is the first that fits, is in use, large enough, and starts with the bytes
      of the old block `b`; `b` itself is given back, and every other block in use is as it was. */
  ghost predicate Moved(mem: seq<Byte>, r: seq<Byte>, bs: seq<Blk>, rs: seq<Blk>, p: nat, q: int, size: nat) {
    exists b: Blk, f: Blk ::
      && b in bs && b.used && b.off == p && b.End() <= |mem|
      && f in rs && f.used && f.off + HDR == q && f.off != p && size <= f.size && f.End() <= |r|
      && SamePrefix(mem, b, r, f, if b.size < size then b.size else size)
      && KeptBut(mem, r, bs, rs, p)
      && exists mid: seq<Blk> :: TakenFirstFit(bs, mid, AlignUp(size), q) && OldGone(r, mid, rs, p)
  }

  predicate SamePrefix(mem: seq<Byte>, b: Blk, r: seq<Byte>, f: Blk, n: nat) {
    b.End() <= |mem| && f.End() <= |r| && n <= b.size && n <= f.size && Payload(r, f)[..n] == Payload(mem, b)[..n]
  }

  /** A live pointer may be passed to kfree, and is refused exactly when its header is 2 GiB or more in. */
  lemma LiveFreeable(mem: seq<Byte>, bs: seq<Blk>, head: nat, p: Ptr, i: nat)
    requires Rep(mem, bs, head) && p.At? && LiveAt(bs, OffOf(p), i)
    ensures Freeable(mem, bs, p)
    ensures Refuses(mem, p) <==> OffOf(p) >= 0x8000_0000
  {
    hide HdrAt, Rep, OffOf;
    RepBlock(mem, bs, head, i);
  }

  /** Where the old block and the fresh one are after an allocation. */
  lemma AfterAlloc(mem: seq<Byte>, r: seq<Byte>, bs: seq<Blk>, rs: seq<Blk>, head: nat, head1: nat, need: nat,
                   rel: int, i: nat) returns (i1: nat, f: nat)
    requires Rep(mem, bs, head) && Rep(r, rs, head1) && TakenFirstFit(bs, rs, need, rel)
    requires AllKept(mem, r, bs, rs, |bs|) && i < |bs| && bs[i].used
    ensures i1 < |rs| && rs[i1] == bs[i] && Kept(mem, r, bs[i])
    ensures f < |rs| && rs[f].used && rs[f].off + HDR == rel && need <= rs[f].size
    ensures forall k :: 0 <= k < |bs| && bs[k].used ==> bs[k].off != rs[f].off
  {
    hide Rep, Kept;
    RepApart(mem, bs, head);
    f :| FirstFit(bs, need, f) && rel == bs[f].off + HDR && rs == Carved(bs, f, need);
    i1 :| 0 <= i1 < |rs| && rs[i1] == bs[i];
    forall k | 0 <= k < |bs| && bs[k].used ensures bs[k].off != rs[f].off {
      assert k < f ==> bs[k].End() <= bs[f].off;
      assert f < k ==> bs[f].End() <= bs[k].off;
    }
  }

  lemma CopyBounds(mem: seq<Byte>, bs: seq<Blk>, head: nat, p: Ptr, i: nat, f: nat)
    requires Rep(mem, bs, head) && p.At? && LiveAt(bs, OffOf(p), i) && f < |bs|
    ensures bs[i].End() <= |mem| < END && bs[f].End() <= |mem| && HdrAt(mem, OffOf(p)).size == bs[i].size
  {
    hide HdrAt, Rep, OffOf;
    RepBlock(mem, bs, head, i);
    RepBlock(mem, bs, head, f);
  }

  lemma Copied(m1: seq<Byte>, m2: seq<Byte>, from: Blk, to: Blk, n: nat)
    requires from.End() <= |m1| && to.End() <= |m1| && n <= from.size && n <= to.size
    requires m2 == Patch(m1, to.off + HDR, m1[from.off + HDR..from.off + HDR + n])
    ensures Payload(m2, to)[..n] == Payload(m1, from)[..n]
  {
    var piece := m1[from.off + HDR..from.off + HDR + n];
    assert Payload(m1, from)[..n] == piece;
    assert Payload(m2, to)[..n] == m2[to.off + HDR..to.off + HDR + n];
  }

  /** The copy fills the front of the fresh block and disturbs no block in use before. */
  lemma CopiedPrefix(m: seq<Byte>, m1: seq<Byte>, m2: seq<Byte>, from: Blk, to: Blk, n: nat)
    requires Kept(m, m1, from) && to.End() <= |m1| && n <= from.size && n <= to.size
    requires m2 == Patch(m1, to.off + HDR, m1[from.off + HDR..from.off + HDR + n])
    ensures SamePrefix(m, from, m2, to, n)
    ensures |m2| == |m1| && forall j :: 0 <= j < |m1| && (j < to.off + HDR || to.End() <= j) ==> m2[j] == m1[j]
  {
    Copied(m1, m2, from, to, n);
  }

  lemma CopyStep(m: seq<Byte>, m1: seq<Byte>, m2: seq<Byte>, bs: seq<Blk>, bs1: seq<Blk>, head: nat, off: nat, i: nat,
                 i1: nat, f: nat, n: nat)
    requires Rep(m1, bs1, head) && LiveAt(bs, off, i) && i1 < |bs1| && bs1[i1] == bs[i] && Kept(m, m1, bs[i])
    requires f < |bs1| && bs1[f].used && bs1[f].End() <= |m1| && n <= bs[i].size && n <= bs1[f].size
    requires m2 == Patch(m1, bs1[f].off + HDR, m1[off + HDR..off + HDR + n])
    requires AllKept(m, m1, bs, bs1, |bs|) && forall k :: 0 <= k < |bs| && bs[k].used ==> bs[k].off != bs1[f].off
    ensures SamePrefix(m, bs[i], m2, bs1[f], n)
    ensures KeptBut(m, m2, bs, bs1, off)
  {
    hide Rep, Kept, Patch, SamePrefix;
    CopiedPrefix(m, m1, m2, bs[i], bs1[f], n);
    PayloadWritten(m1, m2, bs1, head, f);
    forall k | 0 <= k < |bs| && bs[k].used && bs[k].off != off ensures bs[k] in bs1 && Kept(m, m2, bs[k]) {
      var j :| 0 <= j < |bs1| && bs1[j] == bs[k];
      KeptTwice(m, m1, m2, bs[k]);
    }
  }

  lemma FreeKeepsRest(mem: seq<Byte>, r: seq<Byte>, bs: seq<Blk>, rs: seq<Blk>, head: nat, p: Ptr, refused: bool)
    requires p.At? && Rep(mem, bs, head)
    requires if refused then r == mem && rs == bs else FreedLive(mem, r, bs, rs, OffOf(p))
    ensures KeptBut(mem, r, bs, rs, OffOf(p))
  {
    hide Rep, Released, Kept;
    if refused {
      KeepSelf(mem, bs, head, |bs|);
    }
  }

  lemma OldGoneBy(mem: seq<Byte>, r: seq<Byte>, bs: seq<Blk>, rs: seq<Blk>, p: Ptr)
    requires p.At? && (Refuses(mem, p) <==> OffOf(p) >= 0x8000_0000)
    requires if Refuses(mem, p) then rs == bs else FreedLive(mem, r, bs, rs, OffOf(p)) && !LooksUsed(r, OffOf(p))
    ensures OldGone(r, bs, rs, OffOf(p))
  {
    hide Refuses, LooksUsed, Released, AllKept, OffOf;
  }

  lemma MovedBy(m: seq<Byte>, m2: seq<Byte>, m3: seq<Byte>, bs: seq<Blk>, bs1: seq<Blk>, bs3: seq<Blk>, off: nat, q: int,
                i: nat, f: nat, size: nat, n: nat)
    requires LiveAt(bs, off, i) && f < |bs1| && bs1[f].used && bs1[f].off + HDR == q && size <= bs1[f].size
    requires bs1[f].off != off && n == (if bs[i].size < size then bs[i].size else size)
    requires SamePrefix(m, bs[i], m2, bs1[f], n)
    requires KeptBut(m, m2, bs, bs1, off) && KeptBut(m2, m3, bs1, bs3, off)
    requires TakenFirstFit(bs, bs1, AlignUp(size), q) && OldGone(m3, bs1, bs3, off)
    ensures Moved(m, m3, bs, bs3, off, q, size)
  {
    hide TakenFirstFit, OldGone;
    forall k | 0 <= k < |bs| && bs[k].used && bs[k].off != off ensures bs[k] in bs3 && Kept(m, m3, bs[k]) {
      var j :| 0 <= j < |bs1| && bs1[j] == bs[k];
      KeptTwice(m, m2, m3, bs[k]);
    }
    assert bs1[f] in bs3 && Kept(m2, m3, bs1[f]);
    assert SamePrefix(m, bs[i], m3, bs1[f], n);
    assert bs[i] in bs;
  }

  /** The live block at `off` was released and poisoned; every other one in use is as it was. */
  ghost predicate FreedLive(mem: seq<Byte>, r: seq<Byte>, bs: seq<Blk>, rs: seq<Blk>, off: nat) {
    exists i: nat :: LiveAt(bs, off, i) && rs == Released(bs, i) && AllKept(mem, r, bs, rs, i)
                  && bs[i].End() <= |r| && forall b :: b in Payload(r, bs[i]) ==> b == POISON
  }

  lemma PayloadIs(a: seq<Byte>, b: seq<Byte>, x: Blk, s: seq<Byte>)
    requires Kept(a, b, x) && Payload(a, x) == s
    ensures Payload(b, x) == s
  {
  }

  lemma KeptExcept(mem: seq<Byte>, r: seq<Byte>, bs: seq<Blk>, i: nat)
    requires forall k :: 0 <= k < |bs| && k != i ==> Kept(mem, r, bs[k])
    ensures AllKept(mem, r, bs, bs, i)
  {
  }

  lemma AllKeptFrom(a: seq<Byte>, b: seq<Byte>, c: seq<Byte>, x: seq<Blk>, z: seq<Blk>, except: nat)
    requires AllKept(a, b, x, x, except) && AllKept(b, c, x, z, except)
    ensures AllKept(a, c, x, z, except)
  {
    hide Kept;
    forall k | 0 <= k < |x| && k != except && x[k].used ensures x[k] in z && Kept(a, c, x[k]) {
      KeptTwice(a, b, c, x[k]);
    }
  }

  lemma ReleasedIs(bs: seq<Blk>, i: nat)
    requires i < |bs|
    ensures var g := bs[i := bs[i].(used := false)];
      BackIndex(g, i) < |JoinBack(g, i)| && Released(bs, i) == JoinFront(JoinBack(g, i), BackIndex(g, i))
  {
  }

  /** A block in use is not on the list. */
  lemma FreeOffsRange(bs: seq<Blk>, n: nat, i: nat)
    requires Tiles(bs, 0, n) && i < |bs| && bs[i].used
    ensures InRange(FreeOffs(bs), 0, n) && bs[i].off !in FreeOffs(bs)
  {
    hide Tiles, FreeOffs;
    OffsAligned(bs, n);
    FreeOffsAscend(bs, 0, n);
    forall x | x in FreeOffs(bs) ensures x != bs[i].off {
      FreeOffsIn(bs, 0, n, x);
      var k :| 0 <= k < |bs| && bs[k].off == x && !bs[k].used;
      assert i < k ==> bs[i].End() <= bs[k].off;
      assert k < i ==> bs[k].End() <= bs[i].off;
    }
  }

  lemma KeepSelf(mem: seq<Byte>, bs: seq<Blk>, head: nat, except: nat)
    requires Rep(mem, bs, head)
    ensures AllKept(mem, mem, bs, bs, except)
  {
    hide Tiles, Seg, HdrAt, FreeOffs;
    forall k | 0 <= k < |bs| ensures Kept(mem, mem, bs[k]) {
      RepBlock(mem, bs, head, k);
    }
  }

  lemma UsedBound(mem: seq<Byte>, bs: seq<Blk>, head: nat)
    requires Rep(mem, bs, head) && HDR <= |mem|
    ensures UsedSum(bs) + FreeSum(bs) + HDR * |bs| == |mem| && UsedSum(bs) + HDR <= |mem| && |bs| > 0
  {
    hide Seg, HdrAt, FreeOffs, UsedSum, FreeSum;
    SumsFill(bs, 0, |mem|);
  }

  lemma InitRep(region: seq<Byte>)
    requires HDR <= |region| < U32 && |region| % 16 == 0
    ensures Rep(PutHdr(region, 0, Header(MAGIC_FREE, |region| - HDR, END, 0)), [Blk(0, |region| - HDR, false)], 0)
    ensures UsedSum([Blk(0, |region| - HDR, false)]) == 0
  {
    hide PutHdr, HdrAt;
    var b := Blk(0, |region| - HDR, false);
    PutHdrReads(region, 0, Header(MAGIC_FREE, |region| - HDR, END, 0));
    assert [b][1..] == [] && FreeOffs([b]) == [0];
    TilesOne(b);
    SegOne(PutHdr(region, 0, Header(MAGIC_FREE, |region| - HDR, END, 0)), 0, END);
    assert UsedSum([]) == 0;
  }

  /** At the end of the list every remaining block is in use. */
  lemma {:induction false} NothingLeft(bs: seq<Blk>, n: nat, i: nat, prev: nat)
    requires Tiles(bs, 0, n) && n < END && Cursor(bs, i, prev, END)
    ensures forall j :: i <= j < |bs| ==> bs[j].used
    decreases |bs| - i
  {
    hide Tiles;
    if i < |bs| {
      assert bs[i..][0] == bs[i] && bs[i..][1..] == bs[i + 1..];
      TilesSplit(bs, 0, n, i);
      BeforeStep(bs, i);
      NothingLeft(bs, n, i + 1, prev);
    }
  }
}
