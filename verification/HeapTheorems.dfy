/** What the heap's invariant gives its callers. */
module HeapTheorems {
  import opened Bytes
  import opened HeapModel
  import opened HeapSteps
  import opened Heap
  import opened HeapWrap
  import opened KernelHeap

  /** Once nothing is in use, the whole region is one free block again. */
  lemma AllFreeIsOneBlock(bs: seq<Blk>, n: nat)
    requires Tiles(bs, 0, n) && NoAdjacentFree(bs) && HDR <= n && forall i :: 0 <= i < |bs| ==> !bs[i].used
    ensures bs == [Blk(0, n - HDR, false)]
  {
    assert |bs| == 1;
    assert bs[1..] == [];
  }

  /** The free counter counts the free payloads and, beyond them, every header but one. */
  lemma FreeBytesMeaning(mem: seq<Byte>, bs: seq<Blk>, head: nat, usedBytes: nat, freeBytes: nat)
    requires Rep(mem, bs, head) && HDR <= |mem|
    requires usedBytes == UsedSum(bs) && usedBytes + freeBytes == |mem| - HDR
    ensures |bs| >= 1 && freeBytes == FreeSum(bs) + HDR * (|bs| - 1)
  {
    hide Seg, HdrAt, FreeOffs, UsedSum, FreeSum;
    SumsFill(bs, 0, |mem|);
  }

  /** The list after taking block `i`: a free remainder of sixteen bytes or more is split off, and nothing else moves. */
  lemma CarvedIs(bs: seq<Blk>, i: nat, need: nat)
    requires i < |bs| && Fits(bs[i], need)
    ensures var b := bs[i]; var end := b.off + 16 + need;
      Carved(bs, i, need) == bs[..i] + (if b.size >= need + 32
                                        then [Blk(b.off, need, true), Blk(end, b.size - need - 16, false)]
                                        else [Blk(b.off, b.size, true)]) + bs[i + 1..]
  {
  }

  ghost predicate Apart(a: Blk, b: Blk) { a.End() <= b.off || b.End() <= a.off }

  /** A block handed out is aligned, inside the region, and shares no byte, header included, with
      any other block; it is as large as asked exactly for sizes that do not wrap when rounded. */
  lemma AllocationSafe(bs: seq<Blk>, n: nat, i: nat, size: nat)
    requires Tiles(bs, 0, n) && 0 < size < U32 && n < U32 && i < |bs| && Fits(bs[i], AlignUp(size))
    ensures var rs := Carved(bs, i, AlignUp(size));
      && (rs[i].off + HDR) % 16 == 0 && rs[i].End() <= n && (size <= rs[i].size <==> size <= 0xFFFF_FFE0)
      && forall j :: 0 <= j < |rs| && j != i ==> Apart(rs[i], rs[j])
  {
    hide Tiles;
    AlignUpExact(size);
    var need := AlignUp(size);
    var rs := Carved(bs, i, need);
    CarvedTiles(bs, n, i, need);
    TilesSplit(rs, 0, n, i);
    OffsAligned(rs, n);
  }

  /** A free block serves a request only with room for one more header: 48 bytes serve up to 32. */
  lemma SpareHeader(size: nat)
    requires 0 < size <= 0xFFFF_FFE0
    ensures FirstFit([Blk(0, 48, false)], AlignUp(size), 0) <==> size <= 32
  {
    AlignUpExact(size);
  }

  /** Asking for 0xFFFFFFF1 bytes of a 64-byte heap hands out a block of none. */
  lemma HugeRequestUnderserved()
    ensures var bs := [Blk(0, 48, false)];
      FirstFit(bs, AlignUp(0xFFFF_FFF1), 0) && Carved(bs, 0, AlignUp(0xFFFF_FFF1))[0] == Blk(0, 0, true)
  {
    assert AlignUp(0xFFFF_FFF1) == 0;
  }

  /** Asking a fresh heap of 64 bytes for 0xFFFFFFF0 leaves memory that no list of blocks describes. */
  lemma FreshHeapBroken(region: seq<Byte>)
    requires |region| == 64
    ensures var mem, need := PutHdr(region, 0, Header(MAGIC_FREE, 48, END, 0)), AlignUp(0xFFFF_FFF0);
      && Rep(mem, [Blk(0, 48, false)], 0) && CarveOk(mem, END, 0, need)
      && Broken(Alloc32(mem, END, 0, need), Head32(mem, 0, END, 0, need))
  {
    hide Rep, Broken, Alloc32, Head32, CarveOk, PutHdr, HdrAt;
    InitRep(region);
    var mem := PutHdr(region, 0, Header(MAGIC_FREE, 48, END, 0));
    WrapBreaks(mem, [Blk(0, 48, false)], 0, 0, AlignUp(0xFFFF_FFF0));
  }

  lemma CarvedTiles(bs: seq<Blk>, n: nat, i: nat, need: nat)
    requires Tiles(bs, 0, n) && i < |bs| && Fits(bs[i], need) && need % 16 == 0
    ensures Tiles(Carved(bs, i, need), 0, n)
  {
    hide Tiles, Split2;
    if Splits(bs[i], need) {
      SplitLists(bs, n, i, need);
      SplitIndex(bs, i, need);
      TilesUpdate(Split2(bs, i, need), n, i, true);
    } else {
      TilesUpdate(bs, n, i, true);
    }
  }

  lemma SplitIndex(bs: seq<Blk>, i: nat, need: nat)
    requires i < |bs| && HDR + need <= bs[i].size
    ensures i < |Split2(bs, i, need)|
  {
  }

  /** Freeing a block right after allocating it puts the blocks back exactly as they were. */
  lemma FreeUndoesAlloc(bs: seq<Blk>, n: nat, i: nat, need: nat)
    requires Tiles(bs, 0, n) && NoAdjacentFree(bs) && i < |bs| && Fits(bs[i], need)
    ensures Released(Carved(bs, i, need), i) == bs
  {
    hide Tiles;
    var rs := Carved(bs, i, need);
    assert i > 0 ==> bs[i - 1].used;
    assert i + 1 < |bs| ==> bs[i + 1].used;
    var g := rs[i := rs[i].(used := false)];
    assert i > 0 ==> g[i - 1] == bs[i - 1];
    if Splits(bs[i], need) {
      assert !g[i + 1].used && g[i + 2..] == bs[i + 1..];
      assert Joined(g, i) == bs;
    } else {
      assert g == bs;
    }
  }
}
