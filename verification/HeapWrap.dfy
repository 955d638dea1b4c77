/** The header writes of kmalloc in 32-bit arithmetic, and what they do when its sums wrap. */
module HeapWrap {
  import opened Bytes
  import opened HeapModel
  import opened HeapSteps
  import opened Heap

  /** A free block of at least `want` bytes, and none before it. */
  ghost predicate FirstFree(bs: seq<Blk>, want: nat, i: nat) {
    i < |bs| && !bs[i].used && want <= bs[i].size && forall j :: 0 <= j < i ==> bs[j].used || bs[j].size < want
  }

  /** The remainder's header lies in the region: behind the block, or, when the sum wraps, on top of it. */
  predicate RestInside(size: nat, need: nat) { need + HDR <= size || need + HDR == U32 }

  function Rest32(c: nat, need: nat): nat { (c + HDR + need) % U32 }

  /** The split in 32 bits: the remainder's header is written first. */
  function Split32(mem: seq<Byte>, c: nat, need: nat): (r: seq<Byte>)
    requires c + HDR <= |mem| < U32 && need < U32 && Rest32(c, need) + HDR <= |mem|
    ensures |r| == |mem|
  {
    HdrAtFits(mem, c);
    var h, rest := HdrAt(mem, c), Rest32(c, need);
    var m := PutHdr(mem, rest, Header(MAGIC_FREE, (h.size - need - HDR) % U32, h.next, 0));
    HdrAtFits(m, c);
    PutHdr(m, c, HdrAt(m, c).(size := need, next := rest))
  }

  predicate Splits32(mem: seq<Byte>, c: nat, need: nat)
    requires c + HDR <= |mem|
  {
    (need + HDR + 16) % U32 <= HdrAt(mem, c).size
  }

  predicate CarveOk(mem: seq<Byte>, prev: nat, c: nat, need: nat) {
    && c + HDR <= |mem| < END && (prev == END || prev + HDR <= |mem|) && need < U32
    && c + HDR + HdrAt(mem, c).size <= |mem| && RestInside(HdrAt(mem, c).size, need)
  }

  /** The region with the block at `c` split, if it is to be. */
  function Parted(mem: seq<Byte>, prev: nat, c: nat, need: nat): (r: seq<Byte>)
    requires CarveOk(mem, prev, c, need)
    ensures |r| == |mem|
  {
    HdrAtFits(mem, c);
    if Splits32(mem, c, need) then RestFits(mem, prev, c, need); Split32(mem, c, need) else mem
  }

  lemma RestFits(mem: seq<Byte>, prev: nat, c: nat, need: nat)
    requires CarveOk(mem, prev, c, need) && Splits32(mem, c, need)
    ensures Rest32(c, need) + HDR <= |mem|
    ensures need + HDR < U32 ==> need + HDR + 16 <= HdrAt(mem, c).size && Rest32(c, need) == c + HDR + need
    ensures need + HDR == U32 ==> Rest32(c, need) == c
  {
    hide HdrAt;
  }

  /** The region, and the list head, after kmalloc's writes. */
  function Alloc32(mem: seq<Byte>, prev: nat, c: nat, need: nat): (r: seq<Byte>)
    requires CarveOk(mem, prev, c, need)
    ensures |r| == |mem|
  {
    TakeMem(Parted(mem, prev, c, need), prev, c)
  }

  function Head32(mem: seq<Byte>, head: nat, prev: nat, c: nat, need: nat): nat
    requires CarveOk(mem, prev, c, need)
  {
    Unlinked(head, prev, HdrAt(Parted(mem, prev, c, need), c).next)
  }

  /** Without a wrap these are the writes in plain arithmetic. */
  lemma Alloc32Is(mem: seq<Byte>, head: nat, prev: nat, c: nat, need: nat)
    requires CarveOk(mem, prev, c, need) && need + HDR < U32
    ensures Alloc32(mem, prev, c, need) == AllocMem(mem, prev, c, need)
    ensures Head32(mem, head, prev, c, need)
         == Unlinked(head, prev, if need + HDR + 16 <= HdrAt(mem, c).size
                                 then HdrAt(SplitMem(mem, c, need), c).next else HdrAt(mem, c).next)
  {
    hide HdrAt, PutHdr, TakeMem;
    if Splits32(mem, c, need) {
      RestFits(mem, prev, c, need);
      HdrAtFits(mem, c);
      var h, rest := HdrAt(mem, c), c + HDR + need;
      var hr := Header(MAGIC_FREE, h.size - need - HDR, h.next, 0);
      PutHdrApart(mem, rest, hr, c);
    }
  }

  /** No list of blocks describes the region. */
  ghost predicate Broken(mem: seq<Byte>, head: nat) {
    forall bs: seq<Blk> :: !Rep(mem, bs, head)
  }

  lemma HeadIsFree(mem: seq<Byte>, bs: seq<Blk>, head: nat)
    requires Rep(mem, bs, head) && head != END
    ensures head + HDR <= |mem| && HdrAt(mem, head).magic == MAGIC_FREE
  {
    hide HdrAt, Seg, Tiles, FreeOffs;
    assert head == FreeOffs(bs)[0] && head in FreeOffs(bs);
    FreeOffsIn(bs, 0, |mem|, head);
    var k :| 0 <= k < |bs| && bs[k].off == head && !bs[k].used;
    assert HeaderOk(mem, bs[k]);
  }

  /** A list that starts at a header marked used describes nothing. */
  lemma UsedHeadBreaks(mem: seq<Byte>, head: nat)
    requires head + HDR <= |mem| < END && HdrAt(mem, head).magic == MAGIC_USED
    ensures Broken(mem, head)
  {
    hide HdrAt, Rep;
    forall bs: seq<Blk> ensures !Rep(mem, bs, head) {
      if Rep(mem, bs, head) {
        HeadIsFree(mem, bs, head);
      }
    }
  }

  /** When the header sum wraps to zero, a first free block of sixteen bytes or more is split on top
      of itself: it stays at the head of the list, marked used. */
  lemma WrapBreaks(mem: seq<Byte>, bs: seq<Blk>, head: nat, i: nat, need: nat)
    requires Rep(mem, bs, head) && FirstFree(bs, 0, i) && need + HDR == U32 && bs[i].size >= 16
    ensures var c := bs[i].off;
      && Last(Before(bs, i)) == END && CarveOk(mem, END, c, need)
      && Broken(Alloc32(mem, END, c, need), Head32(mem, head, END, c, need))
  {
    hide HdrAt, PutHdr, Rep, Broken, FreeOffs;
    NoneBefore(bs, i);
    RepBlock(mem, bs, head, i);
    var c := bs[i].off;
    RestFits(mem, END, c, need);
    HdrAtFits(mem, c);
    var h := HdrAt(mem, c);
    var hr := Header(MAGIC_FREE, (h.size - need - HDR) % U32, h.next, 0);
    PutHdrReads(mem, c, hr);
    var m := PutHdr(mem, c, hr);
    var hc := hr.(size := need, next := c);
    PutHdrReads(m, c, hc);
    var s := PutHdr(m, c, hc);
    assert Parted(mem, END, c, need) == s && HdrAt(s, c) == hc;
    PutHdrReads(s, c, hc.(magic := MAGIC_USED, used := 1));
    UsedHeadBreaks(Alloc32(mem, END, c, need), c);
  }

  /** An empty first free block is handed out whole, and the heap stays what it should be. */
  lemma WrapHarmless(mem: seq<Byte>, bs: seq<Blk>, head: nat, i: nat, need: nat)
    requires Rep(mem, bs, head) && NoAdjacentFree(bs) && FirstFree(bs, 0, i) && need + HDR == U32 && bs[i].size < 16
    ensures var c, rs := bs[i].off, bs[i := bs[i].(used := true)];
      && Last(Before(bs, i)) == END && CarveOk(mem, END, c, need) && bs[i].size == 0
      && Rep(Alloc32(mem, END, c, need), rs, Head32(mem, head, END, c, need))
      && NoAdjacentFree(rs) && UsedSum(rs) == UsedSum(bs) && HdrAt(Alloc32(mem, END, c, need), c).size == 0
  {
    hide HdrAt, PutHdr, Rep, FreeOffs, TakeMem, UsedSum, Before;
    NoneBefore(bs, i);
    RepBlock(mem, bs, head, i);
    var c, rs := bs[i].off, bs[i := bs[i].(used := true)];
    Take(mem, bs, head, i);
    RepBlock(Alloc32(mem, END, c, need), rs, Head32(mem, head, END, c, need), i);
    UsedSumAt(bs, i);
    UsedSumAt(rs, i);
    assert rs[..i] == bs[..i] && rs[i + 1..] == bs[i + 1..];
    forall x, y | 0 <= x < y < |rs| && y == x + 1 ensures rs[x].used || rs[y].used {
      assert bs[x].used || bs[y].used;
    }
  }

  lemma NoneBefore(bs: seq<Blk>, i: nat)
    requires FirstFree(bs, 0, i)
    ensures Last(Before(bs, i)) == END
  {
    AllUsedNoOffs(bs[..i]);
  }

  lemma {:induction false} AllUsedNoOffs(bs: seq<Blk>)
    requires forall j :: 0 <= j < |bs| ==> bs[j].used
    ensures FreeOffs(bs) == []
  {
    if bs != [] {
      AllUsedNoOffs(bs[1..]);
    }
  }
}
