/** kmalloc, kfree and krealloc of mm/heap_c.c. */
module Heap {
  import opened Bytes
  import opened HeapModel
  import opened HeapSteps

  /** (v + 15) & ~15 in 32 bits. */
  function AlignUp(v: nat): (r: nat) { (v + 15) % U32 / 16 * 16 }

  /** The rounded request, plus its header, is meaningful exactly up to 0xFFFFFFE0. */
  lemma AlignUpExact(size: nat)
    requires size < U32
    ensures AlignUp(size) % 16 == 0
    ensures (size <= AlignUp(size) < size + 16 && AlignUp(size) + HDR < U32) <==> size <= 0xFFFF_FFE0
    ensures AlignUp(size) + HDR < U32 <==> !SumWraps(size)
    ensures SumWraps(size) ==> AlignUp(size) + HDR == U32
  {
  }

  /** The sixteen sizes whose rounded value plus a header wraps to zero. */
  predicate SumWraps(size: nat) { 0xFFFF_FFE0 < size <= 0xFFFF_FFF0 }

  // ---------------- allocating, on bytes and blocks ----------------

  /** A free block a request of `need` rounded bytes may be taken from. */
  predicate Fits(b: Blk, need: nat) { !b.used && need + HDR <= b.size }

  ghost predicate FirstFit(bs: seq<Blk>, need: nat, i: nat) {
    i < |bs| && Fits(bs[i], need) && forall j :: 0 <= j < i ==> !Fits(bs[j], need)
  }

  /** The remainder is split off when it can hold a header and sixteen bytes. */
  predicate Splits(b: Blk, need: nat) { need + HDR + 16 <= b.size }

  /** The blocks after taking block `i` for `need` bytes. */
  ghost function Carved(bs: seq<Blk>, i: nat, need: nat): (r: seq<Blk>)
    requires i < |bs| && Fits(bs[i], need)
    ensures i < |r| && r[i].off == bs[i].off && r[i].used && need <= r[i].size
  {
    var s := if Splits(bs[i], need) then Split2(bs, i, need) else bs;
    s[i := s[i].(used := true)]
  }

  function AllocMem(mem: seq<Byte>, prev: nat, c: nat, need: nat): (r: seq<Byte>)
    requires c + HDR <= |mem| < END && (prev == END || prev + HDR <= |mem|)
    requires c + HDR + HdrAt(mem, c).size <= |mem|
    ensures |r| == |mem|
  {
    if need + HDR + 16 <= HdrAt(mem, c).size then TakeMem(SplitMem(mem, c, need), prev, c) else TakeMem(mem, prev, c)
  }

  lemma AllocRep(mem: seq<Byte>, bs: seq<Blk>, head: nat, i: nat, need: nat)
    requires Rep(mem, bs, head) && i < |bs| && Fits(bs[i], need) && need % 16 == 0
    ensures var c, prev := bs[i].off, Last(Before(bs, i));
      && bs[i].End() <= |mem| < END && (prev == END || prev + HDR <= |mem|) && HdrAt(mem, c).size == bs[i].size
      && Rep(AllocMem(mem, prev, c, need), Carved(bs, i, need),
             Unlinked(head, prev, if Splits(bs[i], need) then c + HDR + need else HdrAt(mem, c).next))
  {
    hide Rep, HdrAt, TakeMem, FreeOffs, Split2;
    RepBlock(mem, bs, head, i);
    var c, prev := bs[i].off, Last(Before(bs, i));
    if Splits(bs[i], need) {
      Split(mem, bs, head, i, need);
      SplitFacts(mem, bs, head, i, need);
      Take(SplitMem(mem, c, need), Split2(bs, i, need), head, i);
    } else {
      Take(mem, bs, head, i);
    }
  }

  lemma RepBlock(mem: seq<Byte>, bs: seq<Blk>, head: nat, i: nat)
    requires Rep(mem, bs, head) && i < |bs|
    ensures bs[i].End() <= |mem| < END && HeaderOk(mem, bs[i]) && bs[i].off % 16 == 0 && bs[i].size % 16 == 0
    ensures Neighbours(bs, |mem|, i)
  {
    hide Tiles, FreeOffs, Seg;
    Around(bs, |mem|, i);
  }

  lemma SplitFacts(mem: seq<Byte>, bs: seq<Blk>, head: nat, i: nat, need: nat)
    requires Rep(mem, bs, head) && i < |bs| && !bs[i].used && need % 16 == 0 && HDR + need <= bs[i].size
    ensures var s := Split2(bs, i, need);
      i < |s| && !s[i].used && s[i].off == bs[i].off && Before(s, i) == Before(bs, i)
      && bs[i].End() <= |mem| < END && HdrAt(mem, bs[i].off).size == bs[i].size
      && HdrAt(SplitMem(mem, bs[i].off, need), bs[i].off).next == bs[i].off + HDR + need
  {
    hide PutHdr, HdrAt, Tiles, FreeOffs;
    Split(mem, bs, head, i, need);
    SplitLists(bs, |mem|, i, need);
    var c, rest := bs[i].off, bs[i].off + HDR + need;
    HdrAtFits(mem, c);
    var h := HdrAt(mem, c);
    var m := PutHdr(mem, rest, Header(MAGIC_FREE, h.size - need - HDR, h.next, 0));
    PutHdrReads(m, c, h.(size := need, next := rest));
  }

  lemma SplitKeeps(mem: seq<Byte>, c: nat, need: nat, b: Blk)
    requires c + HDR <= |mem| && HDR + need <= HdrAt(mem, c).size && c + HDR + need + HDR <= |mem| < U32
    requires b.End() <= c || (b.End() <= |mem| && c + HDR + HdrAt(mem, c).size <= b.off)
    ensures Kept(mem, SplitMem(mem, c, need), b)
  {
    hide PutHdr, HdrAt;
    HdrAtFits(mem, c);
    PayloadKept(mem, SplitMem(mem, c, need), b, c, c + HDR + need);
  }

  lemma TakeKeeps(mem: seq<Byte>, prev: nat, c: nat, b: Blk)
    requires c + HDR <= |mem| && b.End() <= |mem| && (c + HDR <= b.off || b.End() <= c)
    requires prev == END || (prev + HDR <= |mem| && (prev + HDR <= b.off || b.End() <= prev))
    ensures Kept(mem, TakeMem(mem, prev, c), b)
  {
    hide PutHdr, HdrAt;
    HdrAtFits(mem, c);
    if prev != END {
      HdrAtFits(mem, prev);
    }
    PayloadKept(mem, TakeMem(mem, prev, c), b, c, if prev == END then c else prev);
  }

  lemma CarvedKeeps(bs: seq<Blk>, i: nat, need: nat, k: nat)
    requires i < |bs| && Fits(bs[i], need) && k < |bs| && bs[k].used
    ensures bs[k] in Carved(bs, i, need)
  {
    var r := Carved(bs, i, need);
    if Splits(bs[i], need) && i < k {
      assert r[k + 1] == bs[k];
    } else {
      assert r[k] == bs[k];
    }
  }

  /** No header write of an allocation lands in the payload of a block in use. */
  lemma AllocKeeps(mem: seq<Byte>, bs: seq<Blk>, head: nat, i: nat, need: nat, k: nat)
    requires Rep(mem, bs, head) && i < |bs| && Fits(bs[i], need) && need % 16 == 0
    requires k < |bs| && bs[k].used
    ensures var c, prev := bs[i].off, Last(Before(bs, i));
      && bs[i].End() <= |mem| < END && (prev == END || prev + HDR <= |mem|) && HdrAt(mem, c).size == bs[i].size
      && bs[k] in Carved(bs, i, need) && Kept(mem, AllocMem(mem, prev, c, need), bs[k])
  {
    hide HdrAt, FreeOffs, Carved, SplitMem, TakeMem, Rep;
    RepBlock(mem, bs, head, i);
    RepBlock(mem, bs, head, k);
    RepApart(mem, bs, head);
    var c, prev := bs[i].off, Last(Before(bs, i));
    PrevIsFree(mem, bs, head, i, k);
    CarvedKeeps(bs, i, need, k);
    if Splits(bs[i], need) {
      SplitKeeps(mem, c, need, bs[k]);
      TakeKeeps(SplitMem(mem, c, need), prev, c, bs[k]);
    } else {
      TakeKeeps(mem, prev, c, bs[k]);
    }
  }

  lemma RepApart(mem: seq<Byte>, bs: seq<Blk>, head: nat)
    requires Rep(mem, bs, head)
    ensures forall i, j :: 0 <= i < j < |bs| ==> bs[i].End() <= bs[j].off
  {
    hide Seg, FreeOffs, Tiles;
    OffsAligned(bs, |mem|);
  }

  /** The list predecessor of block `i` is a free block, so it is apart from any block in use. */
  lemma PrevIsFree(mem: seq<Byte>, bs: seq<Blk>, head: nat, i: nat, k: nat)
    requires Rep(mem, bs, head) && i < |bs| && k < |bs| && bs[k].used
    ensures var prev := Last(Before(bs, i)); prev == END || prev + HDR <= bs[k].off || bs[k].End() <= prev
  {
    hide HeaderOk, Seg, FreeOffs, Tiles;
    OffsAligned(bs, |mem|);
    var a := Before(bs, i);
    if a != [] {
      var prev := Last(a);
      assert prev in a;
      TilesSplit(bs, 0, |mem|, i);
      FreeOffsIn(bs[..i], 0, bs[i].off, prev);
      var p :| 0 <= p < |bs[..i]| && bs[..i][p].off == prev && !bs[..i][p].used;
      assert bs[p].off == prev && p != k;
    }
  }

  lemma CarvedNoAdjacent(bs: seq<Blk>, i: nat, need: nat)
    requires NoAdjacentFree(bs) && i < |bs| && Fits(bs[i], need)
    ensures NoAdjacentFree(Carved(bs, i, need))
  {
    var r := Carved(bs, i, need);
    forall x, y | 0 <= x < y < |r| && y == x + 1 ensures r[x].used || r[y].used {
      if Splits(bs[i], need) {
        if y < i {
          assert bs[x].used || bs[y].used;
        } else if x > i {
          assert r[y] == bs[y - 1];
          assert bs[x - 1].used || bs[y - 1].used;
        }
      } else if x != i && y != i {
        assert bs[x].used || bs[y].used;
      }
    }
  }

  lemma UsedSumAt(bs: seq<Blk>, i: nat)
    requires i < |bs|
    ensures UsedSum(bs) == UsedSum(bs[..i]) + (if bs[i].used then bs[i].size else 0) + UsedSum(bs[i + 1..])
  {
    assert bs == bs[..i] + bs[i..] && bs[i..][1..] == bs[i + 1..];
    UsedSumAppend(bs[..i], bs[i..]);
  }

  lemma CarvedSum(bs: seq<Blk>, i: nat, need: nat)
    requires i < |bs| && Fits(bs[i], need)
    ensures UsedSum(Carved(bs, i, need)) == UsedSum(bs) + Carved(bs, i, need)[i].size
  {
    hide UsedSum;
    var r := Carved(bs, i, need);
    UsedSumAt(bs, i);
    UsedSumAt(r, i);
    assert r[..i] == bs[..i];
    if Splits(bs[i], need) {
      UsedSumAt(r[i + 1..], 0);
      assert r[i + 1..][..0] == [] && r[i + 1..][1..] == bs[i + 1..] && !r[i + 1..][0].used;
      UsedSumNil();
    } else {
      assert r[i + 1..] == bs[i + 1..];
    }
  }

  lemma UsedSumNil()
    ensures UsedSum([]) == 0
  {
  }

  // ---------------- freeing, on bytes and blocks ----------------

  /** Block `i` given back, and joined to the free block before it, and then to the one behind. */
  ghost function JoinBack(bs: seq<Blk>, i: nat): (r: seq<Blk>)
    requires i < |bs|
  {
    if i > 0 && !bs[i - 1].used then Joined(bs, i - 1) else bs
  }

  ghost function BackIndex(bs: seq<Blk>, i: nat): nat
    requires i < |bs|
  {
    if i > 0 && !bs[i - 1].used then i - 1 else i
  }

  ghost function JoinFront(bs: seq<Blk>, i: nat): (r: seq<Blk>)
    requires i < |bs|
  {
    if i + 1 < |bs| && !bs[i + 1].used then Joined(bs, i) else bs
  }

  ghost function Released(bs: seq<Blk>, i: nat): (r: seq<Blk>)
    requires i < |bs|
  {
    var g := bs[i := bs[i].(used := false)];
    JoinFront(JoinBack(g, i), BackIndex(g, i))
  }

  /** The block before `i` is free exactly when the list predecessor ends where `i` begins. */
  lemma BackAdjacent(mem: seq<Byte>, bs: seq<Blk>, head: nat, i: nat)
    requires Rep(mem, bs, head) && i < |bs|
    ensures var prev := Last(Before(bs, i));
      && (i > 0 && !bs[i - 1].used ==> prev == bs[i - 1].off && bs[i - 1].End() == bs[i].off)
      && (prev != END ==> prev + HDR <= |mem| && (prev + HDR + HdrAt(mem, prev).size == bs[i].off
                                                  <==> i > 0 && !bs[i - 1].used))
  {
    hide HdrAt, Seg, FreeOffs, Tiles;
    RepApart(mem, bs, head);
    RepBlock(mem, bs, head, i);
    var a := Before(bs, i);
    TilesSplit(bs, 0, |mem|, i);
    if i > 0 {
      assert bs[..i][..i - 1] == bs[..i - 1] && bs[..i][i..] == [];
      FreeOffsAt(bs[..i], i - 1);
      FreeOffsNil();
      TilesSplit(bs, 0, |mem|, i - 1);
      TilesHead(bs[i..], bs[i - 1].End(), |mem|);
      assert HeaderOk(mem, bs[i - 1]);
    } else {
      FreeOffsNil();
      assert bs[..0] == [];
    }
    if a != [] {
      assert Last(a) in a;
      FreeOffsIn(bs[..i], 0, bs[i].off, Last(a));
      var p :| 0 <= p < |bs[..i]| && bs[..i][p].off == Last(a) && !bs[..i][p].used;
      assert bs[p].off == Last(a) && HeaderOk(mem, bs[p]) && bs[p].End() <= bs[i].off;
      if p < i - 1 {
        assert bs[p].End() <= bs[i - 1].off;
      }
    }
  }

  /** The block behind `i` is free exactly when `i` ends where its list successor begins. */
  lemma FrontAdjacent(mem: seq<Byte>, bs: seq<Blk>, head: nat, i: nat)
    requires Rep(mem, bs, head) && i < |bs| && !bs[i].used
    ensures var next := HdrAt(mem, bs[i].off).next;
      && next == First(After(bs, i), END)
      && (bs[i].End() == next && next != END <==> i + 1 < |bs| && !bs[i + 1].used)
      && (i + 1 < |bs| && !bs[i + 1].used ==> bs[i + 1].off == next && HeaderOk(mem, bs[i + 1]))
  {
    hide HdrAt, Seg, FreeOffs, Tiles;
    RepApart(mem, bs, head);
    RepBlock(mem, bs, head, i);
    ListAroundFree(mem, bs, head, i);
    TilesSplit(bs, 0, |mem|, i);
    var b := After(bs, i);
    if i + 1 < |bs| {
      RepBlock(mem, bs, head, i + 1);
      FreeOffsAt(bs[i + 1..], 0);
      assert bs[i + 1..][..0] == [] && bs[i + 1..][1..] == bs[i + 2..];
      FreeOffsNil();
      TilesHead(bs[i + 1..], bs[i].End(), |mem|);
    } else {
      assert bs[i + 1..] == [];
      FreeOffsNil();
    }
    if b != [] {
      assert b[0] in b;
      FreeOffsIn(bs[i + 1..], bs[i].End(), |mem|, b[0]);
      var p :| 0 <= p < |bs[i + 1..]| && bs[i + 1..][p].off == b[0] && !bs[i + 1..][p].used;
      assert bs[i + 1 + p].off == b[0];
      if p > 0 {
        assert bs[i + 1].End() <= bs[i + 1 + p].off;
      }
    }
  }

  lemma JoinedKeeps(bs: seq<Blk>, i: nat, k: nat)
    requires i + 1 < |bs| && k < |bs| && bs[k].used && !bs[i].used && !bs[i + 1].used
    ensures bs[k] in Joined(bs, i)
  {
    var r := Joined(bs, i);
    assert bs[k] == if k < i then r[k] else r[k - 1];
  }

  lemma JoinedAt(bs: seq<Blk>, i: nat)
    requires i + 1 < |bs|
    ensures var r := Joined(bs, i);
      |r| == |bs| - 1 && !r[i].used && r[i].off == bs[i].off && r[i].size == bs[i].size + HDR + bs[i + 1].size
      && (forall j :: 0 <= j < i ==> r[j] == bs[j]) && (forall j :: i < j < |r| ==> r[j] == bs[j + 1])
  {
  }

  lemma ReleasedNoAdjacent(bs: seq<Blk>, i: nat)
    requires NoAdjacentFree(bs) && i < |bs| && bs[i].used
    ensures NoAdjacentFree(Released(bs, i))
  {
    hide Joined;
    var g := bs[i := bs[i].(used := false)];
    var b, j := JoinBack(g, i), BackIndex(g, i);
    if i > 0 && !g[i - 1].used {
      JoinedAt(g, i - 1);
    }
    BackSettled(bs, i);
    if j + 1 < |b| && !b[j + 1].used {
      JoinedAt(b, j);
      FrontSettled(b, j);
    }
  }

  /** After the first join only block `j` and the one behind it may both be free. */
  lemma BackSettled(bs: seq<Blk>, i: nat)
    requires NoAdjacentFree(bs) && i < |bs| && bs[i].used
    ensures var g := bs[i := bs[i].(used := false)]; var b, j := JoinBack(g, i), BackIndex(g, i);
      j < |b| && !b[j].used && forall x, y :: 0 <= x < y < |b| && y == x + 1 && x != j ==> b[x].used || b[y].used
  {
    hide Joined;
    var g := bs[i := bs[i].(used := false)];
    var b, j := JoinBack(g, i), BackIndex(g, i);
    if i > 0 && !g[i - 1].used {
      JoinedAt(g, i - 1);
    }
    forall x, y | 0 <= x < y < |b| && y == x + 1 && x != j ensures b[x].used || b[y].used {
      if j == i {
        assert y == i || bs[x].used || bs[y].used;
      } else if y <= j {
        assert bs[x].used || bs[y].used;
      } else {
        assert bs[x + 1].used || bs[y + 1].used;
      }
    }
  }

  lemma FrontSettled(b: seq<Blk>, j: nat)
    requires j + 1 < |b| && !b[j].used && !b[j + 1].used
    requires forall x, y :: 0 <= x < y < |b| && y == x + 1 && x != j ==> b[x].used || b[y].used
    ensures NoAdjacentFree(Joined(b, j))
  {
    hide Joined;
    JoinedAt(b, j);
    var r := Joined(b, j);
    forall x, y | 0 <= x < y < |r| && y == x + 1 ensures r[x].used || r[y].used {
      if y <= j {
        assert b[x].used || b[y].used;
      } else {
        assert b[x + 1].used || b[y + 1].used;
      }
    }
  }

  lemma JoinedSum(bs: seq<Blk>, i: nat)
    requires i + 1 < |bs| && !bs[i].used && !bs[i + 1].used
    ensures UsedSum(Joined(bs, i)) == UsedSum(bs)
  {
    hide UsedSum;
    var r := Joined(bs, i);
    UsedSumAt(bs, i);
    UsedSumAt(bs[i + 1..], 0);
    UsedSumAt(r, i);
    UsedSumNil();
    assert r[..i] == bs[..i] && r[i + 1..] == bs[i + 2..];
    assert bs[i + 1..][..0] == [] && bs[i + 1..][1..] == bs[i + 2..];
  }

  lemma ReleasedSum(bs: seq<Blk>, i: nat)
    requires i < |bs| && bs[i].used
    ensures UsedSum(Released(bs, i)) == UsedSum(bs) - bs[i].size
  {
    hide UsedSum, Joined;
    var g := bs[i := bs[i].(used := false)];
    UsedSumAt(bs, i);
    UsedSumAt(g, i);
    assert g[..i] == bs[..i] && g[i + 1..] == bs[i + 1..];
    var b, j := JoinBack(g, i), BackIndex(g, i);
    if i > 0 && !g[i - 1].used {
      JoinedSum(g, i - 1);
      JoinedAt(g, i - 1);
    }
    if j + 1 < |b| && !b[j + 1].used {
      JoinedSum(b, j);
    }
  }

  // ---------------- writing a payload ----------------

  /** Bytes written inside the payload of a block in use disturb no header and no other payload. */
  lemma PayloadWritten(mem: seq<Byte>, r: seq<Byte>, bs: seq<Blk>, head: nat, i: nat)
    requires Rep(mem, bs, head) && i < |bs| && bs[i].used && |r| == |mem|
    requires forall j :: 0 <= j < |mem| && (j < bs[i].off + HDR || bs[i].End() <= j) ==> r[j] == mem[j]
    ensures Rep(r, bs, head)
    ensures forall k :: 0 <= k < |bs| && k != i ==> Kept(mem, r, bs[k])
  {
    hide HdrAt, Tiles, FreeOffs;
    RepApart(mem, bs, head);
    forall k | 0 <= k < |bs| ensures HdrAt(r, bs[k].off) == HdrAt(mem, bs[k].off) && bs[k].End() <= |mem| {
      RepBlock(mem, bs, head, k);
      HdrSame(r, mem, bs[k].off);
    }
    forall k | 0 <= k < |bs| ensures HeaderOk(r, bs[k]) {
      assert HeaderOk(mem, bs[k]);
    }
    var fl := FreeOffs(bs);
    forall x | x in fl ensures x + HDR <= |r| && HdrAt(r, x) == HdrAt(mem, x) {
      FreeOffsIn(bs, 0, |mem|, x);
    }
    SegFrame(mem, r, fl, END);
  }
}
