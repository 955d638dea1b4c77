/** The four rearrangements kmalloc and kfree are made of, each on bytes and on blocks at once:
    a free block is taken off the list, a block in use is put back on it, a free block is split
    in two, and two neighbouring free blocks are joined. */
module HeapSteps {
  import opened Bytes
  import opened HeapModel

  function Unlinked(head: nat, prev: nat, next: nat): nat { if prev == END then next else head }

  lemma TilesReplace(bs: seq<Blk>, n: nat, i: nat, k: nat, mid: seq<Blk>)
    requires Tiles(bs, 0, n) && i < i + k <= |bs|
    requires Tiles(mid, bs[i].off, bs[i + k - 1].End())
    ensures Tiles(bs[..i] + mid + bs[i + k..], 0, n)
  {
    hide Tiles;
    TilesSplit(bs, 0, n, i);
    TilesSplit(bs, 0, n, i + k - 1);
    TilesJoin(bs[..i], mid, 0, bs[i].off, bs[i + k - 1].End());
    TilesJoin(bs[..i] + mid, bs[i + k..], 0, bs[i + k - 1].End(), n);
  }

  lemma TilesOne(b: Blk)
    requires b.off % 16 == 0 && b.size % 16 == 0
    ensures Tiles([b], b.off, b.End())
  {
  }

  lemma TilesUpdate(bs: seq<Blk>, n: nat, i: nat, used: bool)
    requires Tiles(bs, 0, n) && i < |bs|
    ensures Tiles(bs[i := bs[i].(used := used)], 0, n)
    ensures var r := bs[i := bs[i].(used := used)]; Before(r, i) == Before(bs, i) && After(r, i) == After(bs, i)
  {
    hide Tiles, FreeOffs;
    var b := bs[i].(used := used);
    TilesSplit(bs, 0, n, i);
    TilesOne(b);
    TilesReplace(bs, n, i, 1, [b]);
    var r := bs[i := b];
    assert r == bs[..i] + [b] + bs[i + 1..];
    assert r[..i] == bs[..i] && r[i + 1..] == bs[i + 1..];
  }

  // ---------------- taking a block off the list ----------------

  function TakeMem(mem: seq<Byte>, prev: nat, c: nat): (r: seq<Byte>)
    requires c + HDR <= |mem| && (prev == END || prev + HDR <= |mem|)
    ensures |r| == |mem|
  {
    HdrAtFits(mem, c);
    var m := Relink(mem, prev, HdrAt(mem, c).next);
    HdrAtFits(m, c);
    PutHdr(m, c, HdrAt(m, c).(magic := MAGIC_USED, used := 1))
  }

  lemma TakeHeaders(mem: seq<Byte>, bs: seq<Blk>, prev: nat, i: nat)
    requires Tiles(bs, 0, |mem|) && AllHeaders(mem, bs) && i < |bs|
    requires bs[i].off + HDR <= |mem| && (prev == END || (prev + HDR <= |mem| && prev % 16 == 0 && prev != bs[i].off))
    ensures AllHeaders(TakeMem(mem, prev, bs[i].off), bs[i := bs[i].(used := true)])
  {
    hide PutHdr, HdrAt, Tiles, Relink;
    OffsAligned(bs, |mem|);
    var c := bs[i].off;
    HdrAtFits(mem, c);
    var m := Relink(mem, prev, HdrAt(mem, c).next);
    RelinkKeeps(mem, bs, prev, HdrAt(mem, c).next);
    RelinkOther(mem, prev, HdrAt(mem, c).next, c);
    HdrAtFits(m, c);
    var h := HdrAt(m, c).(magic := MAGIC_USED, used := 1);
    PutHdrReads(m, c, h);
    var r := bs[i := bs[i].(used := true)];
    forall j | 0 <= j < |r| ensures HeaderOk(PutHdr(m, c, h), r[j]) {
      assert HeaderOk(m, bs[j]);
      if j != i {
        assert bs[j].off != c;
        PutHdrOther(m, c, h, bs[j].off);
      }
    }
  }

  /** Unlinking a free block and marking it used. */
  lemma Take(mem: seq<Byte>, bs: seq<Blk>, head: nat, i: nat)
    requires Rep(mem, bs, head) && i < |bs| && !bs[i].used
    ensures var c, prev := bs[i].off, Last(Before(bs, i));
      && c + HDR <= |mem| && (prev == END || prev + HDR <= |mem|)
      && Rep(TakeMem(mem, prev, c), bs[i := bs[i].(used := true)], Unlinked(head, prev, HdrAt(mem, c).next))
  {
    hide PutHdr, HdrAt, Tiles, Relink, Seg, FreeOffs, AllHeaders;
    var a, b, c := Before(bs, i), After(bs, i), bs[i].off;
    var prev, next := Last(a), First(b, END);
    Around(bs, |mem|, i);
    ListAroundFree(mem, bs, head, i);
    var r := bs[i := bs[i].(used := true)];
    TilesUpdate(bs, |mem|, i, true);
    TakeHeaders(mem, bs, prev, i);
    HdrAtFits(mem, c);
    var m := Relink(mem, prev, next);
    RelinkSeg(mem, a, c, next);
    assert prev !in b;
    SegRelinkOther(mem, b, END, prev, next);
    HdrAtFits(m, c);
    var h := HdrAt(m, c).(magic := MAGIC_USED, used := 1);
    SegPut(m, a, next, c, h);
    SegPut(m, b, END, c, h);
    ListAroundUsed(TakeMem(mem, prev, c), r, Unlinked(head, prev, next), i);
  }

  // ---------------- putting a block back ----------------

  function GiveMem(mem: seq<Byte>, prev: nat, c: nat, next: nat): (r: seq<Byte>)
    requires c + HDR <= |mem| && (prev == END || prev + HDR <= |mem|) && next < U32 && c < U32
    ensures |r| == |mem|
  {
    HdrAtFits(mem, c);
    Relink(PutHdr(mem, c, HdrAt(mem, c).(magic := MAGIC_FREE, used := 0, next := next)), prev, c)
  }

  lemma GiveHeaders(mem: seq<Byte>, bs: seq<Blk>, prev: nat, next: nat, i: nat)
    requires Tiles(bs, 0, |mem|) && AllHeaders(mem, bs) && i < |bs| && next < U32
    requires bs[i].off + HDR <= |mem| && bs[i].off < U32 && (prev == END || (prev + HDR <= |mem| && prev % 16 == 0))
    ensures AllHeaders(GiveMem(mem, prev, bs[i].off, next), bs[i := bs[i].(used := false)])
  {
    hide PutHdr, HdrAt, Tiles, Relink;
    OffsAligned(bs, |mem|);
    var c := bs[i].off;
    HdrAtFits(mem, c);
    var h := HdrAt(mem, c).(magic := MAGIC_FREE, used := 0, next := next);
    var m := PutHdr(mem, c, h);
    PutHdrReads(mem, c, h);
    var r := bs[i := bs[i].(used := false)];
    forall j | 0 <= j < |r| ensures HeaderOk(m, r[j]) {
      assert HeaderOk(mem, bs[j]);
      if j != i {
        assert bs[j].off != c;
        PutHdrOther(mem, c, h, bs[j].off);
      }
    }
    RelinkKeeps(m, r, prev, c);
  }

  /** Marking a block free and linking it in between its free neighbours. */
  lemma Give(mem: seq<Byte>, bs: seq<Blk>, head: nat, i: nat)
    requires Rep(mem, bs, head) && i < |bs| && bs[i].used
    ensures var c, prev, next := bs[i].off, Last(Before(bs, i)), First(After(bs, i), END);
      && c + HDR <= |mem| < END && (prev == END || prev + HDR <= |mem|) && next < U32
      && Rep(GiveMem(mem, prev, c, next), bs[i := bs[i].(used := false)], Unlinked(head, prev, c))
  {
    hide PutHdr, HdrAt, Tiles, Relink, Seg, FreeOffs, AllHeaders;
    var a, b, c := Before(bs, i), After(bs, i), bs[i].off;
    var prev, next := Last(a), First(b, END);
    Around(bs, |mem|, i);
    ListAroundUsed(mem, bs, head, i);
    var r := bs[i := bs[i].(used := false)];
    TilesUpdate(bs, |mem|, i, false);
    GiveHeaders(mem, bs, prev, next, i);
    HdrAtFits(mem, c);
    var h := HdrAt(mem, c).(magic := MAGIC_FREE, used := 0, next := next);
    var m := PutHdr(mem, c, h);
    PutHdrReads(mem, c, h);
    SegPut(mem, a, next, c, h);
    SegPut(mem, b, END, c, h);
    RelinkSeg(m, a, next, c);
    assert prev !in b;
    SegRelinkOther(m, b, END, prev, c);
    RelinkOther(m, prev, c, c);
    ListAroundFree(GiveMem(mem, prev, c, next), r, Unlinked(head, prev, c), i);
  }

  // ---------------- joining two free blocks ----------------

  function JoinMem(mem: seq<Byte>, c: nat, n: nat): (r: seq<Byte>)
    requires c + HDR <= |mem| && n + HDR <= |mem| && HdrAt(mem, c).size + HDR + HdrAt(mem, n).size < U32
    ensures |r| == |mem|
  {
    HdrAtFits(mem, c);
    HdrAtFits(mem, n);
    PutHdr(mem, c, HdrAt(mem, c).(size := HdrAt(mem, c).size + HDR + HdrAt(mem, n).size, next := HdrAt(mem, n).next))
  }

  ghost function Joined(bs: seq<Blk>, i: nat): seq<Blk>
    requires i + 1 < |bs|
  {
    bs[..i] + [Blk(bs[i].off, bs[i].size + HDR + bs[i + 1].size, false)] + bs[i + 2..]
  }

  lemma JoinedLists(bs: seq<Blk>, n: nat, i: nat)
    requires Tiles(bs, 0, n) && i + 1 < |bs| && !bs[i].used && !bs[i + 1].used
    ensures Tiles(Joined(bs, i), 0, n) && bs[i + 1].off == bs[i].End() && bs[i + 1].End() <= n
    ensures Before(Joined(bs, i), i) == Before(bs, i)
    ensures After(bs, i) == [bs[i + 1].off] + After(Joined(bs, i), i)
    ensures After(Joined(bs, i), i) == After(bs, i + 1)
  {
    hide Tiles, FreeOffs;
    TilesSplit(bs, 0, n, i);
    TilesSplit(bs, 0, n, i + 1);
    TilesHead(bs[i + 1..], bs[i].End(), n);
    var j := Joined(bs, i);
    TilesOne(j[i]);
    TilesReplace(bs, n, i, 2, [j[i]]);
    assert j[..i] == bs[..i] && j[i + 1..] == bs[i + 2..];
    FreeOffsAt(bs[i + 1..], 0);
    assert bs[i + 1..][..0] == [] && bs[i + 1..][1..] == bs[i + 2..];
    FreeOffsNil();
  }

  lemma TilesHead(bs: seq<Blk>, lo: nat, hi: nat)
    requires Tiles(bs, lo, hi) && bs != []
    ensures bs[0].off == lo
  {
  }

  lemma FreeOffsNil()
    ensures FreeOffs([]) == []
  {
  }

  lemma JoinHeaders(mem: seq<Byte>, bs: seq<Blk>, i: nat)
    requires Tiles(bs, 0, |mem|) && AllHeaders(mem, bs) && i + 1 < |bs| && |mem| < END
    requires !bs[i].used && !bs[i + 1].used && bs[i + 1].off == bs[i].End() && bs[i + 1].End() <= |mem|
    ensures HdrAt(mem, bs[i].off).size == bs[i].size && HdrAt(mem, bs[i + 1].off).size == bs[i + 1].size
    ensures AllHeaders(JoinMem(mem, bs[i].off, bs[i + 1].off), Joined(bs, i))
  {
    hide PutHdr, HdrAt, Tiles;
    OffsAligned(bs, |mem|);
    var c, n := bs[i].off, bs[i + 1].off;
    assert HeaderOk(mem, bs[i]) && HeaderOk(mem, bs[i + 1]);
    HdrAtFits(mem, c);
    HdrAtFits(mem, n);
    var h := HdrAt(mem, c).(size := HdrAt(mem, c).size + HDR + HdrAt(mem, n).size, next := HdrAt(mem, n).next);
    PutHdrReads(mem, c, h);
    var r := Joined(bs, i);
    forall j | 0 <= j < |r| ensures HeaderOk(PutHdr(mem, c, h), r[j]) {
      if j != i {
        var k := if j < i then j else j + 1;
        assert r[j] == bs[k] && HeaderOk(mem, bs[k]) && bs[k].off != c;
        PutHdrOther(mem, c, h, bs[k].off);
      }
    }
  }

  /** Absorbing the free block right behind a free one. */
  lemma Join(mem: seq<Byte>, bs: seq<Blk>, head: nat, i: nat)
    requires Rep(mem, bs, head) && i + 1 < |bs| && !bs[i].used && !bs[i + 1].used
    ensures var c, n := bs[i].off, bs[i + 1].off;
      && n == bs[i].End() && n + HDR <= |mem| < END
      && HdrAt(mem, c).size == bs[i].size && HdrAt(mem, n).size == bs[i + 1].size && bs[i + 1].End() <= |mem|
      && HdrAt(mem, c).next == n
      && Rep(JoinMem(mem, c, n), Joined(bs, i), head)
  {
    hide PutHdr, HdrAt, Tiles, Seg, FreeOffs, AllHeaders;
    var a, b, c, n := Before(bs, i), After(bs, i + 1), bs[i].off, bs[i + 1].off;
    JoinedLists(bs, |mem|, i);
    JoinHeaders(mem, bs, i);
    Around(bs, |mem|, i);
    Around(bs, |mem|, i + 1);
    ListAroundFree(mem, bs, head, i);
    ListAroundFree(mem, bs, head, i + 1);
    var r := Joined(bs, i);
    HdrAtFits(mem, c);
    HdrAtFits(mem, n);
    var h := HdrAt(mem, c).(size := HdrAt(mem, c).size + HDR + HdrAt(mem, n).size, next := HdrAt(mem, n).next);
    PutHdrReads(mem, c, h);
    SegPut(mem, a, c, c, h);
    assert c !in b;
    SegPut(mem, b, END, c, h);
    ListAroundFree(JoinMem(mem, c, n), r, head, i);
  }

  // ---------------- splitting a free block ----------------

  function SplitMem(mem: seq<Byte>, c: nat, need: nat): (r: seq<Byte>)
    requires c + HDR <= |mem| && HDR + need <= HdrAt(mem, c).size && c + HDR + need + HDR <= |mem| < U32
    ensures |r| == |mem|
  {
    HdrAtFits(mem, c);
    var h, rest := HdrAt(mem, c), c + HDR + need;
    var m := PutHdr(mem, rest, Header(MAGIC_FREE, h.size - need - HDR, h.next, 0));
    PutHdr(m, c, h.(size := need, next := rest))
  }

  ghost function Split2(bs: seq<Blk>, i: nat, need: nat): seq<Blk>
    requires i < |bs| && HDR + need <= bs[i].size
  {
    bs[..i] + [Blk(bs[i].off, need, false), Blk(bs[i].off + HDR + need, bs[i].size - need - HDR, false)] + bs[i + 1..]
  }

  lemma SplitLists(bs: seq<Blk>, n: nat, i: nat, need: nat)
    requires Tiles(bs, 0, n) && i < |bs| && !bs[i].used && need % 16 == 0 && HDR + need <= bs[i].size
    ensures Tiles(Split2(bs, i, need), 0, n)
    ensures Before(Split2(bs, i, need), i) == Before(bs, i)
    ensures After(Split2(bs, i, need), i + 1) == After(bs, i)
    ensures After(Split2(bs, i, need), i) == [bs[i].off + HDR + need] + After(bs, i)
  {
    hide Tiles, FreeOffs;
    TilesSplit(bs, 0, n, i);
    var s := Split2(bs, i, need);
    TilesOne(s[i]);
    TilesOne(s[i + 1]);
    TilesJoin([s[i]], [s[i + 1]], s[i].off, s[i + 1].off, s[i + 1].End());
    assert [s[i]] + [s[i + 1]] == [s[i], s[i + 1]];
    TilesReplace(bs, n, i, 1, [s[i], s[i + 1]]);
    assert s[..i] == bs[..i] && s[i + 2..] == bs[i + 1..];
    FreeOffsAt(s[i + 1..], 0);
    assert s[i + 1..][..0] == [] && s[i + 1..][1..] == s[i + 2..];
    FreeOffsNil();
  }

  lemma SplitHeaders(mem: seq<Byte>, bs: seq<Blk>, i: nat, need: nat)
    requires Tiles(bs, 0, |mem|) && AllHeaders(mem, bs) && i < |bs| && !bs[i].used && |mem| < END
    requires need % 16 == 0 && HDR + need <= bs[i].size && bs[i].End() <= |mem|
    ensures HdrAt(mem, bs[i].off).size == bs[i].size
    ensures AllHeaders(SplitMem(mem, bs[i].off, need), Split2(bs, i, need))
  {
    hide HdrAt, Tiles, HeaderOk, SplitMem;
    SplitReads(mem, bs, i, need);
    var s, m := Split2(bs, i, need), SplitMem(mem, bs[i].off, need);
    forall j | 0 <= j < |s| ensures HeaderOk(m, s[j]) {
      if j < i {
        SplitOther(mem, bs, i, need, j);
      } else if i + 1 < j {
        SplitOther(mem, bs, i, need, j - 1);
      }
    }
  }

  /** The two halves read as headers of their own. */
  lemma SplitReads(mem: seq<Byte>, bs: seq<Blk>, i: nat, need: nat)
    requires Tiles(bs, 0, |mem|) && AllHeaders(mem, bs) && i < |bs| && !bs[i].used && |mem| < END
    requires need % 16 == 0 && HDR + need <= bs[i].size && bs[i].End() <= |mem|
    ensures var c := bs[i].off; HdrAt(mem, c).size == bs[i].size && c + HDR <= |mem|
    ensures var c := bs[i].off;
      && HeaderOk(SplitMem(mem, c, need), Blk(c, need, false))
      && HeaderOk(SplitMem(mem, c, need), Blk(c + HDR + need, bs[i].size - need - HDR, false))
  {
    hide PutHdr, HdrAt, Tiles;
    TilesSplit(bs, 0, |mem|, i);
    assert HeaderOk(mem, bs[i]);
    hide AllHeaders;
    var c, rest := bs[i].off, bs[i].off + HDR + need;
    HdrAtFits(mem, c);
    var h := HdrAt(mem, c);
    var hr := Header(MAGIC_FREE, h.size - need - HDR, h.next, 0);
    var hc := h.(size := need, next := rest);
    PutHdrReads(mem, rest, hr);
    PutHdrReads(PutHdr(mem, rest, hr), c, hc);
    PutHdrApart(PutHdr(mem, rest, hr), c, hc, rest);
  }

  lemma SplitOther(mem: seq<Byte>, bs: seq<Blk>, i: nat, need: nat, k: nat)
    requires Tiles(bs, 0, |mem|) && AllHeaders(mem, bs) && i < |bs| && k < |bs| && k != i && |mem| < END
    requires need % 16 == 0 && HDR + need <= bs[i].size == HdrAt(mem, bs[i].off).size && bs[i].End() <= |mem|
    ensures HeaderOk(SplitMem(mem, bs[i].off, need), bs[k])
  {
    hide PutHdr, HdrAt, Tiles, HeaderOk, AllHeaders;
    TilesSplit(bs, 0, |mem|, i);
    Elsewhere(bs, |mem|, i, k);
    var c, rest := bs[i].off, bs[i].off + HDR + need;
    HdrAtFits(mem, c);
    var h := HdrAt(mem, c);
    var hr := Header(MAGIC_FREE, h.size - need - HDR, h.next, 0);
    OtherHeader(mem, bs, k, c, rest, hr, h.(size := need, next := rest));
  }

  lemma Elsewhere(bs: seq<Blk>, n: nat, i: nat, k: nat)
    requires Tiles(bs, 0, n) && i < |bs| && k < |bs| && k != i
    ensures bs[k].off % 16 == 0 && (bs[k].off < bs[i].off || bs[i].End() <= bs[k].off)
  {
    hide Tiles;
    TilesSplit(bs, 0, n, k);
    if k < i {
      TilesApart(bs, 0, n, k, i);
    } else {
      TilesApart(bs, 0, n, i, k);
    }
  }

  lemma OtherHeader(mem: seq<Byte>, bs: seq<Blk>, k: nat, c: nat, rest: nat, hr: Header, hc: Header)
    requires k < |bs| && AllHeaders(mem, bs) && bs[k].off % 16 == 0 && bs[k].off != c && bs[k].off != rest
    requires c + HDR <= |mem| && rest + HDR <= |mem| && c % 16 == 0 && rest % 16 == 0 && HdrFits(hr) && HdrFits(hc)
    ensures HeaderOk(PutHdr(PutHdr(mem, rest, hr), c, hc), bs[k])
  {
    hide PutHdr, HdrAt;
    assert HeaderOk(mem, bs[k]);
    PutHdrOther(mem, rest, hr, bs[k].off);
    PutHdrOther(PutHdr(mem, rest, hr), c, hc, bs[k].off);
  }

  /** Carving a free block in two; both halves are on the list, next to each other. */
  lemma Split(mem: seq<Byte>, bs: seq<Blk>, head: nat, i: nat, need: nat)
    requires Rep(mem, bs, head) && i < |bs| && !bs[i].used && need % 16 == 0 && HDR + need <= bs[i].size
    ensures bs[i].End() <= |mem| < END && HdrAt(mem, bs[i].off).size == bs[i].size
    ensures Rep(SplitMem(mem, bs[i].off, need), Split2(bs, i, need), head)
  {
    hide PutHdr, HdrAt, Tiles, Seg, FreeOffs, AllHeaders;
    var a, b, c := Before(bs, i), After(bs, i), bs[i].off;
    var rest := c + HDR + need;
    SplitLists(bs, |mem|, i, need);
    Around(bs, |mem|, i);
    SplitHeaders(mem, bs, i, need);
    ListAroundFree(mem, bs, head, i);
    HdrAtFits(mem, c);
    var h := HdrAt(mem, c);
    var hr := Header(MAGIC_FREE, h.size - need - HDR, h.next, 0);
    var m := PutHdr(mem, rest, hr);
    PutHdrReads(mem, rest, hr);
    assert rest !in a && rest !in b && c !in a && c !in b;
    SegPut(mem, a, c, rest, hr);
    SegPut(mem, b, END, rest, hr);
    var hc := h.(size := need, next := rest);
    PutHdrReads(m, c, hc);
    PutHdrOther(m, c, hc, rest);
    SegPut(m, a, c, c, hc);
    SegPut(m, b, END, c, hc);
    var r := PutHdr(m, c, hc);
    var s := Split2(bs, i, need);
    SegAppend(r, [rest], b, END);
    SegOne(r, rest, First(b, END));
    ListAroundFree(r, s, head, i);
  }

  // ---------------- payloads ----------------

  function Payload(mem: seq<Byte>, b: Blk): seq<Byte>
    requires b.End() <= |mem|
  {
    mem[b.off + HDR..b.End()]
  }

  /** Block `b` is in use before and after, and its bytes are the same. */
  ghost predicate Kept(mem: seq<Byte>, r: seq<Byte>, b: Blk) {
    b.End() <= |mem| == |r| && Payload(r, b) == Payload(mem, b)
  }

  /** Header writes inside the region of another block leave a block's payload alone. */
  lemma PayloadKept(mem: seq<Byte>, r: seq<Byte>, b: Blk, x: nat, y: nat)
    requires b.End() <= |mem| == |r|
    requires forall j :: 0 <= j < |mem| && (j < x || x + HDR <= j) && (j < y || y + HDR <= j) ==> r[j] == mem[j]
    requires x + HDR <= b.off + HDR || b.End() <= x
    requires y + HDR <= b.off + HDR || b.End() <= y
    ensures Kept(mem, r, b)
  {
  }

  // ---------------- byte counts ----------------

  ghost function UsedSum(bs: seq<Blk>): nat {
    if bs == [] then 0 else (if bs[0].used then bs[0].size else 0) + UsedSum(bs[1..])
  }

  ghost function FreeSum(bs: seq<Blk>): nat {
    if bs == [] then 0 else (if bs[0].used then 0 else bs[0].size) + FreeSum(bs[1..])
  }

  lemma {:induction false} UsedSumAppend(a: seq<Blk>, b: seq<Blk>)
    ensures UsedSum(a + b) == UsedSum(a) + UsedSum(b)
  {
    if a == [] {
      assert a + b == b;
    } else {
      UsedSumAppend(a[1..], b);
      assert (a + b)[1..] == a[1..] + b;
    }
  }

  /** Payloads and headers fill the region. */
  lemma {:induction false} SumsFill(bs: seq<Blk>, lo: nat, hi: nat)
    requires Tiles(bs, lo, hi)
    ensures UsedSum(bs) + FreeSum(bs) + HDR * |bs| == hi - lo
  {
    if bs != [] {
      TilesOrder(bs, lo, hi);
      SumsFill(bs[1..], bs[0].End(), hi);
    }
  }
}
