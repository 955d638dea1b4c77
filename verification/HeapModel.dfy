/** The kernel heap's region as bytes: sixteen-byte headers in band, blocks end to end, and the
    address-ordered free list threaded through the headers of the free ones. */
module HeapModel {
  import opened Bytes

  const HDR := 16
  const MAGIC_USED := 0x0B51_D1A0
  const MAGIC_FREE := 0xF4EE_B10C
  const END := 0xFFFF_FFFF

  datatype Header = Header(magic: nat, size: nat, next: nat, used: nat)

  function HdrAt(mem: seq<Byte>, off: nat): (h: Header)
    requires off + HDR <= |mem|
  {
    Header(Get32(mem, off), Get32(mem, off + 4), Get32(mem, off + 8), Get32(mem, off + 12))
  }

  predicate HdrFits(h: Header) {
    h.magic < U32 && h.size < U32 && h.next < U32 && h.used < U32
  }

  function PutHdr(mem: seq<Byte>, off: nat, h: Header): (r: seq<Byte>)
    requires off + HDR <= |mem| && HdrFits(h)
    ensures |r| == |mem|
    ensures forall j :: 0 <= j < |mem| && (j < off || off + HDR <= j) ==> r[j] == mem[j]
  {
    Put32(Put32(Put32(Put32(mem, off, h.magic), off + 4, h.size), off + 8, h.next), off + 12, h.used)
  }

  lemma PutHdrReads(mem: seq<Byte>, off: nat, h: Header)
    requires off + HDR <= |mem| && HdrFits(h)
    ensures HdrAt(PutHdr(mem, off, h), off) == h
  {
    hide Put32;
    var a := Put32(mem, off, h.magic);
    var b := Put32(a, off + 4, h.size);
    var c := Put32(b, off + 8, h.next);
    var d := Put32(c, off + 12, h.used);
    assert Get32(d, off) == Get32(a, off);
    assert Get32(d, off + 4) == Get32(b, off + 4);
    assert Get32(d, off + 8) == Get32(c, off + 8);
  }

  lemma HdrSame(a: seq<Byte>, b: seq<Byte>, off: nat)
    requires off + HDR <= |a| && off + HDR <= |b| && forall j :: off <= j < off + HDR ==> a[j] == b[j]
    ensures HdrAt(a, off) == HdrAt(b, off)
  {
  }

  // ---------------- blocks ----------------

  datatype Blk = Blk(off: nat, size: nat, used: bool) {
    function End(): nat { off + HDR + size }
  }

  /** Consecutive blocks from `lo` to `hi`, at multiples of sixteen. */
  ghost predicate Tiles(bs: seq<Blk>, lo: nat, hi: nat)
    decreases |bs|
  {
    if bs == [] then lo == hi
    else lo % 16 == 0 && bs[0].off == lo && bs[0].size % 16 == 0 && Tiles(bs[1..], bs[0].End(), hi)
  }

  lemma {:induction false} TilesOrder(bs: seq<Blk>, lo: nat, hi: nat)
    requires Tiles(bs, lo, hi)
    ensures lo <= hi
    decreases |bs|
  {
    if bs != [] {
      TilesOrder(bs[1..], bs[0].End(), hi);
    }
  }

  lemma {:induction false} TilesSplit(bs: seq<Blk>, lo: nat, hi: nat, i: nat)
    requires Tiles(bs, lo, hi) && i < |bs|
    ensures lo <= bs[i].off && bs[i].End() <= hi && bs[i].off % 16 == 0 && bs[i].size % 16 == 0
    ensures Tiles(bs[..i], lo, bs[i].off) && Tiles(bs[i + 1..], bs[i].End(), hi)
  {
    if i == 0 {
      TilesOrder(bs[1..], bs[0].End(), hi);
    } else {
      TilesSplit(bs[1..], bs[0].End(), hi, i - 1);
      assert bs[1..][..i - 1] == bs[..i][1..];
      assert bs[1..][i..] == bs[i + 1..];
    }
  }

  lemma {:induction false} TilesJoin(a: seq<Blk>, b: seq<Blk>, lo: nat, mid: nat, hi: nat)
    requires Tiles(a, lo, mid) && Tiles(b, mid, hi)
    ensures Tiles(a + b, lo, hi)
  {
    if a == [] {
      assert a + b == b;
    } else {
      TilesJoin(a[1..], b, a[0].End(), mid, hi);
      assert (a + b)[1..] == a[1..] + b;
    }
  }

  /** Of two blocks, the earlier one ends before the later one begins. */
  lemma TilesApart(bs: seq<Blk>, lo: nat, hi: nat, i: nat, j: nat)
    requires Tiles(bs, lo, hi) && i < j < |bs|
    ensures bs[i].End() <= bs[j].off
  {
    TilesSplit(bs, lo, hi, i);
    TilesSplit(bs[i + 1..], bs[i].End(), hi, j - i - 1);
  }

  // ---------------- the free list ----------------

  ghost function FreeOffs(bs: seq<Blk>): (fl: seq<nat>) {
    if bs == [] then [] else (if bs[0].used then [] else [bs[0].off]) + FreeOffs(bs[1..])
  }

  lemma FreeOffsCons(bs: seq<Blk>)
    requires bs != []
    ensures FreeOffs(bs) == (if bs[0].used then [] else [bs[0].off]) + FreeOffs(bs[1..])
  {
  }

  lemma {:induction false} FreeOffsAppend(a: seq<Blk>, b: seq<Blk>)
    ensures FreeOffs(a + b) == FreeOffs(a) + FreeOffs(b)
  {
    if a == [] {
      assert a + b == b;
    } else {
      hide FreeOffs;
      FreeOffsAppend(a[1..], b);
      assert (a + b)[0] == a[0] && (a + b)[1..] == a[1..] + b;
      FreeOffsCons(a);
      FreeOffsCons(a + b);
      Regroup(if a[0].used then [] else [a[0].off], FreeOffs(a[1..]), FreeOffs(b));
    }
  }

  /** The free list around block `i`. */
  lemma FreeOffsAt(bs: seq<Blk>, i: nat)
    requires i < |bs|
    ensures FreeOffs(bs) == FreeOffs(bs[..i]) + (if bs[i].used then [] else [bs[i].off]) + FreeOffs(bs[i + 1..])
  {
    hide FreeOffs;
    assert bs == bs[..i] + bs[i..] && bs[i..][1..] == bs[i + 1..];
    FreeOffsAppend(bs[..i], bs[i..]);
    FreeOffsCons(bs[i..]);
    Regroup(FreeOffs(bs[..i]), if bs[i].used then [] else [bs[i].off], FreeOffs(bs[i + 1..]));
  }

  lemma {:induction false} FreeOffsIn(bs: seq<Blk>, lo: nat, hi: nat, x: nat)
    requires Tiles(bs, lo, hi) && x in FreeOffs(bs)
    ensures lo <= x && x + HDR <= hi && x % 16 == 0
    ensures exists i :: 0 <= i < |bs| && bs[i].off == x && !bs[i].used
  {
    if !bs[0].used && x == bs[0].off {
      TilesSplit(bs, lo, hi, 0);
    } else {
      FreeOffsIn(bs[1..], bs[0].End(), hi, x);
      var i :| 0 <= i < |bs[1..]| && bs[1..][i].off == x && !bs[1..][i].used;
      assert bs[i + 1].off == x;
      TilesSplit(bs, lo, hi, 0);
    }
  }

  ghost function First(fl: seq<nat>, tail: nat): nat { if fl == [] then tail else fl[0] }

  ghost predicate Linked(mem: seq<Byte>, off: nat, next: nat) {
    off + HDR <= |mem| && HdrAt(mem, off).next == next
  }

  /** The headers at `fl` are linked in that order, and the last one to `tail`. */
  ghost predicate Seg(mem: seq<Byte>, fl: seq<nat>, tail: nat)
    decreases |fl|
  {
    fl == [] || (Linked(mem, fl[0], First(fl[1..], tail)) && Seg(mem, fl[1..], tail))
  }

  lemma {:induction false} SegAppend(mem: seq<Byte>, a: seq<nat>, b: seq<nat>, tail: nat)
    ensures Seg(mem, a + b, tail) <==> Seg(mem, a, First(b, tail)) && Seg(mem, b, tail)
  {
    if a == [] {
      assert a + b == b;
    } else {
      SegAppend(mem, a[1..], b, tail);
      assert (a + b)[1..] == a[1..] + b;
    }
  }

  lemma {:induction false} SegFrame(a: seq<Byte>, b: seq<Byte>, fl: seq<nat>, tail: nat)
    requires Seg(a, fl, tail)
    requires forall x :: x in fl ==> x + HDR <= |b| && (x + HDR <= |a| ==> HdrAt(b, x).next == HdrAt(a, x).next)
    ensures Seg(b, fl, tail)
  {
    if fl != [] {
      assert fl[0] in fl;
      forall x | x in fl[1..] ensures x in fl {}
      SegFrame(a, b, fl[1..], tail);
    }
  }

  /** The header of a block says what the block is. */
  ghost predicate HeaderOk(mem: seq<Byte>, b: Blk) {
    && b.off + HDR <= |mem|
    && var h := HdrAt(mem, b.off);
       && h.size == b.size
       && h.magic == (if b.used then MAGIC_USED else MAGIC_FREE)
       && h.used == (if b.used then 1 else 0)
  }

  /** The bytes represent the blocks. */
  ghost predicate Rep(mem: seq<Byte>, bs: seq<Blk>, head: nat) {
    && |mem| < END && Tiles(bs, 0, |mem|)
    && AllHeaders(mem, bs)
    && head == First(FreeOffs(bs), END) && Seg(mem, FreeOffs(bs), END)
  }

  ghost predicate NoAdjacentFree(bs: seq<Blk>) {
    forall i, j :: 0 <= i < j < |bs| && j == i + 1 ==> bs[i].used || bs[j].used
  }

  // ---------------- one header changes ----------------

  /** Headers sit at multiples of sixteen, so writing one leaves every other one alone. */
  lemma PutHdrOther(mem: seq<Byte>, off: nat, h: Header, o: nat)
    requires off + HDR <= |mem| && o + HDR <= |mem| && HdrFits(h)
    requires off % 16 == 0 && o % 16 == 0 && o != off
    ensures HdrAt(PutHdr(mem, off, h), o) == HdrAt(mem, o)
  {
    assert o + HDR <= off || off + HDR <= o;
    PutHdrApart(mem, off, h, o);
  }

  lemma PutHdrApart(mem: seq<Byte>, off: nat, h: Header, o: nat)
    requires off + HDR <= |mem| && o + HDR <= |mem| && HdrFits(h) && (o + HDR <= off || off + HDR <= o)
    ensures HdrAt(PutHdr(mem, off, h), o) == HdrAt(mem, o)
  {
    hide PutHdr, HdrAt;
    HdrSame(PutHdr(mem, off, h), mem, o);
  }

  lemma HdrAtFits(mem: seq<Byte>, off: nat)
    requires off + HDR <= |mem|
    ensures HdrFits(HdrAt(mem, off))
  {
  }

  function SetNext(mem: seq<Byte>, off: nat, next: nat): (r: seq<Byte>)
    requires off + HDR <= |mem| && next < U32
    ensures |r| == |mem|
  {
    HdrAtFits(mem, off);
    PutHdr(mem, off, HdrAt(mem, off).(next := next))
  }

  /** Pointing the list's predecessor (or its head) at `next`. */
  function Relink(mem: seq<Byte>, prev: nat, next: nat): (r: seq<Byte>)
    requires prev == END || prev + HDR <= |mem|
    requires next < U32
    ensures |r| == |mem|
  {
    if prev == END then mem else SetNext(mem, prev, next)
  }

  ghost function Last(fl: seq<nat>): nat { if fl == [] then END else fl[|fl| - 1] }

  ghost predicate Ascending(fl: seq<nat>) {
    forall i, j :: 0 <= i < j < |fl| ==> fl[i] < fl[j]
  }

  lemma {:induction false} FreeOffsAscend(bs: seq<Blk>, lo: nat, hi: nat)
    requires Tiles(bs, lo, hi)
    ensures Ascending(FreeOffs(bs)) && forall x :: x in FreeOffs(bs) ==> lo <= x && x + HDR <= hi && x % 16 == 0
  {
    forall x | x in FreeOffs(bs) ensures lo <= x && x + HDR <= hi && x % 16 == 0 {
      FreeOffsIn(bs, lo, hi, x);
    }
    if bs != [] {
      FreeOffsAscend(bs[1..], bs[0].End(), hi);
      var rest := FreeOffs(bs[1..]);
      forall j | 0 <= j < |rest| ensures bs[0].off < rest[j] {
        assert rest[j] in rest;
      }
    }
  }

  /** After relinking, the front of the list leads to `next`. */
  lemma {:induction false} RelinkSeg(mem: seq<Byte>, fl: seq<nat>, tail: nat, next: nat)
    requires Seg(mem, fl, tail) && Ascending(fl) && next < U32
    requires InRange(fl, 0, |mem|)
    ensures Last(fl) == END || Last(fl) + HDR <= |mem|
    ensures Seg(Relink(mem, Last(fl), next), fl, next)
  {
    hide PutHdr, HdrAt, Seg, Ascending;
    if fl == [] {
      SegNil(mem, next);
    } else {
      var n := |fl| - 1;
      var front, x := fl[..n], fl[n];
      assert fl == front + [x] && x in fl;
      assert x + HDR <= |mem|;
      hide InRange;
      HdrAtFits(mem, x);
      var h := HdrAt(mem, x).(next := next);
      var r := PutHdr(mem, x, h);
      PutHdrReads(mem, x, h);
      SegAppend(mem, front, [x], tail);
      FrontHeaders(mem, front, x, h);
      SegFrame(mem, r, front, x);
      SegOne(r, x, next);
      SegAppend(r, front, [x], next);
    }
  }

  lemma FrontHeaders(mem: seq<Byte>, front: seq<nat>, x: nat, h: Header)
    requires Ascending(front + [x]) && InRange(front + [x], 0, |mem|) && x + HDR <= |mem| && HdrFits(h)
    ensures forall y :: y in front ==> y + HDR <= |mem| && HdrAt(PutHdr(mem, x, h), y) == HdrAt(mem, y)
  {
    hide PutHdr, HdrAt;
    var fl, n := front + [x], |front|;
    assert fl[n] == x && x in fl;
    forall y | y in front ensures y + HDR <= |mem| && HdrAt(PutHdr(mem, x, h), y) == HdrAt(mem, y) {
      var k :| 0 <= k < n && front[k] == y;
      assert fl[k] == y && y in fl && fl[k] < fl[n];
      PutHdrOther(mem, x, h, y);
    }
  }

  lemma SegNil(mem: seq<Byte>, tail: nat)
    ensures Seg(mem, [], tail)
  {
  }

  lemma SegOne(mem: seq<Byte>, x: nat, tail: nat)
    ensures Seg(mem, [x], tail) <==> Linked(mem, x, tail)
  {
  }

  // ---------------- around one block ----------------

  ghost predicate AllHeaders(mem: seq<Byte>, bs: seq<Blk>) {
    forall i :: 0 <= i < |bs| ==> HeaderOk(mem, bs[i])
  }

  /** The free blocks before and after block `i`. */
  ghost function Before(bs: seq<Blk>, i: nat): seq<nat>
    requires i <= |bs|
  {
    FreeOffs(bs[..i])
  }

  ghost function After(bs: seq<Blk>, i: nat): seq<nat>
    requires i < |bs|
  {
    FreeOffs(bs[i + 1..])
  }

  ghost predicate InRange(fl: seq<nat>, lo: nat, hi: nat) {
    forall x :: x in fl ==> lo <= x && x + HDR <= hi && x % 16 == 0
  }

  /** The neighbourhood of block `i` of a tiling. */
  ghost predicate Neighbours(bs: seq<Blk>, n: nat, i: nat)
    requires i < |bs|
  {
    var a, b, c := Before(bs, i), After(bs, i), bs[i].off;
    && c % 16 == 0 && bs[i].size % 16 == 0 && bs[i].End() <= n
    && Ascending(a) && Ascending(b) && InRange(a, 0, c) && InRange(b, bs[i].End(), n)
    && (a != [] ==> Last(a) + HDR <= c && Last(a) % 16 == 0 && Last(a) in a && Last(a) != END)
    && (b != [] ==> bs[i].End() <= First(b, END) && First(b, END) + HDR <= n && First(b, END) in b)
    && First(b, END) < U32
  }

  lemma Around(bs: seq<Blk>, n: nat, i: nat)
    requires Tiles(bs, 0, n) && i < |bs| && n < END
    ensures Neighbours(bs, n, i)
  {
    hide Tiles, FreeOffs, Ascending;
    TilesSplit(bs, 0, n, i);
    FreeOffsAscend(bs[..i], 0, bs[i].off);
    FreeOffsAscend(bs[i + 1..], bs[i].End(), n);
    var a, b := Before(bs, i), After(bs, i);
    if a != [] {
      assert Last(a) in a;
    }
    if b != [] {
      assert b[0] in b;
    }
  }

  /** The list split at a block in use. */
  lemma ListAroundUsed(mem: seq<Byte>, bs: seq<Blk>, head: nat, i: nat)
    requires i < |bs| && bs[i].used
    ensures (head == First(FreeOffs(bs), END) && Seg(mem, FreeOffs(bs), END))
       <==> (Seg(mem, Before(bs, i), First(After(bs, i), END)) && Seg(mem, After(bs, i), END)
             && head == First(Before(bs, i), First(After(bs, i), END)))
  {
    hide Seg, FreeOffs;
    var a, b := Before(bs, i), After(bs, i);
    FreeOffsAt(bs, i);
    assert a + [] + b == a + b;
    SegAppend(mem, a, b, END);
  }

  /** The list split at a free block. */
  lemma ListAroundFree(mem: seq<Byte>, bs: seq<Blk>, head: nat, i: nat)
    requires i < |bs| && !bs[i].used
    ensures (head == First(FreeOffs(bs), END) && Seg(mem, FreeOffs(bs), END))
       <==> (Seg(mem, Before(bs, i), bs[i].off) && Linked(mem, bs[i].off, First(After(bs, i), END))
             && Seg(mem, After(bs, i), END) && head == First(Before(bs, i), bs[i].off))
  {
    hide Seg, FreeOffs, Linked;
    var a, b, c := Before(bs, i), After(bs, i), bs[i].off;
    FreeOffsAt(bs, i);
    assert a + [c] + b == a + ([c] + b);
    SegAppend(mem, a, [c] + b, END);
    SegAppend(mem, [c], b, END);
    SegOne(mem, c, First(b, END));
  }

  /** Rewriting a header with the same size, magic and use keeps every header right. */
  lemma RewriteKeeps(mem: seq<Byte>, bs: seq<Blk>, off: nat, h: Header)
    requires AllHeaders(mem, bs) && off + HDR <= |mem| && off % 16 == 0 && HdrFits(h)
    requires forall i :: 0 <= i < |bs| ==> bs[i].off % 16 == 0
    requires forall i :: 0 <= i < |bs| && bs[i].off == off ==> h == HdrAt(mem, off).(next := h.next)
    ensures AllHeaders(PutHdr(mem, off, h), bs)
  {
    hide PutHdr, HdrAt;
    PutHdrReads(mem, off, h);
    forall i | 0 <= i < |bs| ensures HeaderOk(PutHdr(mem, off, h), bs[i]) {
      assert HeaderOk(mem, bs[i]);
      if bs[i].off != off {
        PutHdrOther(mem, off, h, bs[i].off);
      }
    }
  }

  lemma SegPut(mem: seq<Byte>, fl: seq<nat>, tail: nat, off: nat, h: Header)
    requires Seg(mem, fl, tail) && InRange(fl, 0, |mem|) && off !in fl
    requires off + HDR <= |mem| && off % 16 == 0 && HdrFits(h)
    ensures Seg(PutHdr(mem, off, h), fl, tail)
  {
    hide PutHdr, HdrAt, Seg;
    forall x | x in fl ensures HdrAt(PutHdr(mem, off, h), x) == HdrAt(mem, x) {
      PutHdrOther(mem, off, h, x);
    }
    SegFrame(mem, PutHdr(mem, off, h), fl, tail);
  }

  lemma SegRelinkOther(mem: seq<Byte>, fl: seq<nat>, tail: nat, prev: nat, next: nat)
    requires Seg(mem, fl, tail) && InRange(fl, 0, |mem|) && prev !in fl && next < U32
    requires prev == END || (prev + HDR <= |mem| && prev % 16 == 0)
    ensures Seg(Relink(mem, prev, next), fl, tail)
  {
    hide PutHdr, HdrAt, Seg;
    if prev != END {
      HdrAtFits(mem, prev);
      SegPut(mem, fl, tail, prev, HdrAt(mem, prev).(next := next));
    }
  }

  lemma RelinkKeeps(mem: seq<Byte>, bs: seq<Blk>, prev: nat, next: nat)
    requires AllHeaders(mem, bs) && next < U32 && forall i :: 0 <= i < |bs| ==> bs[i].off % 16 == 0
    requires prev == END || (prev + HDR <= |mem| && prev % 16 == 0)
    ensures AllHeaders(Relink(mem, prev, next), bs)
  {
    hide PutHdr, HdrAt;
    if prev != END {
      HdrAtFits(mem, prev);
      RewriteKeeps(mem, bs, prev, HdrAt(mem, prev).(next := next));
    }
  }

  lemma RelinkOther(mem: seq<Byte>, prev: nat, next: nat, o: nat)
    requires prev == END || (prev + HDR <= |mem| && prev % 16 == 0)
    requires next < U32 && o + HDR <= |mem| && o % 16 == 0 && o != prev
    ensures HdrAt(Relink(mem, prev, next), o) == HdrAt(mem, o)
  {
    hide PutHdr, HdrAt;
    if prev != END {
      HdrAtFits(mem, prev);
      PutHdrOther(mem, prev, HdrAt(mem, prev).(next := next), o);
    }
  }

  lemma OffsAligned(bs: seq<Blk>, hi: nat)
    requires Tiles(bs, 0, hi)
    ensures forall i :: 0 <= i < |bs| ==> bs[i].off % 16 == 0
    ensures forall i, j :: 0 <= i < j < |bs| ==> bs[i].End() <= bs[j].off
  {
    hide Tiles;
    forall i | 0 <= i < |bs| ensures bs[i].off % 16 == 0 {
      TilesSplit(bs, 0, hi, i);
    }
    forall i, j | 0 <= i < j < |bs| ensures bs[i].End() <= bs[j].off {
      TilesApart(bs, 0, hi, i, j);
    }
  }
}
