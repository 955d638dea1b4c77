/** Bytes, the fixed-width fields packed into them, and single bits of a bitmap.
    All supported machines are little endian, so the packed on-disk and in-memory
    structures are read straight out of byte buffers. */
module Bytes {

  type Byte = x: int | 0 <= x < 256

  type Block = seq<Byte>

  /** A disk of `count` blocks of `size` bytes. */
  predicate IsDisk(disk: seq<Block>, count: nat, size: nat) {
    |disk| == count && forall b :: 0 <= b < |disk| ==> |disk[b]| == size
  }

  /** The block holding byte 1024 of a volume, where the superblock starts. */
  function SuperBlockAt(blockSize: nat): nat { if blockSize == 1024 then 1 else 0 }

  datatype Option<T> = None | Some(value: T)

  lemma Regroup<T>(a: seq<T>, b: seq<T>, c: seq<T>)
    ensures a + (b + c) == a + b + c
  {
  }

  const U16 := 0x1_0000
  const U32 := 0x1_0000_0000

  /** The little-endian 16-bit field at `off`. */
  function Get16(s: seq<Byte>, off: nat): (r: nat)
    requires off + 2 <= |s|
    ensures r < U16
  {
    s[off] as int + 0x100 * s[off + 1] as int
  }

  /** The little-endian 32-bit field at `off`. */
  function Get32(s: seq<Byte>, off: nat): (r: nat)
    requires off + 4 <= |s|
    ensures r < U32
  {
    s[off] as int + 0x100 * s[off + 1] as int + 0x1_0000 * s[off + 2] as int + 0x100_0000 * s[off + 3] as int
  }

  /** The big-endian 32-bit field at `off`. */
  function GetBe32(s: seq<Byte>, off: nat): (r: nat)
    requires off + 4 <= |s|
    ensures r < U32
  {
    s[off + 3] as int + 0x100 * s[off + 2] as int + 0x1_0000 * s[off + 1] as int + 0x100_0000 * s[off] as int
  }

  /** Storing a 16-bit field: it reads back, and no other byte moves. */
  function Put16(s: seq<Byte>, off: nat, v: nat): (r: seq<Byte>)
    requires off + 2 <= |s| && v < U16
    ensures |r| == |s| && Get16(r, off) == v
    ensures forall j :: 0 <= j < |s| && (j < off || off + 2 <= j) ==> r[j] == s[j]
  {
    s[off := v % 0x100][off + 1 := v / 0x100]
  }

  lemma Digits32(v: nat)
    requires v < U32
    ensures v == v % 0x100 + 0x100 * (v / 0x100 % 0x100) + 0x1_0000 * (v / 0x1_0000 % 0x100) + 0x100_0000 * (v / 0x100_0000)
    ensures v / 0x100_0000 < 0x100
  {
    Quotients(v, 0x100, 0x100);
    Quotients(v, 0x1_0000, 0x100);
    assert v / 0x1_0000 == v / 0x100 / 0x100 && v / 0x100_0000 == v / 0x1_0000 / 0x100;
  }

  lemma Quotients(v: nat, a: nat, b: nat)
    requires a == 0x100 || a == 0x1_0000
    requires b == 0x100
    ensures v / a == v / a / b * b + v / a % b
  {
  }

  /** Storing a 32-bit field: it reads back, and no other byte moves. */
  function Put32(s: seq<Byte>, off: nat, v: nat): (r: seq<Byte>)
    requires off + 4 <= |s| && v < U32
    ensures |r| == |s| && Get32(r, off) == v
    ensures forall j :: 0 <= j < |s| && (j < off || off + 4 <= j) ==> r[j] == s[j]
  {
    Digits32(v);
    s[off := v % 0x100][off + 1 := v / 0x100 % 0x100]
     [off + 2 := v / 0x1_0000 % 0x100][off + 3 := v / 0x100_0000]
  }

  /** Overwriting a stretch of a buffer (memcpy into the middle of a block). */
  function Patch(s: seq<Byte>, off: nat, piece: seq<Byte>): (r: seq<Byte>)
    requires off + |piece| <= |s|
    ensures |r| == |s| && r[off..off + |piece|] == piece
    ensures forall j :: 0 <= j < |s| && (j < off || off + |piece| <= j) ==> r[j] == s[j]
  {
    s[..off] + piece + s[off + |piece|..]
  }

  function Zeros(n: nat): (r: seq<Byte>)
    ensures |r| == n && forall j :: 0 <= j < n ==> r[j] == 0
  {
    seq(n, _ => 0)
  }

  // ---------------- bits ----------------

  predicate Bit(v: nat, k: nat) {
    if k == 0 then v % 2 == 1 else Bit(v / 2, k - 1)
  }

  function Pow2(n: nat): (p: nat)
    ensures p > 0
  {
    if n == 0 then 1 else 2 * Pow2(n - 1)
  }

  /** `v |= 1 << k` when `on`, `v &= ~(1 << k)` otherwise, on an `n`-bit value. */
  function WithBit(v: nat, k: nat, on: bool, n: nat): (r: nat)
    requires k < n && v < Pow2(n)
    ensures r < Pow2(n)
    decreases k
  {
    if k == 0 then 2 * (v / 2) + (if on then 1 else 0) else 2 * WithBit(v / 2, k - 1, on, n - 1) + v % 2
  }

  lemma {:induction false} WithBitReads(v: nat, k: nat, on: bool, n: nat, j: nat)
    requires k < n && v < Pow2(n)
    ensures Bit(WithBit(v, k, on, n), j) == (if j == k then on else Bit(v, j))
    decreases k
  {
    var r := WithBit(v, k, on, n);
    if k == 0 {
      assert r / 2 == v / 2;
    } else {
      assert r % 2 == v % 2 && r / 2 == WithBit(v / 2, k - 1, on, n - 1);
      if j > 0 {
        WithBitReads(v / 2, k - 1, on, n - 1, j - 1);
      }
    }
  }

  /** Every bit of an all-ones value is set. */
  lemma {:induction false} OnesAreSet(n: nat, k: nat)
    requires k < n
    ensures Bit(Pow2(n) - 1, k)
  {
    if k > 0 {
      OnesAreSet(n - 1, k - 1);
      assert (Pow2(n) - 1) / 2 == Pow2(n - 1) - 1;
    }
  }

  /** Bit `i` of a bitmap, least significant bit of each byte first. */
  predicate BitAt(bm: seq<Byte>, i: nat)
    requires i < 8 * |bm|
  {
    Bit(bm[i / 8], i % 8)
  }

  function SetBitAt(bm: seq<Byte>, i: nat, on: bool): (r: seq<Byte>)
    requires i < 8 * |bm|
    ensures |r| == |bm|
  {
    assert Pow2(8) == 256;
    bm[i / 8 := WithBit(bm[i / 8], i % 8, on, 8)]
  }

  lemma SetBitAtReads(bm: seq<Byte>, i: nat, on: bool)
    requires i < 8 * |bm|
    ensures BitAt(SetBitAt(bm, i, on), i) == on
    ensures forall j :: 0 <= j < 8 * |bm| && j != i ==> BitAt(SetBitAt(bm, i, on), j) == BitAt(bm, j)
  {
    forall j | 0 <= j < 8 * |bm|
      ensures BitAt(SetBitAt(bm, i, on), j) == (if j == i then on else BitAt(bm, j))
    {
      if j / 8 == i / 8 {
        assert Pow2(8) == 256;
        WithBitReads(bm[i / 8], i % 8, on, 8, j % 8);
      }
    }
  }

  /** How many of the first `n` bits are clear. */
  function ClearCount(bm: seq<Byte>, n: nat): (c: nat)
    requires n <= 8 * |bm|
    ensures c <= n
  {
    if n == 0 then 0 else ClearCount(bm, n - 1) + (if BitAt(bm, n - 1) then 0 else 1)
  }

  lemma {:induction false} ClearCountSame(a: seq<Byte>, b: seq<Byte>, n: nat)
    requires n <= 8 * |a| && n <= 8 * |b|
    requires forall j :: 0 <= j < n ==> BitAt(a, j) == BitAt(b, j)
    ensures ClearCount(a, n) == ClearCount(b, n)
  {
    if n > 0 {
      ClearCountSame(a, b, n - 1);
      assert BitAt(a, n - 1) == BitAt(b, n - 1);
    }
  }

  /** Flipping one bit inside the counted range moves the count by exactly one. */
  lemma {:induction false} ClearCountFlip(bm: seq<Byte>, n: nat, i: nat, on: bool)
    requires n <= 8 * |bm| && i < n && BitAt(bm, i) != on
    ensures ClearCount(SetBitAt(bm, i, on), n) == ClearCount(bm, n) + (if on then -1 else 1)
  {
    SetBitAtReads(bm, i, on);
    if i == n - 1 {
      ClearCountSame(bm, SetBitAt(bm, i, on), n - 1);
    } else {
      ClearCountFlip(bm, n - 1, i, on);
      assert BitAt(bm, n - 1) == BitAt(SetBitAt(bm, i, on), n - 1);
    }
  }

  lemma {:induction false} ClearCountZero(bm: seq<Byte>, n: nat)
    requires n <= 8 * |bm|
    ensures ClearCount(bm, n) == 0 <==> forall j :: 0 <= j < n ==> BitAt(bm, j)
  {
    if n > 0 {
      ClearCountZero(bm, n - 1);
      if ClearCount(bm, n) == 0 {
        assert BitAt(bm, n - 1);
      }
    }
  }
}
