/** The tables of fs/ext4_csum.c and the two running checksums computed from them. */
module Csum {
  import Crc32c
  import Crc16
  import CrcPoly

  // An index as the register word its entry starts from, and a word's low byte as an index.
  function Word32(i: nat): bv32
    requires i < 256
  {
    i as bv32
  }

  function Word16(i: nat): bv16
    requires i < 256
  {
    (i as bv16) << 8
  }

  function Index32(x: bv32): (i: nat)
    ensures i < 256
  {
    (x & 0xFF) as int
  }

  function Index16(x: bv16): (i: nat)
    ensures i < 256
  {
    (x & 0xFF) as int
  }

  predicate Filled32(t: seq<bv32>) {
    |t| == 256 && forall i :: 0 <= i < 256 ==> t[i] == Crc32c.Shifts(8, Word32(i))
  }

  predicate Filled16(t: seq<bv16>) {
    |t| == 256 && forall i :: 0 <= i < 256 ==> t[i] == Crc16.Shifts(8, Word16(i))
  }

  lemma Unfold32(n: nat, c: bv32)
    requires n > 0
    ensures Crc32c.Shifts(n, c) == Crc32c.Shifts(n - 1, if c & 1 != 0 then (c >> 1) ^ 0x82F63B78 else c >> 1)
  {
  }

  lemma Unfold16(n: nat, r: bv16)
    requires n > 0
    ensures Crc16.Shifts(n, r) == Crc16.Shifts(n - 1, if r & 0x8000 != 0 then (r << 1) ^ 0x1021 else r << 1)
  {
  }

  method Entry32(i: nat) returns (c: bv32)
    requires i < 256
    ensures c == Crc32c.Shifts(8, Word32(i))
  {
    hide Crc32c.Shifts;
    c := Word32(i);
    for k := 0 to 8
      invariant Crc32c.Shifts(8 - k, c) == Crc32c.Shifts(8, Word32(i))
    {
      Unfold32(8 - k, c);
      c := if c & 1 != 0 then (c >> 1) ^ 0x82F63B78 else c >> 1;
    }
    None32(c);
  }

  lemma None32(c: bv32)
    ensures Crc32c.Shifts(0, c) == c
  {
  }

  method Entry16(i: nat) returns (r: bv16)
    requires i < 256
    ensures r == Crc16.Shifts(8, Word16(i))
  {
    hide Crc16.Shifts;
    r := Word16(i);
    for k := 0 to 8
      invariant Crc16.Shifts(8 - k, r) == Crc16.Shifts(8, Word16(i))
    {
      Unfold16(8 - k, r);
      r := if r & 0x8000 != 0 then (r << 1) ^ 0x1021 else r << 1;
    }
    None16(r);
  }

  lemma None16(r: bv16)
    ensures Crc16.Shifts(0, r) == r
  {
  }

  lemma Round32(x: bv32)
    ensures (x as int) as bv32 == x
  {
  }

  lemma Round16(x: bv16)
    ensures (x as int) as bv16 == x
  {
  }

  lemma Placed32(c: bv32, b: bv8)
    ensures Word32(Index32(c ^ (b as bv32))) == Crc32c.Place(Crc32c.Index(c, b))
  {
    Round32((c ^ (b as bv32)) & 0xFF);
    Low32(c, b);
    hide Crc32c.Place, Crc32c.Index;
  }

  lemma Low32(c: bv32, b: bv8)
    ensures Crc32c.Place(Crc32c.Index(c, b)) == (c ^ (b as bv32)) & 0xFF
  {
  }

  lemma Placed16(c: bv16, b: bv8)
    ensures Word16(Index16((c >> 8) ^ (b as bv16))) == Crc16.Place(Crc16.Index(c, b))
  {
    Round16(((c >> 8) ^ (b as bv16)) & 0xFF);
    Low16(c, b);
    hide Crc16.Place, Crc16.Index;
  }

  lemma Low16(c: bv16, b: bv8)
    ensures Crc16.Place(Crc16.Index(c, b)) == (((c >> 8) ^ (b as bv16)) & 0xFF) << 8
  {
  }

  lemma Mixed32(c: bv32, e: bv32)
    ensures (c >> 8) ^ e == Crc32c.Mix(Crc32c.NextByte(c), e)
  {
  }

  lemma Mixed16(c: bv16, e: bv16)
    ensures e ^ (c << 8) == Crc16.Mix(Crc16.NextByte(c), e)
  {
  }

  /** One turn of the loop: the index is in the table, and the entry there is the step's. */
  lemma Turn32(t: seq<bv32>, c: bv32, b: bv8, i: nat)
    requires Filled32(t) && i == Index32(c ^ (b as bv32))
    ensures (c >> 8) ^ t[i] == Crc32c.Lookup(c, b)
  {
    hide Word32, Index32, Crc32c.Shifts, Crc32c.Place, Crc32c.Index, Crc32c.Mix, Crc32c.NextByte;
    Placed32(c, b);
    Mixed32(c, t[i]);
  }

  lemma Turn16(t: seq<bv16>, c: bv16, b: bv8, i: nat)
    requires Filled16(t) && i == Index16((c >> 8) ^ (b as bv16))
    ensures t[i] ^ (c << 8) == Crc16.Lookup(c, b)
  {
    hide Word16, Index16, Crc16.Shifts, Crc16.Place, Crc16.Index, Crc16.Mix, Crc16.NextByte;
    Placed16(c, b);
    Mixed16(c, t[i]);
  }

  class Checksums {
    const table32: array<bv32>
    const table16: array<bv16>
    var ready: bool

    ghost predicate Valid()
      reads this, table32, table16
    {
      && table32.Length == 256 && table16.Length == 256
      && (ready ==> Filled32(table32[..]) && Filled16(table16[..]))
    }

    constructor ()
      ensures Valid() && fresh(table32) && fresh(table16)
    {
      table32, table16, ready := new bv32[256], new bv16[256], false;
    }

    /** build_tables */
    method BuildTables()
      requires Valid()
      modifies this, table32, table16
      ensures Valid() && ready
    {
      hide Word32, Word16, Crc32c.Shifts, Crc16.Shifts;
      for i := 0 to 256
        invariant forall j :: 0 <= j < i ==> table32[j] == Crc32c.Shifts(8, Word32(j))
        invariant forall j :: 0 <= j < i ==> table16[j] == Crc16.Shifts(8, Word16(j))
      {
        table32[i] := Entry32(i);
        table16[i] := Entry16(i);
      }
      ready := true;
    }

    /** ext4_crc32c */
    method Update32(crc: bv32, buf: seq<bv8>) returns (r: bv32, ghost q: seq<bool>)
      requires Valid()
      modifies this, table32, table16
      ensures Valid() && r == Crc32c.Bitwise(crc, buf)
      ensures |q| == 8 * |buf|
      ensures CrcPoly.Divided(CrcPoly.Reg32(crc), CrcPoly.Message32(buf), CrcPoly.Generator32(), q, CrcPoly.Reg32(r))
    {
      hide CrcPoly.Divided, CrcPoly.Message32, CrcPoly.Generator32, CrcPoly.Reg32;
      hide Index32, Crc32c.Shifts, Crc32c.Feed, Crc32c.Lookup, Filled32, Filled16;
      if !ready {
        BuildTables();
      }
      r := crc;
      for n := 0 to |buf|
        invariant Valid() && ready && r == Crc32c.Bitwise(crc, buf[..n])
      {
        var b := buf[n];
        var i := Index32(r ^ (b as bv32));
        Turn32(table32[..], r, b, i);
        Crc32c.LookupIsFeed(r, b);
        assert buf[..n + 1][..n] == buf[..n];
        r := (r >> 8) ^ table32[i];
      }
      assert buf[..|buf|] == buf;
      q := CrcPoly.Remainder32(crc, buf);
    }

    /** ext4_crc16 */
    method Update16(crc: bv16, buf: seq<bv8>) returns (r: bv16, ghost q: seq<bool>)
      requires Valid()
      modifies this, table32, table16
      ensures Valid() && r == Crc16.Bitwise(crc, buf)
      ensures |q| == 8 * |buf|
      ensures CrcPoly.Divided(CrcPoly.Reg16(crc), CrcPoly.Message16(buf), CrcPoly.Generator16(), q, CrcPoly.Reg16(r))
    {
      hide CrcPoly.Divided, CrcPoly.Message16, CrcPoly.Generator16, CrcPoly.Reg16;
      hide Index16, Crc16.Shifts, Crc16.Feed, Crc16.Lookup, Filled32, Filled16;
      if !ready {
        BuildTables();
      }
      r := crc;
      for n := 0 to |buf|
        invariant Valid() && ready && r == Crc16.Bitwise(crc, buf[..n])
      {
        var b := buf[n];
        var i := Index16((r >> 8) ^ (b as bv16));
        Turn16(table16[..], r, b, i);
        Crc16.LookupIsFeed(r, b);
        assert buf[..n + 1][..n] == buf[..n];
        r := table16[i] ^ (r << 8);
      }
      assert buf[..|buf|] == buf;
      q := CrcPoly.Remainder16(crc, buf);
    }
  }
}
