/** An inode's sector count: what appending adds to it and truncating takes off. */
module SectorCount {
  import opened Bytes
  import opened Arith
  import opened Volume
  import opened Files

  /** The sectors of `n` blocks. */
  function SectorsIn(geo: Geometry, n: nat): nat { Mul(n, geo.blockSize) / 512 }

  lemma SectorsOutsideRoot(geo: Geometry, a: seq<Byte>, b: seq<Byte>)
    requires SameOutsideRoot(a, b)
    ensures Sectors(geo, a) == Sectors(geo, b)
  {
  }

  lemma {:induction false} SectorsWhole(n: nat, blockSize: nat)
    requires blockSize % 512 == 0
    ensures Mul(n, blockSize) % 512 == 0
  {
    if n > 0 {
      SectorsWhole(n - 1, blockSize);
    }
  }

  lemma {:induction false} LeafSectors(geo: Geometry, raw: seq<Byte>, n: nat)
    requires geo.Ok() && 128 <= |raw| && Sectors(geo, raw) + Mul(n, geo.blockSize) / 512 < MaxSectors(geo)
    ensures Sectors(geo, AddBlocks(geo, raw, n)) == Sectors(geo, raw) + Mul(n, geo.blockSize) / 512
  {
    hide AddSectors, Sectors, MaxSectors;
    if n > 0 {
      SectorsWhole(n - 1, geo.blockSize);
      LeafSectors(geo, raw, n - 1);
      AddSectorsMoves(geo, AddBlocks(geo, raw, n - 1), geo.blockSize);
    }
  }

  lemma SectorsSplit(geo: Geometry, a: nat, b: nat)
    requires geo.Ok()
    ensures SectorsIn(geo, a + b) == SectorsIn(geo, a) + SectorsIn(geo, b)
    ensures Mul(a, geo.blockSize) % 512 == 0
  {
    hide Mul;
    MulAdd(a, b, geo.blockSize);
    SectorsWhole(a, geo.blockSize);
    SectorsWhole(b, geo.blockSize);
  }

  /** The append's half: the sectors of all blocks taken are added. */
  lemma SectorsUp(geo: Geometry, raw: seq<Byte>, out: seq<Byte>, n: nat, l: nat)
    requires geo.Ok() && 128 <= |raw| == |out|
    requires SameOutsideRoot(out, AddSectors(geo, AddBlocks(geo, raw, l), Mul(n, geo.blockSize)))
    requires Sectors(geo, raw) + SectorsIn(geo, n + l) < MaxSectors(geo)
    ensures Sectors(geo, out) == Sectors(geo, raw) + SectorsIn(geo, n + l)
  {
    hide AddSectors, AddBlocks, Mul, Sectors, MaxSectors, SameOutsideRoot;
    SectorsSplit(geo, n, l);
    LeafSectors(geo, raw, l);
    AddSectorsMoves(geo, AddBlocks(geo, raw, l), Mul(n, geo.blockSize));
    SectorsOutsideRoot(geo, out, AddSectors(geo, AddBlocks(geo, raw, l), Mul(n, geo.blockSize)));
  }

  /** The truncation's half: those of the blocks released are taken off. */
  lemma SectorsDown(geo: Geometry, out: seq<Byte>, down: nat)
    requires geo.Ok() && 128 <= |out| && RootOk(Root(out)) && !Empty(Root(out)) && FreedUnits(Root(out)) == down
    ensures Sectors(geo, TreeFreed(geo, out)) == Clamp(Sectors(geo, out) - SectorsIn(geo, down))
  {
    hide AddSectors, Mul, TreeBlocks, FreedUnits, Sectors, MaxSectors;
    SectorsBelow(geo, out);
    SectorsSplit(geo, down, 0);
    AddSectorsMoves(geo, out, 0 - Mul(down, geo.blockSize));
    SectorsOutsideRoot(geo, TreeFreed(geo, out), AddSectors(geo, out, 0 - Mul(down, geo.blockSize)));
  }

  lemma SectorsBelow(geo: Geometry, raw: seq<Byte>)
    requires 128 <= |raw|
    ensures Sectors(geo, raw) < MaxSectors(geo)
  {
  }

  /** The sectors of a legacy map's blocks, nodes included, are taken off. */
  lemma MapSectors(geo: Geometry, raw: seq<Byte>, n: nat)
    requires geo.Ok() && 128 <= |raw|
    ensures Sectors(geo, AddSectors(geo, WithRoot(raw, Zeros(60)), 0 - Mul(n, geo.blockSize)))
         == Clamp(Sectors(geo, raw) - SectorsIn(geo, n))
  {
    hide AddSectors, Mul, Sectors, MaxSectors, WithRoot;
    var cleared := WithRoot(raw, Zeros(60));
    RootOnly(raw, Zeros(60));
    SectorsOutsideRoot(geo, cleared, raw);
    SectorsSplit(geo, n, 0);
    SectorsBelow(geo, raw);
    AddSectorsMoves(geo, cleared, 0 - Mul(n, geo.blockSize));
  }

  lemma RootOnly(raw: seq<Byte>, root: seq<Byte>)
    requires 128 <= |raw| && |root| == 60
    ensures SameOutsideRoot(WithRoot(raw, root), raw)
  {
  }

  lemma NoSectors(geo: Geometry, n: nat)
    requires geo.Ok()
    ensures SectorsIn(geo, n) == 0 <==> n == 0
  {
    if n > 0 {
      MulNext(n - 1, geo.blockSize);
    } else {
      MulZero(geo.blockSize);
    }
  }
}
