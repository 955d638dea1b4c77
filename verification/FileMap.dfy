/** What a file reads as, said without following the code: which entry gives a file block its disk block, and
    where each byte then comes from. */
module FileMap {
  import opened Bytes
  import opened Arith
  import opened Volume
  import opened Extents
  import opened ReadWrite

  // ---------------- one node ----------------

  /** The blocks entry `i` covers: its count, less 32768 when that marks it as unwritten. */
  function Covered(node: seq<Byte>, i: nat): nat
    requires EntryFits(node, i)
  {
    var c := Get16(node, 12 + 12 * i + 4);
    if c >= 32768 then c - 32768 else c
  }

  /** Entry `i` covers file block `lb`; its end is taken in 32 bits. */
  predicate Covers(node: seq<Byte>, i: nat, lb: nat)
    requires EntryFits(node, i)
  {
    var first := Get32(node, 12 + 12 * i);
    first <= lb < (first + Covered(node, i)) % U32
  }

  /** What entry `i` maps a file block to: a hole when it is unwritten. */
  function Mapped(node: seq<Byte>, i: nat, lb: nat): int
    requires EntryFits(node, i)
  {
    var o := 12 + 12 * i;
    if Get16(node, o + 4) >= 32768 then 0
    else Get32(node, o + 8) + U32 * Get16(node, o + 6) + lb - Get32(node, o)
  }

  ghost predicate FirstCover(node: seq<Byte>, i: nat, lb: nat)
    requires LeafOk(node)
  {
    i < Entries(node) && Covers(node, i, lb) && forall k :: 0 <= k < i ==> !Covers(node, k, lb)
  }

  /** The first entry that covers a file block decides; without one it is a hole. */
  lemma LookupIsFirst(node: seq<Byte>, lb: nat)
    requires LeafOk(node)
    ensures forall i :: FirstCover(node, i, lb) ==> Lookup(node, lb) == Mapped(node, i, lb)
    ensures (forall i :: 0 <= i < Entries(node) ==> !Covers(node, i, lb)) ==> Lookup(node, lb) == 0
  {
    hide Covers, Mapped;
    LookupFromIs(node, 0, lb);
  }

  lemma {:induction false} LookupFromIs(node: seq<Byte>, k: nat, lb: nat)
    requires LeafOk(node) && k <= Entries(node)
    ensures forall i: nat :: k <= i && FirstCover(node, i, lb) ==> LookupFrom(node, k, lb) == Mapped(node, i, lb)
    ensures (forall i :: k <= i < Entries(node) ==> !Covers(node, i, lb)) ==> LookupFrom(node, k, lb) == 0
    decreases Entries(node) - k
  {
    hide Covers, Mapped;
    if k < Entries(node) {
      EntryIs(node, k, lb);
      LookupFromIs(node, k + 1, lb);
    }
  }

  lemma EntryIs(node: seq<Byte>, k: nat, lb: nat)
    requires EntryFits(node, k)
    ensures Hits(GetExtent(node, k), lb) <==> Covers(node, k, lb)
    ensures Covers(node, k, lb) ==> Extents.Target(GetExtent(node, k), lb) == Mapped(node, k, lb)
  {
  }

  // ---------------- the descent ----------------

  /** Block `node` is an index node on the disk, and the last of its entries whose key does not exceed `lb`
      points at `next`. */
  ghost predicate IndexStep(disk: seq<Block>, node: nat, lb: nat, next: nat) {
    node < |disk| && LeafOk(disk[node]) && exists c: nat ::
      LastKey(disk[node], c, lb) && Get32(disk[node], 16 + 12 * c) + U32 * Get16(disk[node], 20 + 12 * c) == next
  }

  ghost predicate LastKey(node: seq<Byte>, c: nat, lb: nat)
    requires LeafOk(node)
  {
    && c < Entries(node) && Get32(node, 12 + 12 * c) <= lb
    && forall k :: c < k < Entries(node) ==> lb < Get32(node, 12 + 12 * k)
  }

  ghost predicate Path(disk: seq<Block>, ns: seq<nat>, lb: nat) {
    forall j :: 0 < j < |ns| ==> IndexStep(disk, ns[j - 1], lb, ns[j])
  }

  ghost predicate Descends(disk: seq<Block>, start: nat, depth: nat, lb: nat) {
    exists ns: seq<nat> :: |ns| == depth + 1 && ns[0] == start && Path(disk, ns, lb)
  }

  lemma {:induction false} ChosenIs(node: seq<Byte>, n: nat, lb: nat)
    requires LeafOk(node) && n <= Entries(node)
    ensures var c := Chosen(node, n, lb);
      && c < n && (forall k :: c < k < n ==> lb < Get32(node, 12 + 12 * k))
      && (c >= 0 ==> Get32(node, 12 + 12 * c) <= lb)
  {
    if n > 0 {
      ChosenIs(node, n - 1, lb);
    }
  }

  lemma StepIs(disk: seq<Block>, node: nat, lb: nat, next: nat)
    requires node < |disk| && LeafOk(disk[node])
    ensures var c := Chosen(disk[node], Entries(disk[node]), lb);
      IndexStep(disk, node, lb, next) <==> 0 <= c < Entries(disk[node]) && GetIndex(disk[node], c).leaf == next
  {
    hide Chosen, Get32, Get16;
    var n := disk[node];
    ChosenIs(n, Entries(n), lb);
    var c := Chosen(n, Entries(n), lb);
    if c >= 0 {
      assert LastKey(n, c, lb);
    }
    if x: nat :| LastKey(n, x, lb) && Get32(n, 16 + 12 * x) + U32 * Get16(n, 20 + 12 * x) == next {
      assert x == c;
    }
  }

  lemma DescendsStep(disk: seq<Block>, node: nat, depth: nat, lb: nat)
    requires depth > 0
    ensures Descends(disk, node, depth, lb)
       <==> exists next: nat :: IndexStep(disk, node, lb, next) && Descends(disk, next, depth - 1, lb)
  {
    hide IndexStep;
    if Descends(disk, node, depth, lb) {
      var ns: seq<nat> :| |ns| == depth + 1 && ns[0] == node && Path(disk, ns, lb);
      var rest := ns[1..];
      forall j | 0 < j < |rest| ensures IndexStep(disk, rest[j - 1], lb, rest[j]) {
        assert IndexStep(disk, ns[j], lb, ns[j + 1]);
      }
      assert IndexStep(disk, ns[0], lb, ns[1]) && Path(disk, rest, lb);
    }
    if next: nat :| IndexStep(disk, node, lb, next) && Descends(disk, next, depth - 1, lb) {
      var rest: seq<nat> :| |rest| == depth && rest[0] == next && Path(disk, rest, lb);
      var ns := [node] + rest;
      forall j | 0 < j < |ns| ensures IndexStep(disk, ns[j - 1], lb, ns[j]) {
        assert j > 1 ==> IndexStep(disk, rest[j - 2], lb, rest[j - 1]);
      }
      assert |ns| == depth + 1 && ns[0] == node && Path(disk, ns, lb);
    }
  }

  lemma {:induction false} DescendIs(disk: seq<Block>, root: seq<Byte>, depth: nat, node: nat, lb: nat)
    requires LeafOk(root)
    ensures Descend(disk, root, depth, node, lb) == if Descends(disk, node, depth, lb) then Some(Lookup(root, lb)) else None
    decreases depth
  {
    hide Lookup, GetIndex, Chosen, Descends;
    if depth == 0 {
      DescendsNone(disk, node, lb);
    } else {
      DescendsStep(disk, node, depth, lb);
      if node < |disk| && LeafOk(disk[node]) {
        var c := Chosen(disk[node], Entries(disk[node]), lb);
        forall next: nat ensures IndexStep(disk, node, lb, next) <==>
                                 0 <= c < Entries(disk[node]) && GetIndex(disk[node], c).leaf == next
        {
          StepIs(disk, node, lb, next);
        }
        if c >= 0 {
          var next := GetIndex(disk[node], c).leaf;
          DescendIs(disk, root, depth - 1, next, lb);
          assert IndexStep(disk, node, lb, next);
        }
      }
    }
  }

  lemma DescendsNone(disk: seq<Block>, node: nat, lb: nat)
    ensures Descends(disk, node, 0, lb)
  {
    assert Path(disk, [node], lb) && |[node]| == 1;
  }

  // ---------------- the bytes of a file ----------------

  /** File block `lb` is given disk block `b`: the root has the magic number, index nodes lead on from block 0
      as many times as the root is deep, and then it is the root's own entries that decide. */
  ghost predicate MapsTo(disk: seq<Block>, root: seq<Byte>, lb: nat, b: nat)
    requires LeafOk(root)
  {
    && Get16(root, 0) == 0xF30A && Descends(disk, 0, Get16(root, 6), lb)
    && ((exists i :: FirstCover(root, i, lb) && b == Mapped(root, i, lb))
        || (b == 0 && forall i :: 0 <= i < Entries(root) ==> !Covers(root, i, lb)))
  }

  lemma {:induction false} SomeFirst(root: seq<Byte>, lb: nat, n: nat)
    requires LeafOk(root) && n <= Entries(root)
    ensures (exists i :: FirstCover(root, i, lb)) || forall i :: 0 <= i < n ==> !Covers(root, i, lb)
  {
    hide Covers;
    if n > 0 {
      SomeFirst(root, lb, n - 1);
      if Covers(root, n - 1, lb) && forall i :: 0 <= i < n - 1 ==> !Covers(root, i, lb) {
        assert FirstCover(root, n - 1, lb);
      }
    }
  }

  lemma MapsToIs(disk: seq<Block>, root: seq<Byte>, lb: nat, b: nat)
    requires LeafOk(root)
    ensures MapsTo(disk, root, lb, b) <==> ExtentLookup(disk, root, lb) == Some(b)
  {
    hide Covers, Mapped, Lookup, Descends, Descend;
    DescendIs(disk, root, Depth(root), 0, lb);
    LookupIsFirst(root, lb);
    SomeFirst(root, lb, Entries(root));
  }

  /** Byte `r` of file block `q`: a hole's is zero, any other comes from the disk block the file block is given.
      A file block can be read exactly when it is given a hole or a block of the disk. */
  lemma BytesAre(geo: Geometry, disk: seq<Block>, root: seq<Byte>, q: nat, r: nat)
    requires geo.Ok() && DiskOk(geo, disk) && LeafOk(root) && r < geo.blockSize
    ensures Fetch(disk, geo.blockSize, root, q).Some? <==> exists b: nat :: MapsTo(disk, root, q, b) && b < |disk|
    ensures forall b: nat :: MapsTo(disk, root, q, b) && b < |disk| ==>
              FileByte(geo, disk, root, Mul(q, geo.blockSize) + r) == if b == 0 then 0 else disk[b][r]
  {
    hide MapsTo, ExtentLookup, Mul, Div, Mod;
    DivModUnique(q, r, geo.blockSize);
    forall b: nat ensures MapsTo(disk, root, q, b) <==> ExtentLookup(disk, root, q) == Some(b) {
      MapsToIs(disk, root, q, b);
    }
  }
}
