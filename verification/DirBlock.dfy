/** One directory block: records end to end, each with an inode number, its own length, and a name. */
module DirBlock {
  import opened Bytes

  type Name = seq<Byte>

  /** A name bound to an inode. */
  datatype Binding = Binding(name: Name, ino: nat)

  function Ino(b: Block, off: nat): nat
    requires off + 8 <= |b|
  {
    Get32(b, off)
  }

  function RecLen(b: Block, off: nat): nat
    requires off + 8 <= |b|
  {
    Get16(b, off + 4)
  }

  function NameLen(b: Block, off: nat): nat
    requires off + 8 <= |b|
  {
    b[off + 6]
  }

  function NameAt(b: Block, off: nat): Name
    requires off + 8 <= |b| && off + 8 + NameLen(b, off) <= |b|
  {
    b[off + 8..off + 8 + NameLen(b, off)]
  }

  /** A name that can be stored: not empty, at most 255 bytes, no NUL. */
  predicate NameOk(n: Name) { 0 < |n| < 256 && 0 !in n }

  /** The record at `off` is one the driver can step over, and if it is live, one it reports. */
  predicate RecordOk(b: Block, inodes: nat, off: nat) {
    && off + 8 <= |b|
    && 8 <= RecLen(b, off) && RecLen(b, off) % 4 == 0 && off + RecLen(b, off) <= |b|
    && (Ino(b, off) != 0 ==>
          && Ino(b, off) <= inodes && 8 + NameLen(b, off) <= RecLen(b, off) && NameOk(NameAt(b, off)))
  }

  /** Records tile the block from `off` to its end. */
  predicate Tiled(b: Block, inodes: nat, off: nat)
    decreases |b| - off
  {
    off == |b| || (RecordOk(b, inodes, off) && Tiled(b, inodes, off + RecLen(b, off)))
  }

  /** What the record at `off` binds: nothing when its inode is zero. */
  function Here(b: Block, off: nat): (r: seq<Binding>)
    requires off + 8 <= |b| && (Ino(b, off) != 0 ==> off + 8 + NameLen(b, off) <= |b|)
  {
    if Ino(b, off) == 0 then [] else [Binding(NameAt(b, off), Ino(b, off))]
  }

  /** The live bindings from `off` on, in block order. */
  function Bindings(b: Block, inodes: nat, off: nat): (r: seq<Binding>)
    requires Tiled(b, inodes, off)
    decreases |b| - off
  {
    if off == |b| then []
    else
      Here(b, off) + Bindings(b, inodes, off + RecLen(b, off))
  }

  /** Stepping record by record from `off` arrives at `x`. */
  predicate Reaches(b: Block, inodes: nat, off: nat, x: nat)
    decreases |b| - off
  {
    off == x || (RecordOk(b, inodes, off) && Reaches(b, inodes, off + RecLen(b, off), x))
  }

  /** The bindings of the records from `off` up to `x`. */
  function Upto(b: Block, inodes: nat, off: nat, x: nat): (r: seq<Binding>)
    requires Reaches(b, inodes, off, x)
    decreases |b| - off
  {
    if off == x then []
    else
      Here(b, off) + Upto(b, inodes, off + RecLen(b, off), x)
  }

  lemma {:induction false} ReachesForward(b: Block, inodes: nat, off: nat, x: nat)
    requires Reaches(b, inodes, off, x)
    ensures off <= x
    decreases |b| - off
  {
    if off != x {
      ReachesForward(b, inodes, off + RecLen(b, off), x);
    }
  }

  lemma {:induction false} ReachesNext(b: Block, inodes: nat, off: nat, x: nat)
    requires Reaches(b, inodes, off, x) && RecordOk(b, inodes, x)
    ensures Reaches(b, inodes, off, x + RecLen(b, x))
    ensures Upto(b, inodes, off, x + RecLen(b, x))
         == Upto(b, inodes, off, x) + Here(b, x)
    decreases |b| - off
  {
    if off != x {
      ReachesForward(b, inodes, off, x);
      ReachesForward(b, inodes, off + RecLen(b, off), x);
      ReachesNext(b, inodes, off + RecLen(b, off), x);
    } else {
      assert Reaches(b, inodes, x + RecLen(b, x), x + RecLen(b, x));
    }
  }

  lemma {:induction false} TiledFrom(b: Block, inodes: nat, off: nat, x: nat)
    requires Reaches(b, inodes, off, x)
    ensures Tiled(b, inodes, off) <==> Tiled(b, inodes, x)
    decreases |b| - off
  {
    if off != x {
      TiledFrom(b, inodes, off + RecLen(b, off), x);
    }
  }

  lemma UptoSelf(b: Block, inodes: nat, x: nat)
    ensures Reaches(b, inodes, x, x) && Upto(b, inodes, x, x) == []
  {
  }

  lemma Unfold(b: Block, inodes: nat, off: nat, x: nat)
    requires Reaches(b, inodes, off, x) && Tiled(b, inodes, off) && off != x
    ensures RecordOk(b, inodes, off)
    ensures var n := off + RecLen(b, off);
      && off < n <= |b| && Reaches(b, inodes, n, x) && Tiled(b, inodes, n)
      && Bindings(b, inodes, off) == Here(b, off) + Bindings(b, inodes, n)
      && Upto(b, inodes, off, x) == Here(b, off) + Upto(b, inodes, n, x)
  {
  }

  /** A tiled block's bindings, split at a record boundary. */
  lemma {:induction false} SplitAt(b: Block, inodes: nat, off: nat, x: nat)
    requires Reaches(b, inodes, off, x) && Tiled(b, inodes, off)
    ensures Tiled(b, inodes, x) && Bindings(b, inodes, off) == Upto(b, inodes, off, x) + Bindings(b, inodes, x)
    decreases |b| - off
  {
    hide Here, Tiled, Reaches, Bindings, Upto, RecordOk, RecLen, NameLen, Ino;
    if off == x {
      UptoSelf(b, inodes, x);
    } else {
      Unfold(b, inodes, off, x);
      SplitAt(b, inodes, off + RecLen(b, off), x);
    }
  }

  // ---------------- changing part of a block ----------------

  lemma RecordSame(a: Block, b: Block, inodes: nat, off: nat)
    requires |a| == |b| && RecordOk(a, inodes, off)
    requires forall j :: off <= j < off + RecLen(a, off) ==> a[j] == b[j]
    ensures RecordOk(b, inodes, off) && RecLen(b, off) == RecLen(a, off) && Ino(b, off) == Ino(a, off)
    ensures Ino(a, off) != 0 ==> NameAt(b, off) == NameAt(a, off)
  {
  }

  /** Records before `x` do not depend on the bytes from `x` on. */
  lemma {:induction false} PrefixSame(a: Block, b: Block, inodes: nat, off: nat, x: nat)
    requires |a| == |b| && Reaches(a, inodes, off, x) && forall j :: off <= j < x && j < |a| ==> a[j] == b[j]
    ensures Reaches(b, inodes, off, x) && Upto(b, inodes, off, x) == Upto(a, inodes, off, x)
    decreases |a| - off
  {
    if off != x {
      ReachesForward(a, inodes, off + RecLen(a, off), x);
      RecordSame(a, b, inodes, off);
      PrefixSame(a, b, inodes, off + RecLen(a, off), x);
    }
  }

  /** Records from `x` on do not depend on the bytes before it. */
  lemma {:induction false} SuffixSame(a: Block, b: Block, inodes: nat, x: nat)
    requires |a| == |b| && Tiled(a, inodes, x) && forall j :: x <= j < |a| ==> a[j] == b[j]
    ensures Tiled(b, inodes, x) && Bindings(b, inodes, x) == Bindings(a, inodes, x)
    decreases |a| - x
  {
    if x != |a| {
      RecordSame(a, b, inodes, x);
      SuffixSame(a, b, inodes, x + RecLen(a, x));
    }
  }
}
