/** Adding, finding and removing names: the directory half of fs/ext4_fsops.c. */
module Directory {
  import opened Bytes
  import opened DirBlock

  /** (8 + n + 3) & ~3: the bytes a record with an `n`-byte name needs. */
  function Need(n: nat): (r: nat)
    ensures r % 4 == 0 && 8 + n <= r < 12 + n
  {
    (8 + n + 3) / 4 * 4
  }

  /** Bytes a record cannot give up: none when it is a tombstone. */
  function Minimal(b: Block, off: nat): nat
    requires off + 8 <= |b|
  {
    if Ino(b, off) != 0 && !(RecLen(b, off) == |b| && NameLen(b, off) == 0) then Need(NameLen(b, off)) else 0
  }

  /** The writes of a slack split at `d`: the old record shrinks to `keep`, the new one takes the rest. */
  function Insert(b: Block, d: nat, keep: nat, name: Name, child: nat, kind: Byte): (r: Block)
    requires d + 8 <= |b| && |b| < U16 && NameOk(name) && child < U32
    requires keep + Need(|name|) <= RecLen(b, d) && d + RecLen(b, d) <= |b|
    ensures |r| == |b|
  {
    var rest, nd := RecLen(b, d) - keep, d + keep;
    var a := Put32(Put16(Put16(b, d + 4, keep), nd + 4, rest), nd, child);
    Patch(a[nd + 6 := |name|][nd + 7 := kind], nd + 8, name)
  }

  /** The new record, as it reads. */
  lemma InsertNew(b: Block, d: nat, keep: nat, name: Name, child: nat, kind: Byte)
    requires d + 8 <= |b| && |b| < U16 && NameOk(name) && child < U32
    requires keep + Need(|name|) <= RecLen(b, d) && d + RecLen(b, d) <= |b|
    ensures var r, nd := Insert(b, d, keep, name, child, kind), d + keep;
      && RecLen(r, nd) == RecLen(b, d) - keep && Ino(r, nd) == child && NameLen(r, nd) == |name| && NameAt(r, nd) == name
      && (forall j :: 0 <= j < |b| && (j < d || d + RecLen(b, d) <= j) ==> r[j] == b[j])
      && (forall j :: d <= j < nd && j != d + 4 && j != d + 5 ==> r[j] == b[j])
  {
    hide Put16, Put32;
    var rest, nd := RecLen(b, d) - keep, d + keep;
    var a := Put16(Put16(b, d + 4, keep), nd + 4, rest);
    var c := Put32(a, nd, child);
    var e: Block := c[nd + 6 := |name|][nd + 7 := kind];
    var r := Patch(e, nd + 8, name);
    assert Get16(r, nd + 4) == Get16(a, nd + 4);
    assert Get32(r, nd) == Get32(c, nd);
    assert r[nd + 6] == |name|;
  }

  /** The old record, when it keeps its place, still reads the same but for its length. */
  lemma InsertOld(b: Block, d: nat, keep: nat, name: Name, child: nat, kind: Byte)
    requires d + 8 <= |b| && |b| < U16 && NameOk(name) && child < U32
    requires keep + Need(|name|) <= RecLen(b, d) && d + RecLen(b, d) <= |b|
    requires 8 + NameLen(b, d) <= keep
    ensures var r := Insert(b, d, keep, name, child, kind);
      RecLen(r, d) == keep && Ino(r, d) == Ino(b, d) && NameLen(r, d) == NameLen(b, d) && NameAt(r, d) == NameAt(b, d)
  {
    hide Put16, Put32, NameOk;
    InsertNew(b, d, keep, name, child, kind);
    var rest, nd := RecLen(b, d) - keep, d + keep;
    var a := Put16(b, d + 4, keep);
    var r := Insert(b, d, keep, name, child, kind);
    assert Get16(r, d + 4) == Get16(a, d + 4);
  }

  /** A new record behind the first `keep` bytes of the record at `d`, byte for byte; nothing else changes but
      the old record's length, which is `keep` if anything of it stays. */
  ghost predicate Placed(b: Block, r: Block, d: nat, keep: nat, name: Name, child: nat, kind: Byte) {
    var nd := d + keep;
    && d + 8 <= |b| == |r| && nd + 8 + |name| <= |b|
    && Get32(r, nd) == child && Get16(r, nd + 4) == Get16(b, d + 4) - keep && r[nd + 6] == |name| && r[nd + 7] == kind
    && r[nd + 8..nd + 8 + |name|] == name && (keep > 0 ==> Get16(r, d + 4) == keep)
    && forall j :: 0 <= j < |b| && !(nd <= j < nd + 8 + |name|) && !(d + 4 <= j < d + 6) ==> r[j] == b[j]
  }

  lemma InsertPlaces(b: Block, d: nat, keep: nat, name: Name, child: nat, kind: Byte)
    requires d + 8 <= |b| && |b| < U16 && NameOk(name) && child < U32 && (keep == 0 || 8 <= keep)
    requires keep + Need(|name|) <= RecLen(b, d) && d + RecLen(b, d) <= |b|
    ensures Placed(b, Insert(b, d, keep, name, child, kind), d, keep, name, child, kind)
  {
    hide Put16, Put32;
    var rest, nd := RecLen(b, d) - keep, d + keep;
    var z := Put16(b, d + 4, keep);
    var a := Put16(z, nd + 4, rest);
    var c := Put32(a, nd, child);
    var e: Block := c[nd + 6 := |name|][nd + 7 := kind];
    var r := Patch(e, nd + 8, name);
    assert Get16(r, nd + 4) == Get16(a, nd + 4) && Get32(r, nd) == Get32(c, nd);
    assert r[nd + 6] == e[nd + 6] && r[nd + 7] == e[nd + 7];
    assert keep > 0 ==> Get16(r, d + 4) == Get16(z, d + 4);
  }

  lemma LiveMinimal(b: Block, inodes: nat, d: nat)
    requires RecordOk(b, inodes, d)
    ensures Ino(b, d) != 0 ==> Minimal(b, d) == Need(NameLen(b, d)) > 0
    ensures Ino(b, d) == 0 ==> Minimal(b, d) == 0 && Here(b, d) == []
  {
  }

  /** Splitting the record at `d` keeps the block tiled and adds exactly one binding, right behind it. */
  lemma InsertBinds(b: Block, inodes: nat, d: nat, name: Name, child: nat, kind: Byte)
    returns (front: seq<Binding>, back: seq<Binding>)
    requires Tiled(b, inodes, 0) && Reaches(b, inodes, 0, d) && RecordOk(b, inodes, d) && |b| < U16
    requires NameOk(name) && 0 < child <= inodes < U32 && Minimal(b, d) + Need(|name|) <= RecLen(b, d)
    ensures var r := Insert(b, d, Minimal(b, d), name, child, kind);
      && Tiled(r, inodes, 0) && Bindings(b, inodes, 0) == front + back
      && Bindings(r, inodes, 0) == front + [Binding(name, child)] + back
  {
    hide Insert, Tiled, Reaches, Bindings, Upto, NameOk, NameAt, Minimal, Get16, Get32, Need;
    var keep := Minimal(b, d);
    var r, nd, e := Insert(b, d, keep, name, child, kind), d + keep, d + RecLen(b, d);
    LiveMinimal(b, inodes, d);
    InsertNew(b, d, keep, name, child, kind);
    TailOf(b, inodes, d);
    SuffixSame(b, r, inodes, e);
    PrefixSame(b, r, inodes, 0, d);
    NewTail(r, inodes, nd, e, name, child);
    var u, h, n, t := Upto(b, inodes, 0, d), Here(b, d), [Binding(name, child)], Bindings(b, inodes, e);
    if keep > 0 {
      InsertOld(b, d, keep, name, child, kind);
      ConsTail(r, inodes, d, nd);
    }
    assert Tiled(r, inodes, d) && Bindings(r, inodes, d) == h + (n + t);
    BackToStart(r, inodes, d);
    front, back := u + h, t;
    Regroup4(u, h, n, t);
  }

  lemma Regroup4(u: seq<Binding>, h: seq<Binding>, n: seq<Binding>, t: seq<Binding>)
    ensures u + (h + (n + t)) == u + h + n + t && u + (h + t) == u + h + t
  {
  }

  lemma TailOf(b: Block, inodes: nat, d: nat)
    requires Tiled(b, inodes, 0) && Reaches(b, inodes, 0, d) && RecordOk(b, inodes, d)
    ensures Tiled(b, inodes, d) && Tiled(b, inodes, d + RecLen(b, d))
    ensures Bindings(b, inodes, 0) == Upto(b, inodes, 0, d) + (Here(b, d) + Bindings(b, inodes, d + RecLen(b, d)))
  {
    hide Upto, NameAt, NameOk;
    SplitAt(b, inodes, 0, d);
  }

  lemma NewTail(r: Block, inodes: nat, nd: nat, e: nat, name: Name, child: nat)
    requires nd + 8 <= |r| && RecLen(r, nd) == e - nd && nd < e <= |r| && (e - nd) % 4 == 0 && Need(|name|) <= e - nd
    requires Ino(r, nd) == child && 0 < child <= inodes && NameOk(name) && NameLen(r, nd) == |name|
    requires nd + 8 + |name| <= |r| && NameAt(r, nd) == name && Tiled(r, inodes, e)
    ensures Tiled(r, inodes, nd) && Bindings(r, inodes, nd) == [Binding(name, child)] + Bindings(r, inodes, e)
  {
    hide NameOk, NameAt, Tiled, Bindings, Get32, Get16;
    assert RecordOk(r, inodes, nd);
    ConsTail(r, inodes, nd, e);
  }

  lemma ConsTail(r: Block, inodes: nat, d: nat, nd: nat)
    requires RecordOk(r, inodes, d) && d + RecLen(r, d) == nd && Tiled(r, inodes, nd)
    ensures Tiled(r, inodes, d) && Bindings(r, inodes, d) == Here(r, d) + Bindings(r, inodes, nd)
  {
    hide NameOk, NameAt;
  }

  lemma BackToStart(r: Block, inodes: nat, d: nat)
    requires Reaches(r, inodes, 0, d) && Tiled(r, inodes, d)
    ensures Tiled(r, inodes, 0) && Bindings(r, inodes, 0) == Upto(r, inodes, 0, d) + Bindings(r, inodes, d)
  {
    hide Tiled, Reaches, Bindings, Upto;
    TiledFrom(r, inodes, 0, d);
    SplitAt(r, inodes, 0, d);
  }

  // ---------------- tombstones ----------------

  /** Zeroing the inode number of the record at `d` removes exactly its binding. */
  lemma EraseUnbinds(b: Block, inodes: nat, d: nat) returns (front: seq<Binding>, back: seq<Binding>)
    requires Tiled(b, inodes, 0) && Reaches(b, inodes, 0, d) && RecordOk(b, inodes, d) && Ino(b, d) != 0
    ensures var r := Put32(b, d, 0);
      && Tiled(r, inodes, 0) && front == Upto(b, inodes, 0, d)
      && Bindings(b, inodes, 0) == front + [Binding(NameAt(b, d), Ino(b, d))] + back
      && Bindings(r, inodes, 0) == front + back
  {
    hide Tiled, Reaches, Bindings, Upto, NameOk, NameAt, Put32;
    var r, e := Put32(b, d, 0), d + RecLen(b, d);
    TailOf(b, inodes, d);
    SuffixSame(b, r, inodes, e);
    PrefixSame(b, r, inodes, 0, d);
    assert Ino(r, d) == 0 && RecLen(r, d) == RecLen(b, d);
    ConsTail(r, inodes, d, e);
    BackToStart(r, inodes, d);
    var u, h, t := Upto(b, inodes, 0, d), Here(b, d), Bindings(b, inodes, e);
    front, back := u, t;
    assert Here(r, d) + t == t;
    assert u + (h + t) == u + h + t;
  }

  // ---------------- what the bindings say ----------------

  /** The inode the first binding of a name gives; 0 when there is none. */
  function FirstMatch(bs: seq<Binding>, name: Name): nat {
    if bs == [] then 0 else if bs[0].name == name then bs[0].ino else FirstMatch(bs[1..], name)
  }

  predicate Binds(bs: seq<Binding>, name: Name) {
    exists k :: 0 <= k < |bs| && bs[k].name == name
  }

  lemma {:induction false} FirstMatchAppend(a: seq<Binding>, b: seq<Binding>, name: Name)
    ensures !Binds(a, name) ==> FirstMatch(a + b, name) == FirstMatch(b, name)
    ensures FirstMatch(a, name) != 0 ==> FirstMatch(a + b, name) == FirstMatch(a, name)
  {
    if a == [] {
      assert a + b == b;
    } else {
      assert (a + b)[1..] == a[1..] + b;
      FirstMatchAppend(a[1..], b, name);
      forall k | 0 <= k < |a[1..]| ensures a[1..][k] == a[k + 1] {}
    }
  }

  lemma {:induction false} NoMatch(a: seq<Binding>, name: Name)
    requires !Binds(a, name)
    ensures FirstMatch(a, name) == 0
  {
    FirstMatchAppend(a, [], name);
    assert a + [] == a;
  }

  lemma BindsAppend(a: seq<Binding>, b: seq<Binding>, name: Name)
    ensures Binds(a + b, name) <==> Binds(a, name) || Binds(b, name)
  {
    forall k | 0 <= k < |a| ensures (a + b)[k] == a[k] {}
    forall k | 0 <= k < |b| ensures (a + b)[|a| + k] == b[k] {}
  }

  lemma BindsHere(b: Block, inodes: nat, d: nat, name: Name)
    requires RecordOk(b, inodes, d)
    ensures Binds(Here(b, d), name) <==> Ino(b, d) != 0 && NameAt(b, d) == name
    ensures Binds(Here(b, d), name) ==> FirstMatch(Here(b, d), name) == Ino(b, d)
  {
    hide NameOk, NameAt;
    if Ino(b, d) != 0 {
      assert Here(b, d)[0].name == NameAt(b, d);
    }
  }

  // ---------------- one block ----------------

  lemma AtEnd(b: Block, inodes: nat, d: nat)
    requires Tiled(b, inodes, 0) && Reaches(b, inodes, 0, d)
    ensures Tiled(b, inodes, d) && d <= |b|
    ensures d < |b| ==> RecordOk(b, inodes, d)
    ensures d == |b| ==> Bindings(b, inodes, 0) == Upto(b, inodes, 0, d)
  {
    hide NameOk, NameAt, Upto;
    TiledFrom(b, inodes, 0, d);
    SplitAt(b, inodes, 0, d);
    TiledBound(b, inodes, d);
    assert d == |b| ==> Bindings(b, inodes, d) == [] && Upto(b, inodes, 0, d) + [] == Upto(b, inodes, 0, d);
  }

  lemma TiledBound(b: Block, inodes: nat, d: nat)
    requires Tiled(b, inodes, d)
    ensures d <= |b|
  {
  }

  /** scan_dirent_block with the lookup callback: the first live record of that name. */
  method FindInBlock(b: Block, inodes: nat, want: Name) returns (found: nat)
    requires Tiled(b, inodes, 0)
    ensures found == FirstMatch(Bindings(b, inodes, 0), want)
    ensures found != 0 <==> Binds(Bindings(b, inodes, 0), want)
  {
    hide Tiled, Reaches, Bindings, Upto, Here, NameOk, NameAt, FirstMatch, Binds, Get32, Get16;
    var d := 0;
    UptoSelf(b, inodes, 0);
    NothingBound(want);
    while d + 8 <= |b|
      invariant Reaches(b, inodes, 0, d) && !Binds(Upto(b, inodes, 0, d), want)
      decreases |b| - d
    {
      AtEnd(b, inodes, d);
      var rl := RecLen(b, d);
      BindsHere(b, inodes, d, want);
      ReachesNext(b, inodes, 0, d);
      BindsAppend(Upto(b, inodes, 0, d), Here(b, d), want);
      if Ino(b, d) != 0 && NameAt(b, d) == want {
        FoundHere(b, inodes, d, want);
        return Ino(b, d);
      }
      d := d + rl;
    }
    AtEnd(b, inodes, d);
    NoMatch(Bindings(b, inodes, 0), want);
    return 0;
  }

  lemma NothingBound(name: Name)
    ensures !Binds([], name)
  {
  }

  lemma FoundHere(b: Block, inodes: nat, d: nat, want: Name)
    requires Tiled(b, inodes, 0) && Reaches(b, inodes, 0, d) && RecordOk(b, inodes, d)
    requires Ino(b, d) != 0 && NameAt(b, d) == want && !Binds(Upto(b, inodes, 0, d), want)
    ensures FirstMatch(Bindings(b, inodes, 0), want) == Ino(b, d) && Binds(Bindings(b, inodes, 0), want)
  {
    hide Tiled, Reaches, Bindings, Upto, Here, NameOk, NameAt, FirstMatch, Binds;
    TailOf(b, inodes, d);
    BindsHere(b, inodes, d, want);
    var u, h, t := Upto(b, inodes, 0, d), Here(b, d), Bindings(b, inodes, d + RecLen(b, d));
    FirstMatchAppend(u, h + t, want);
    FirstMatchAppend(h, t, want);
    BindsAppend(u, h + t, want);
    BindsAppend(h, t, want);
  }

  /** One binding more than before, somewhere. */
  ghost predicate OneMore(bs: seq<Binding>, rs: seq<Binding>, x: Binding) {
    exists k :: 0 <= k <= |bs| && rs == bs[..k] + [x] + bs[k..]
  }

  /** The first binding of the name is gone, and nothing else. */
  ghost predicate OneLess(bs: seq<Binding>, rs: seq<Binding>, name: Name) {
    exists k :: 0 <= k < |bs| && bs[k].name == name && !Binds(bs[..k], name) && rs == bs[..k] + bs[k + 1..]
  }

  /** The first record with enough slack took the new one. */
  ghost predicate AddedFirst(b: Block, inodes: nat, r: Block, name: Name, child: nat, kind: Byte) {
    exists d: nat :: FirstRoom(b, inodes, |name|, d) && Placed(b, r, d, Minimal(b, d), name, child, kind)
  }

  ghost predicate FirstRoom(b: Block, inodes: nat, n: nat, d: nat) {
    && Reaches(b, inodes, 0, d) && d + 8 <= |b| && Minimal(b, d) + Need(n) <= RecLen(b, d)
    && NoRoomBefore(b, inodes, n, d)
  }

  /** Pass 1 of e4_dir_add_entry on one block: the first record with enough slack takes the new name. */
  method AddToBlock(b: Block, inodes: nat, name: Name, child: nat, kind: Byte) returns (ok: bool, r: Block)
    requires Tiled(b, inodes, 0) && |b| < U16 && NameOk(name) && 0 < child <= inodes < U32
    ensures |r| == |b| && Tiled(r, inodes, 0)
    ensures ok ==> OneMore(Bindings(b, inodes, 0), Bindings(r, inodes, 0), Binding(name, child))
    ensures ok ==> AddedFirst(b, inodes, r, name, child, kind)
    ensures !ok ==> r == b && NoRoomBefore(b, inodes, |name|, |b|)
  {
    hide Tiled, Reaches, Bindings, NameOk, NameAt, Get32, Get16, Minimal, Insert, OneMore, Placed;
    var d := 0;
    UptoSelf(b, inodes, 0);
    while d + 8 <= |b|
      invariant Reaches(b, inodes, 0, d) && NoRoomBefore(b, inodes, |name|, d)
      decreases |b| - d
    {
      AtEnd(b, inodes, d);
      var rl := RecLen(b, d);
      var minimal := Minimal(b, d);
      if rl - minimal >= Need(|name|) {
        ghost var front, back := InsertBinds(b, inodes, d, name, child, kind);
        r := Insert(b, d, minimal, name, child, kind);
        LiveMinimal(b, inodes, d);
        InsertPlaces(b, d, minimal, name, child, kind);
        assert FirstRoom(b, inodes, |name|, d);
        OneMoreIs(Bindings(b, inodes, 0), Bindings(r, inodes, 0), front, back, Binding(name, child));
        return true, r;
      }
      ReachesNext(b, inodes, 0, d);
      NoRoomStep(b, inodes, |name|, d);
      d := d + rl;
    }
    AtEnd(b, inodes, d);
    return false, b;
  }

  /** No record before `x` has the slack. */
  ghost predicate NoRoomBefore(b: Block, inodes: nat, n: nat, x: nat) {
    forall d: nat :: Reaches(b, inodes, 0, d) && d < x && d + 8 <= |b| ==> RecLen(b, d) < Minimal(b, d) + Need(n)
  }

  lemma NoRoomStep(b: Block, inodes: nat, n: nat, x: nat)
    requires Reaches(b, inodes, 0, x) && RecordOk(b, inodes, x) && NoRoomBefore(b, inodes, n, x)
    requires RecLen(b, x) < Minimal(b, x) + Need(n)
    ensures NoRoomBefore(b, inodes, n, x + RecLen(b, x))
  {
    hide NameOk, NameAt, Minimal, Reaches;
    forall d: nat | Reaches(b, inodes, 0, d) && x < d
      ensures x + RecLen(b, x) <= d
    {
      NothingBetween(b, inodes, 0, x, d);
    }
  }

  /** Record boundaries skip the inside of a record. */
  lemma {:induction false} NothingBetween(b: Block, inodes: nat, off: nat, x: nat, d: nat)
    requires Reaches(b, inodes, off, x) && Reaches(b, inodes, off, d) && RecordOk(b, inodes, x) && x < d
    ensures x + RecLen(b, x) <= d
    decreases |b| - off
  {
    hide NameOk, NameAt;
    if off == x {
      ReachesForward(b, inodes, off + RecLen(b, off), d);
    } else {
      ReachesForward(b, inodes, off, x);
      NothingBetween(b, inodes, off + RecLen(b, off), x, d);
    }
  }

  lemma OneMoreIs(bs: seq<Binding>, rs: seq<Binding>, front: seq<Binding>, back: seq<Binding>, x: Binding)
    requires bs == front + back && rs == front + [x] + back
    ensures OneMore(bs, rs, x)
  {
    assert bs[..|front|] == front && bs[|front|..] == back;
  }

  /** The record at `d` had the name, and its inode number is now zero; no other byte differs. */
  ghost predicate Erased(b: Block, r: Block, d: nat, name: Name) {
    && d + 8 <= |b| == |r| && b[d + 6] == |name| && d + 8 + |name| <= |b| && b[d + 8..d + 8 + |name|] == name
    && r[d] == 0 && r[d + 1] == 0 && r[d + 2] == 0 && r[d + 3] == 0
    && forall j :: 0 <= j < |b| && !(d <= j < d + 4) ==> r[j] == b[j]
  }

  lemma EraseErases(b: Block, inodes: nat, d: nat)
    requires RecordOk(b, inodes, d) && Ino(b, d) != 0
    ensures Erased(b, Put32(b, d, 0), d, NameAt(b, d))
  {
    hide NameOk;
    var r := Put32(b, d, 0);
    assert Get32(r, d) == 0;
  }

  /** e4_dir_remove_entry on one block: the first live record of that name becomes a tombstone. */
  method RemoveFromBlock(b: Block, inodes: nat, name: Name) returns (ok: bool, r: Block)
    requires Tiled(b, inodes, 0)
    ensures |r| == |b| && Tiled(r, inodes, 0)
    ensures ok <==> Binds(Bindings(b, inodes, 0), name)
    ensures ok ==> OneLess(Bindings(b, inodes, 0), Bindings(r, inodes, 0), name)
    ensures ok ==> exists d: nat :: Reaches(b, inodes, 0, d) && Erased(b, r, d, name)
    ensures !ok ==> r == b
  {
    hide Tiled, Reaches, Bindings, Upto, Here, NameOk, NameAt, FirstMatch, Binds, Get32, Get16, Put32, OneLess, Erased;
    var d := 0;
    UptoSelf(b, inodes, 0);
    NothingBound(name);
    while d + 8 <= |b|
      invariant Reaches(b, inodes, 0, d) && !Binds(Upto(b, inodes, 0, d), name)
      decreases |b| - d
    {
      AtEnd(b, inodes, d);
      var rl := RecLen(b, d);
      BindsHere(b, inodes, d, name);
      ReachesNext(b, inodes, 0, d);
      BindsAppend(Upto(b, inodes, 0, d), Here(b, d), name);
      if Ino(b, d) != 0 && NameLen(b, d) == |name| && NameAt(b, d) == name {
        FoundHere(b, inodes, d, name);
        ghost var front, back := EraseUnbinds(b, inodes, d);
        r := Put32(b, d, 0);
        EraseErases(b, inodes, d);
        OneLessIs(Bindings(b, inodes, 0), Bindings(r, inodes, 0), front, back, Binding(name, Ino(b, d)));
        return true, r;
      }
      NameLenIs(b, inodes, d);
      d := d + rl;
    }
    AtEnd(b, inodes, d);
    return false, b;
  }

  lemma NameLenIs(b: Block, inodes: nat, d: nat)
    requires RecordOk(b, inodes, d)
    ensures Ino(b, d) != 0 ==> |NameAt(b, d)| == NameLen(b, d)
  {
  }

  lemma OneLessIs(bs: seq<Binding>, rs: seq<Binding>, front: seq<Binding>, back: seq<Binding>, x: Binding)
    requires bs == front + [x] + back && rs == front + back && !Binds(front, x.name)
    ensures OneLess(bs, rs, x.name)
  {
    var k := |front|;
    assert bs[..k] == front && bs[k + 1..] == back && bs[k] == x;
  }

  // ---------------- a directory of several blocks ----------------

  ghost predicate AllTiled(blocks: seq<Block>, inodes: nat) {
    forall i :: 0 <= i < |blocks| ==> |blocks[i]| < U16 && Tiled(blocks[i], inodes, 0)
  }

  /** The bindings of all blocks, in order. */
  ghost function AllBindings(blocks: seq<Block>, inodes: nat): (r: seq<Binding>)
    requires AllTiled(blocks, inodes)
  {
    if blocks == [] then []
    else AllBindings(blocks[..|blocks| - 1], inodes) + Bindings(blocks[|blocks| - 1], inodes, 0)
  }

  lemma {:induction false} AllBindingsAt(blocks: seq<Block>, inodes: nat, i: nat)
    requires AllTiled(blocks, inodes) && i < |blocks|
    ensures AllBindings(blocks[..i + 1], inodes) == AllBindings(blocks[..i], inodes) + Bindings(blocks[i], inodes, 0)
    ensures exists t :: AllBindings(blocks, inodes) == AllBindings(blocks[..i], inodes) + Bindings(blocks[i], inodes, 0) + t
  {
    hide Tiled, Bindings;
    assert blocks[..i + 1][..i] == blocks[..i];
    var n := |blocks| - 1;
    if i < n {
      assert blocks[..n][..i] == blocks[..i] && blocks[..n][i] == blocks[i];
      AllBindingsAt(blocks[..n], inodes, i);
      var t :| AllBindings(blocks[..n], inodes) == AllBindings(blocks[..i], inodes) + Bindings(blocks[i], inodes, 0) + t;
      var u := t + Bindings(blocks[n], inodes, 0);
      assert AllBindings(blocks, inodes) == AllBindings(blocks[..i], inodes) + Bindings(blocks[i], inodes, 0) + u;
    } else {
      assert AllBindings(blocks, inodes) == AllBindings(blocks[..i], inodes) + Bindings(blocks[i], inodes, 0) + [];
    }
  }

  /** Replacing one block replaces its stretch of the bindings. */
  lemma {:induction false} AllBindingsUpdate(blocks: seq<Block>, inodes: nat, i: nat, r: Block) returns (t: seq<Binding>)
    requires AllTiled(blocks, inodes) && i < |blocks| && Tiled(r, inodes, 0) && |r| < U16
    ensures AllTiled(blocks[i := r], inodes)
    ensures AllBindings(blocks, inodes) == AllBindings(blocks[..i], inodes) + Bindings(blocks[i], inodes, 0) + t
    ensures AllBindings(blocks[i := r], inodes) == AllBindings(blocks[..i], inodes) + Bindings(r, inodes, 0) + t
  {
    hide Tiled, Bindings;
    var n, up := |blocks| - 1, blocks[i := r];
    if i < n {
      t := AllBindingsUpdate(blocks[..n], inodes, i, r);
      assert blocks[..n][i := r] == up[..n] && blocks[..n][..i] == blocks[..i];
      t := t + Bindings(blocks[n], inodes, 0);
    } else {
      assert up[..n] == blocks[..n];
      t := [];
    }
  }

  /** What the map of bindings answers for a name. */
  ghost function Found(bs: seq<Binding>, name: Name): Option<nat> {
    if Binds(bs, name) then Some(FirstMatch(bs, name)) else None
  }

  /** What e4_dir_lookup returns: any nonzero result of the scan, a match included, is an error. */
  ghost function LookupResult(bs: seq<Binding>, name: Name): Option<nat> {
    var stopped := Binds(bs, name);
    if stopped || FirstMatch(bs, name) == 0 then None else Some(FirstMatch(bs, name))
  }

  /** e4_dir_lookup answers as the map does exactly for the names the directory does not hold; it
      never finds one that is there. */
  lemma LookupAgreesIff(bs: seq<Binding>, name: Name)
    ensures LookupResult(bs, name) == Found(bs, name) <==> !Binds(bs, name)
    ensures LookupResult(bs, name) == None
  {
    if !Binds(bs, name) {
      NoMatch(bs, name);
    }
  }

  /** A directory block of one record that spans it, binding "a" to inode 12. */
  function SampleBlock(): (b: Block)
    ensures |b| == 1024
  {
    [12, 0, 0, 0, 0, 4, 1, 1, 97] + Zeros(1015)
  }

  /** The entry is there and is not found. */
  lemma LookupMissesEntry()
    ensures var b := SampleBlock();
      && Tiled(b, 100, 0) && Bindings(b, 100, 0) == [Binding([97], 12)]
      && Found(Bindings(b, 100, 0), [97]) == Some(12) && LookupResult(Bindings(b, 100, 0), [97]) == None
  {
    var b := SampleBlock();
    assert Get32(b, 0) == 12 && Get16(b, 4) == 1024 && b[6] == 1;
    assert NameAt(b, 0) == [97];
    assert RecordOk(b, 100, 0) && Tiled(b, 100, 1024);
    ConsTail(b, 100, 0, 1024);
    assert Bindings(b, 100, 1024) == [];
    var bs := Bindings(b, 100, 0);
    assert bs == [Binding([97], 12)];
    assert bs[0].name == [97];
  }

  datatype Op = Add(name: Name, child: nat, ok: bool) | Remove(name: Name, ok: bool)

  /** One call and what it does to the bindings. */
  ghost predicate Step(bs: seq<Binding>, op: Op, rs: seq<Binding>) {
    match op
    case Add(name, child, ok) => if ok then OneMore(bs, rs, Binding(name, child)) else rs == bs
    case Remove(name, ok) =>
      (ok <==> Binds(bs, name)) && (if ok then OneLess(bs, rs, name) else rs == bs)
  }

  class Dir {
    const inodes: nat
    var blocks: seq<Block>

    ghost predicate Valid()
      reads this
    {
      inodes < U32 && AllTiled(blocks, inodes)
    }

    ghost function Contents(): seq<Binding>
      requires Valid()
      reads this
    {
      AllBindings(blocks, inodes)
    }

    constructor (inodes: nat, blocks: seq<Block>)
      requires inodes < U32 && AllTiled(blocks, inodes)
      ensures Valid() && this.inodes == inodes && this.blocks == blocks
    {
      this.inodes, this.blocks := inodes, blocks;
    }

    /** e4_iterate_dir with the lookup callback: block by block until the callback stops it. */
    method Scan(name: Name) returns (rc: int, found: nat)
      requires Valid()
      ensures found == FirstMatch(Contents(), name)
      ensures rc == (if Binds(Contents(), name) then 1 else 0) && (found != 0 <==> rc == 1)
    {
      hide Tiled, Bindings, FirstMatch, Binds, AllBindings;
      EmptyDir(inodes, name);
      assert blocks[..0] == [];
      for i := 0 to |blocks|
        invariant !Binds(AllBindings(blocks[..i], inodes), name)
      {
        var found := FindInBlock(blocks[i], inodes, name);
        AllBindingsAt(blocks, inodes, i);
        BindsAppend(AllBindings(blocks[..i], inodes), Bindings(blocks[i], inodes, 0), name);
        if found != 0 {
          ghost var t :| Contents() == AllBindings(blocks[..i], inodes) + Bindings(blocks[i], inodes, 0) + t;
          FoundLater(AllBindings(blocks[..i], inodes), Bindings(blocks[i], inodes, 0), t, name);
          return 1, found;
        }
      }
      assert blocks[..|blocks|] == blocks;
      NoMatch(Contents(), name);
      return 0, 0;
    }

    /** e4_dir_lookup. A scan stopped by its callback counts as a failure, so the answer is the
        map's only for names that are not there (LookupAgreesIff). */
    method Lookup(name: Name) returns (r: Option<nat>)
      requires Valid()
      ensures r == None && r == LookupResult(Contents(), name)
    {
      hide Binds, FirstMatch;
      LookupAgreesIff(Contents(), name);
      var rc, found := Scan(name);
      if rc != 0 || found == 0 {
        return None;
      }
      return Some(found);
    }

    /** Pass 1 of e4_dir_add_entry: the first block with room takes the name. */
    method Add(name: Name, child: nat, kind: Byte) returns (ok: bool)
      requires Valid() && NameOk(name) && 0 < child <= inodes
      modifies this
      ensures Valid() && |blocks| == |old(blocks)|
      ensures Step(old(Contents()), Op.Add(name, child, ok), Contents())
      ensures ok ==> exists i ::
        && 0 <= i < |blocks| && blocks == old(blocks)[i := blocks[i]]
        && AddedFirst(old(blocks)[i], inodes, blocks[i], name, child, kind)
        && forall k :: 0 <= k < i ==> NoRoomBefore(blocks[k], inodes, |name|, |blocks[k]|)
      ensures !ok ==> blocks == old(blocks)
                      && forall i :: 0 <= i < |blocks| ==> NoRoomBefore(blocks[i], inodes, |name|, |blocks[i]|)
    {
      hide Tiled, Bindings, NameOk, OneMore, AllBindings, NoRoomBefore, AddedFirst;
      for i := 0 to |blocks|
        invariant Valid() && blocks == old(blocks)
        invariant forall k :: 0 <= k < i ==> NoRoomBefore(blocks[k], inodes, |name|, |blocks[k]|)
      {
        var added, r := AddToBlock(blocks[i], inodes, name, child, kind);
        if added {
          ghost var bs := blocks;
          ghost var t := AllBindingsUpdate(bs, inodes, i, r);
          OneMoreInside(AllBindings(bs[..i], inodes), Bindings(bs[i], inodes, 0), Bindings(r, inodes, 0), t,
                        Binding(name, child));
          blocks := blocks[i := r];
          return true;
        }
      }
      return false;
    }

    /** e4_dir_remove_entry: the first match, wherever it is, becomes a tombstone. */
    method Remove(name: Name) returns (ok: bool)
      requires Valid()
      modifies this
      ensures Valid() && |blocks| == |old(blocks)|
      ensures Step(old(Contents()), Op.Remove(name, ok), Contents())
      ensures ok ==> exists i, d: nat ::
        && 0 <= i < |blocks| && blocks == old(blocks)[i := blocks[i]]
        && Reaches(old(blocks)[i], inodes, 0, d) && Erased(old(blocks)[i], blocks[i], d, name)
      ensures !ok ==> blocks == old(blocks)
    {
      hide Tiled, Bindings, Binds, OneLess, AllBindings, Reaches, Erased;
      EmptyDir(inodes, name);
      assert blocks[..0] == [];
      for i := 0 to |blocks|
        invariant Valid() && blocks == old(blocks) && !Binds(AllBindings(blocks[..i], inodes), name)
      {
        var gone, r := RemoveFromBlock(blocks[i], inodes, name);
        AllBindingsAt(blocks, inodes, i);
        BindsAppend(AllBindings(blocks[..i], inodes), Bindings(blocks[i], inodes, 0), name);
        if gone {
          ghost var bs := blocks;
          ghost var t := AllBindingsUpdate(bs, inodes, i, r);
          OneLessInside(AllBindings(bs[..i], inodes), Bindings(bs[i], inodes, 0), Bindings(r, inodes, 0), t, name);
          BindsAppend(AllBindings(bs[..i], inodes) + Bindings(bs[i], inodes, 0), t, name);
          blocks := blocks[i := r];
          return true;
        }
      }
      assert blocks[..|blocks|] == blocks;
      return false;
    }
  }

  lemma EmptyDir(inodes: nat, name: Name)
    ensures AllTiled([], inodes) && AllBindings([], inodes) == [] && !Binds([], name)
  {
  }

  lemma FoundLater(a: seq<Binding>, b: seq<Binding>, t: seq<Binding>, name: Name)
    requires !Binds(a, name) && Binds(b, name) && FirstMatch(b, name) != 0
    ensures FirstMatch(a + b + t, name) == FirstMatch(b, name) && Binds(a + b + t, name)
  {
    hide FirstMatch, Binds;
    assert a + b + t == a + (b + t);
    FirstMatchAppend(a, b + t, name);
    FirstMatchAppend(b, t, name);
    BindsAppend(a, b + t, name);
    BindsAppend(b, t, name);
  }

  lemma OneMoreInside(a: seq<Binding>, b: seq<Binding>, r: seq<Binding>, t: seq<Binding>, x: Binding)
    requires OneMore(b, r, x)
    ensures OneMore(a + b + t, a + r + t, x)
  {
    var k :| 0 <= k <= |b| && r == b[..k] + [x] + b[k..];
    var front, back := a + b[..k], b[k..] + t;
    assert a + b + t == front + back && a + r + t == front + [x] + back;
    OneMoreIs(a + b + t, a + r + t, front, back, x);
  }

  lemma Regroup5(a: seq<Binding>, f: seq<Binding>, x: seq<Binding>, g: seq<Binding>, t: seq<Binding>)
    ensures a + (f + x + g) + t == (a + f) + x + (g + t) && a + (f + g) + t == (a + f) + (g + t)
  {
  }

  lemma OneLessInside(a: seq<Binding>, b: seq<Binding>, r: seq<Binding>, t: seq<Binding>, name: Name)
    requires OneLess(b, r, name) && !Binds(a, name)
    ensures OneLess(a + b + t, a + r + t, name)
  {
    var k :| 0 <= k < |b| && b[k].name == name && !Binds(b[..k], name) && r == b[..k] + b[k + 1..];
    var front, back := a + b[..k], b[k + 1..] + t;
    assert b == b[..k] + [b[k]] + b[k + 1..];
    Regroup5(a, b[..k], [b[k]], b[k + 1..], t);
    BindsAppend(a, b[..k], name);
    hide Binds;
    OneLessIs(a + b + t, a + r + t, front, back, b[k]);
  }
}
