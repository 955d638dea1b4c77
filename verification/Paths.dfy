/** Path resolution of fs/ext4_mount.c: a walk to the named inode, and a walk to its parent. */
module Paths {
  import opened Bytes
  import opened DirBlock

  const SLASH: Byte := 47
  const ROOT := 2
  const MAX_PATH := 128
  const NAME_MAX := 255

  /** The directories as the resolvers see them: which inodes read back as directories, and what a
      lookup in one answers. */
  datatype Dirs = Dirs(isDir: nat -> bool, lookup: (nat, Name) -> Option<nat>)

  predicate PathOk(path: seq<Byte>) { path != [] && path[0] == SLASH && |path| < MAX_PATH }

  predicate CompOk(s: seq<Byte>) { 0 < |s| <= NAME_MAX && s[0] != SLASH }

  /** The bytes up to the next slash. */
  function Word(s: seq<Byte>): (w: seq<Byte>)
    ensures w <= s && SLASH !in w && (|w| == |s| || s[|w|] == SLASH)
  {
    if s == [] || s[0] == SLASH then [] else [s[0]] + Word(s[1..])
  }

  /** The names between the slashes, empty ones dropped. */
  function Components(s: seq<Byte>): (r: seq<Name>)
    decreases |s|
  {
    if s == [] then []
    else if s[0] == SLASH then Components(s[1..])
    else [Word(s)] + Components(s[|Word(s)|..])
  }

  /** Following names from an inode, one lookup each. */
  function Walk(dirs: Dirs, cur: nat, names: seq<Name>): (r: Option<nat>)
    decreases |names|
  {
    if names == [] then Some(cur)
    else if !dirs.isDir(cur) then None
    else
      match dirs.lookup(cur, names[0])
      case None => None
      case Some(next) => Walk(dirs, next, names[1..])
  }

  /** The inode a path names. */
  function Full(dirs: Dirs, path: seq<Byte>): Option<nat> {
    if PathOk(path) then Walk(dirs, ROOT, Components(path)) else None
  }

  /** The directory holding a path's last name, and that name. */
  function Parent(dirs: Dirs, path: seq<Byte>): Option<(nat, Name)> {
    var names := Components(path);
    if !PathOk(path) || names == [] then None
    else
      match Walk(dirs, ROOT, names[..|names| - 1])
      case None => None
      case Some(p) => if dirs.isDir(p) then Some((p, names[|names| - 1])) else None
  }

  // ---------------- splitting ----------------

  lemma {:induction false} WordIs(s: seq<Byte>, n: nat)
    requires n <= |s| && SLASH !in s[..n] && (n == |s| || s[n] == SLASH)
    ensures Word(s) == s[..n]
  {
    if n > 0 {
      assert s[..n] == [s[0]] + s[1..][..n - 1];
      assert s[0] == s[..n][0];
      WordIs(s[1..], n - 1);
    }
  }

  lemma {:induction false} WordAppend(a: seq<Byte>, b: seq<Byte>)
    requires b == [] || b[0] == SLASH
    ensures Word(a + b) == Word(a)
  {
    var w := Word(a);
    assert (a + b)[..|w|] == w;
    assert |w| < |a + b| ==> (a + b)[|w|] == SLASH;
    WordIs(a + b, |w|);
  }

  /** Cutting a path just before a slash splits its names. */
  lemma {:induction false} ComponentsAppend(a: seq<Byte>, b: seq<Byte>)
    requires b == [] || b[0] == SLASH
    ensures Components(a + b) == Components(a) + Components(b)
    decreases |a|
  {
    if a == [] {
      assert a + b == b;
    } else if a[0] == SLASH {
      assert (a + b)[1..] == a[1..] + b;
      ComponentsAppend(a[1..], b);
    } else {
      WordAppend(a, b);
      var w := Word(a);
      assert (a + b)[|w|..] == a[|w|..] + b;
      ComponentsAppend(a[|w|..], b);
    }
  }

  lemma {:induction false} OnlySlashes(s: seq<Byte>)
    requires forall i :: 0 <= i < |s| ==> s[i] == SLASH
    ensures Components(s) == []
  {
    if s != [] {
      OnlySlashes(s[1..]);
    }
  }

  lemma OneName(s: seq<Byte>)
    requires s != [] && SLASH !in s
    ensures Components(s) == [s]
  {
    assert s[..|s|] == s;
    WordIs(s, |s|);
    assert s[|s|..] == [];
  }

  // ---------------- resolve_full ----------------

  lemma SkipSlash(path: seq<Byte>, p: nat)
    requires p < |path| && path[p] == SLASH
    ensures Components(path[p..]) == Components(path[p + 1..])
  {
    assert path[p..][1..] == path[p + 1..];
  }

  /** The name between `p` and `q`, and what is left once the slash behind it is skipped. */
  lemma TakeName(path: seq<Byte>, p: nat, q: nat)
    requires p < q <= |path| && SLASH !in path[p..q] && (q == |path| || path[q] == SLASH)
    ensures Components(path[p..]) == [path[p..q]] + Components(path[if q < |path| then q + 1 else q..])
  {
    var s, n := path[p..], q - p;
    assert s[..n] == path[p..q] && s[n..] == path[q..];
    assert s[0] == path[p..q][0];
    WordIs(s, n);
    if q < |path| {
      SkipSlash(path, q);
    }
  }

  method ResolveFull(dirs: Dirs, path: seq<Byte>) returns (r: Option<nat>)
    ensures r == Full(dirs, path)
  {
    hide Components, Word;
    if path == [] || path[0] != SLASH || |path| >= MAX_PATH {
      return None;
    }
    var cur: nat := ROOT;
    var p := 1;
    SkipSlash(path, 0);
    assert path[0..] == path;
    while p < |path|
      invariant p <= |path|
      invariant Walk(dirs, cur, Components(path[p..])) == Walk(dirs, ROOT, Components(path))
    {
      while p < |path| && path[p] == SLASH
        invariant p <= |path|
        invariant Walk(dirs, cur, Components(path[p..])) == Walk(dirs, ROOT, Components(path))
      {
        SkipSlash(path, p);
        p := p + 1;
      }
      if p == |path| {
        break;
      }
      var q := p;
      while q < |path| && path[q] != SLASH
        invariant p <= q <= |path| && SLASH !in path[p..q]
      {
        q := q + 1;
      }
      TakeName(path, p, q);
      var name := path[p..q];
      if !CompOk(name) || !dirs.isDir(cur) {
        return None;
      }
      match dirs.lookup(cur, name)
      case None => return None;
      case Some(next) =>
        cur := next;
        p := if q < |path| then q + 1 else q;
    }
    NoneLeft(path);
    return Some(cur);
  }

  lemma NoneLeft(path: seq<Byte>)
    ensures Components(path[|path|..]) == []
  {
  }

  // ---------------- resolve_parent ----------------

  /** Trailing slashes name nothing. */
  lemma TrimSlashes(path: seq<Byte>, end: nat)
    requires end <= |path| && forall i :: end <= i < |path| ==> path[i] == SLASH
    ensures Components(path) == Components(path[..end])
  {
    hide Word, Components;
    assert path == path[..end] + path[end..];
    OnlySlashes(path[end..]);
    ComponentsAppend(path[..end], path[end..]);
  }

  /** The last slash splits off the last name. */
  lemma CutLast(s: seq<Byte>, cut: nat)
    requires cut < |s| && s[cut] == SLASH && SLASH !in s[cut + 1..]
    ensures cut + 1 < |s| ==> Components(s) == Components(s[..if cut == 0 then 1 else cut]) + [s[cut + 1..]]
    ensures cut == 0 && |s| == 1 ==> Components(s) == []
  {
    hide Word, Components;
    assert s == s[..cut] + s[cut..];
    ComponentsAppend(s[..cut], s[cut..]);
    SkipSlash(s, cut);
    if cut == 0 {
      OnlySlashes(s[..1]);
    }
    OnlySlashes(s[..0]);
    if cut + 1 < |s| {
      OneName(s[cut + 1..]);
    }
  }

  method ResolveParent(dirs: Dirs, path: seq<Byte>) returns (r: Option<(nat, Name)>)
    ensures r == Parent(dirs, path)
  {
    hide Components, Word, Walk;
    if path == [] || path[0] != SLASH || |path| >= MAX_PATH {
      return None;
    }
    var end := |path|;
    while end > 1 && path[end - 1] == SLASH
      invariant 0 < end <= |path| && forall i :: end <= i < |path| ==> path[i] == SLASH
    {
      end := end - 1;
    }
    var buf := path[..end];
    var cut := end - 1;
    while buf[cut] != SLASH
      invariant 0 <= cut < end && SLASH !in buf[cut + 1..]
      decreases cut
    {
      cut := cut - 1;
    }
    TrimSlashes(path, end);
    CutLast(buf, cut);
    var name := buf[cut + 1..];
    if !CompOk(name) {
      return None;
    }
    var dir := buf[..if cut == 0 then 1 else cut];
    var p := ResolveFull(dirs, dir);
    if p == None || !dirs.isDir(p.value) {
      return None;
    }
    return Some((p.value, name));
  }

  // ---------------- the two agree ----------------

  lemma {:induction false} WalkLast(dirs: Dirs, cur: nat, names: seq<Name>)
    requires names != []
    ensures Walk(dirs, cur, names) ==
            match Walk(dirs, cur, names[..|names| - 1])
            case None => None
            case Some(p) => if dirs.isDir(p) then dirs.lookup(p, names[|names| - 1]) else None
    decreases |names|
  {
    var n := |names| - 1;
    if n > 0 && dirs.isDir(cur) {
      match dirs.lookup(cur, names[0])
      case None =>
      case Some(next) =>
        WalkLast(dirs, next, names[1..]);
        assert names[1..][..n - 1] == names[..n][1..] && names[1..][n - 1] == names[n];
    }
  }

  /** A path resolves to `i` exactly when it has a parent directory and name, and looking the name up
      there gives `i`; only a path of nothing but slashes resolves without having a parent. */
  lemma ResolversAgree(dirs: Dirs, path: seq<Byte>, i: nat)
    ensures Components(path) != [] ==>
      (Full(dirs, path) == Some(i) <==>
       exists p, name :: Parent(dirs, path) == Some((p, name)) && dirs.lookup(p, name) == Some(i))
    ensures PathOk(path) && Components(path) == [] ==> Full(dirs, path) == Some(ROOT) && Parent(dirs, path) == None
  {
    hide Components, Walk;
    var names := Components(path);
    if names != [] {
      WalkLast(dirs, ROOT, names);
    } else {
      WalkNil(dirs, ROOT);
    }
  }

  lemma WalkNil(dirs: Dirs, cur: nat)
    ensures Walk(dirs, cur, []) == Some(cur)
  {
  }

  /** With a lookup that finds nothing, as e4_dir_lookup does, only slashes-only paths resolve. */
  lemma OnlyRootResolves(dirs: Dirs, path: seq<Byte>)
    requires forall d, n :: dirs.lookup(d, n) == None
    ensures Full(dirs, path).Some? <==> 0 < |path| < 128 && path[0] == 47 && Components(path) == []
    ensures Full(dirs, path).Some? ==> Full(dirs, path).value == 2
  {
  }
}
