/** A directory is a map from names to inodes, over every run of additions and removals. */
module DirMap {
  import opened Bytes
  import opened DirBlock
  import opened Directory

  ghost predicate Distinct(bs: seq<Binding>) {
    forall i, j :: 0 <= i < j < |bs| ==> bs[i].name != bs[j].name
  }

  /** The map a list of bindings stands for. */
  ghost function MapOf(bs: seq<Binding>): (m: map<Name, nat>) {
    if bs == [] then map[] else MapOf(bs[1..])[bs[0].name := bs[0].ino]
  }

  /** What a scan finds is what the map holds. */
  lemma {:induction false} MapOfIs(bs: seq<Binding>, name: Name)
    ensures name in MapOf(bs) <==> Binds(bs, name)
    ensures name in MapOf(bs) ==> MapOf(bs)[name] == FirstMatch(bs, name)
  {
    if bs != [] {
      MapOfIs(bs[1..], name);
      assert bs == [bs[0]] + bs[1..];
      BindsAppend([bs[0]], bs[1..], name);
      assert Binds([bs[0]], name) <==> bs[0].name == name;
    }
  }

  /** Earlier bindings win. */
  lemma {:induction false} MapOfAppend(a: seq<Binding>, b: seq<Binding>)
    ensures MapOf(a + b) == MapOf(b) + MapOf(a)
  {
    if a == [] {
      assert a + b == b;
    } else {
      MapOfAppend(a[1..], b);
      assert (a + b)[1..] == a[1..] + b && (a + b)[0] == a[0];
    }
  }

  lemma MapOfMiddle(front: seq<Binding>, x: Binding, back: seq<Binding>)
    requires !Binds(front, x.name)
    ensures MapOf(front + [x] + back) == MapOf(front + back)[x.name := x.ino]
    ensures !Binds(back, x.name) ==> MapOf(front + back) == MapOf(front + [x] + back) - {x.name}
  {
    hide FirstMatch, Binds;
    MapOfAppend(front, back);
    MapOfAppend(front + [x], back);
    MapOfAppend(front, [x]);
    MapOfIs(front, x.name);
    MapOfIs(back, x.name);
    MergeMiddle(MapOf(front), MapOf([x]), MapOf(back), x);
  }

  lemma MergeMiddle(f: map<Name, nat>, m: map<Name, nat>, b: map<Name, nat>, x: Binding)
    requires m == map[x.name := x.ino] && x.name !in f
    ensures b + (m + f) == (b + f)[x.name := x.ino]
    ensures x.name !in b ==> b + f == b + (m + f) - {x.name}
  {
  }

  lemma DistinctMiddle(front: seq<Binding>, x: Binding, back: seq<Binding>)
    ensures Distinct(front + [x] + back) <==> Distinct(front + back) && !Binds(front + back, x.name)
  {
    var k, bs, rs := |front|, front + back, front + [x] + back;
    assert forall i :: 0 <= i < |bs| ==> bs[i] == rs[if i < k then i else i + 1];
    assert forall i :: 0 <= i < |rs| && i != k ==> rs[i] == bs[if i < k then i else i - 1];
    assert rs[k] == x;
  }

  /** A new name leaves names distinct exactly when it was not bound; then the map gains one entry. */
  lemma AddToMap(bs: seq<Binding>, rs: seq<Binding>, x: Binding)
    requires Distinct(bs) && OneMore(bs, rs, x)
    ensures Distinct(rs) <==> !Binds(bs, x.name)
    ensures Distinct(rs) ==> MapOf(rs) == MapOf(bs)[x.name := x.ino]
  {
    hide Distinct, MapOf, FirstMatch, Binds;
    var k :| 0 <= k <= |bs| && rs == bs[..k] + [x] + bs[k..];
    assert bs == bs[..k] + bs[k..];
    DistinctMiddle(bs[..k], x, bs[k..]);
    BindsAppend(bs[..k], bs[k..], x.name);
    if !Binds(bs, x.name) {
      MapOfMiddle(bs[..k], x, bs[k..]);
    }
  }

  /** A removal keeps names distinct and takes exactly that name out of the map. */
  lemma RemoveFromMap(bs: seq<Binding>, rs: seq<Binding>, name: Name)
    requires Distinct(bs) && OneLess(bs, rs, name)
    ensures Distinct(rs) && MapOf(rs) == MapOf(bs) - {name}
  {
    hide Distinct, MapOf, FirstMatch, Binds;
    var k :| 0 <= k < |bs| && bs[k].name == name && !Binds(bs[..k], name) && rs == bs[..k] + bs[k + 1..];
    assert bs == bs[..k] + [bs[k]] + bs[k + 1..];
    DistinctMiddle(bs[..k], bs[k], bs[k + 1..]);
    BindsAppend(bs[..k], bs[k + 1..], name);
    MapOfMiddle(bs[..k], bs[k], bs[k + 1..]);
  }

  // ---------------- runs ----------------

  ghost function Apply(m: map<Name, nat>, op: Op): map<Name, nat> {
    if !op.ok then m else if op.Add? then m[op.name := op.child] else m - {op.name}
  }

  ghost function ApplyAll(m: map<Name, nat>, ops: seq<Op>): map<Name, nat> {
    if ops == [] then m else Apply(ApplyAll(m, ops[..|ops| - 1]), ops[|ops| - 1])
  }

  ghost predicate Run(states: seq<seq<Binding>>, ops: seq<Op>) {
    |states| == |ops| + 1 && forall i :: 0 <= i < |ops| ==> Step(states[i], ops[i], states[i + 1])
  }

  /** No name is added while it is bound. */
  ghost predicate AddsNew(states: seq<seq<Binding>>, ops: seq<Op>)
    requires |states| == |ops| + 1
  {
    forall i :: 0 <= i < |ops| && ops[i].Add? && ops[i].ok ==> !Binds(states[i], ops[i].name)
  }

  lemma StepMap(bs: seq<Binding>, op: Op, rs: seq<Binding>)
    requires Distinct(bs) && Step(bs, op, rs) && (op.Add? && op.ok ==> !Binds(bs, op.name))
    ensures Distinct(rs) && MapOf(rs) == Apply(MapOf(bs), op)
  {
    hide FirstMatch, MapOf, Distinct;
    if op.ok {
      match op
      case Add(name, child, _) => AddToMap(bs, rs, Binding(name, child));
      case Remove(name, _) => RemoveFromMap(bs, rs, name);
    }
  }

  /** After every run the bindings are the map that the same additions and removals build, and a
      scan for any name answers from it. */
  lemma {:induction false} RunRefinesMap(states: seq<seq<Binding>>, ops: seq<Op>, name: Name)
    requires Run(states, ops) && AddsNew(states, ops) && Distinct(states[0])
    ensures Distinct(states[|ops|])
    ensures var m := ApplyAll(MapOf(states[0]), ops);
      && MapOf(states[|ops|]) == m
      && Found(states[|ops|], name) == if name in m then Some(m[name]) else None
  {
    hide MapOf, Distinct, Step, FirstMatch;
    if ops != [] {
      var n := |ops| - 1;
      RunRefinesMap(states[..n + 1], ops[..n], name);
      StepMap(states[n], ops[n], states[n + 1]);
    }
    MapOfIs(states[|ops|], name);
  }

  // ---------------- runs that add a name again ----------------

  /** How often a name is bound. */
  ghost function Times(bs: seq<Binding>, name: Name): nat {
    if bs == [] then 0 else (if bs[0].name == name then 1 else 0) + Times(bs[1..], name)
  }

  lemma {:induction false} TimesAppend(a: seq<Binding>, b: seq<Binding>, name: Name)
    ensures Times(a + b, name) == Times(a, name) + Times(b, name)
  {
    if a == [] {
      assert a + b == b;
    } else {
      TimesAppend(a[1..], b, name);
      assert (a + b)[0] == a[0] && (a + b)[1..] == a[1..] + b;
    }
  }

  lemma {:induction false} BoundTimes(bs: seq<Binding>, name: Name)
    ensures Binds(bs, name) <==> Times(bs, name) > 0
  {
    if bs != [] {
      BoundTimes(bs[1..], name);
      assert bs == [bs[0]] + bs[1..];
      BindsAppend([bs[0]], bs[1..], name);
      assert Binds([bs[0]], name) <==> bs[0].name == name;
    }
  }

  lemma TimesMiddle(front: seq<Binding>, x: Binding, back: seq<Binding>, name: Name)
    ensures Times(front + [x] + back, name) == Times(front + back, name) + (if x.name == name then 1 else 0)
  {
    TimesAppend(front + [x], back, name);
    TimesAppend(front, [x], name);
    TimesAppend(front, back, name);
  }

  /** What a call adds to or takes from the number of bindings of a name. */
  ghost function Change(op: Op, name: Name): int {
    if !op.ok || op.name != name then 0 else if op.Add? then 1 else -1
  }

  ghost function Changes(ops: seq<Op>, name: Name): int {
    if ops == [] then 0 else Changes(ops[..|ops| - 1], name) + Change(ops[|ops| - 1], name)
  }

  lemma StepTimes(bs: seq<Binding>, op: Op, rs: seq<Binding>, name: Name)
    requires Step(bs, op, rs)
    ensures Times(rs, name) == Times(bs, name) + Change(op, name)
    ensures forall x :: x in rs ==> x in bs || (op.Add? && op.ok && x == Binding(op.name, op.child))
  {
    hide Times, Binds;
    if op.ok {
      match op
      case Add(n, child, _) =>
        var k :| 0 <= k <= |bs| && rs == bs[..k] + [Binding(n, child)] + bs[k..];
        assert bs == bs[..k] + bs[k..];
        TimesMiddle(bs[..k], Binding(n, child), bs[k..], name);
      case Remove(n, _) =>
        var k :| 0 <= k < |bs| && bs[k].name == n && rs == bs[..k] + bs[k + 1..];
        assert bs == bs[..k] + [bs[k]] + bs[k + 1..];
        TimesMiddle(bs[..k], bs[k], bs[k + 1..], name);
    }
  }

  /** After every run, also one that adds names again: a name is found exactly while its bindings at
      the start and its additions outnumber its removals, and what is found was bound at the start
      or added. */
  lemma {:induction false} RunCountsNames(states: seq<seq<Binding>>, ops: seq<Op>, name: Name)
    requires Run(states, ops)
    ensures Times(states[|ops|], name) == Times(states[0], name) + Changes(ops, name)
    ensures Found(states[|ops|], name).Some? <==> Times(states[0], name) + Changes(ops, name) > 0
    ensures forall x :: x in states[|ops|] ==> x in states[0] || Op.Add(x.name, x.ino, true) in ops
  {
    hide Times, Binds, Step, FirstMatch;
    if ops != [] {
      var n := |ops| - 1;
      RunCountsNames(states[..n + 1], ops[..n], name);
      StepTimes(states[n], ops[n], states[n + 1], name);
      forall x | x in states[n + 1] ensures x in states[0] || Op.Add(x.name, x.ino, true) in ops {
        if x !in states[n] {
          assert ops[n] == Op.Add(x.name, x.ino, true);
        }
      }
    }
    BoundTimes(states[|ops|], name);
  }

  /** Adding a bound name and removing it again leaves it bound, here to the second inode. */
  lemma DuplicateSurvives()
    ensures var one, two, left := [Binding([97], 12)], [Binding([97], 12), Binding([97], 13)], [Binding([97], 13)];
      && Step(one, Op.Add([97], 13, true), two) && Step(two, Op.Remove([97], true), left)
      && Found(left, [97]) == Some(13)
  {
    var one, two, left := [Binding([97], 12)], [Binding([97], 12), Binding([97], 13)], [Binding([97], 13)];
    assert two == one[..1] + [Binding([97], 13)] + one[1..];
    assert two[0].name == [97] && !Binds(two[..0], [97]) && left == two[..0] + two[1..];
    assert left[0].name == [97];
  }
}
