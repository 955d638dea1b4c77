/** CRC16 of fs/ext4_csum.c: the table against the shift register, high bit first. */
module Crc16 {
  /** x^16 + x^12 + x^5 + 1. */
  const POLY: bv16 := 0x1021

  // Register arithmetic.
  function Mix(a: bv16, b: bv16): bv16 { a ^ b }

  function Next(b: bv16): bv16 { b << 1 }

  function Front(b: bv16): bv16 { b & 0x8000 }

  function NextByte(b: bv16): bv16 { b << 8 }

  function FrontByte(b: bv16): bv16 { b & 0xFF00 }

  /** A byte where the register takes it in. */
  function Place(b: bv8): bv16 { (b as bv16) << 8 }

  /** One shift of the register. */
  function Shift(c: bv16): bv16 {
    if Front(c) == 0 then Next(c) else Mix(Next(c), POLY)
  }

  function Shifts(n: nat, c: bv16): bv16 {
    if n == 0 then c else Shifts(n - 1, Shift(c))
  }

  /** The reference: `n` message bits enter one at a time. */
  function Feed(n: nat, c: bv16, b: bv16): bv16 {
    if n == 0 then c else Feed(n - 1, Shift(Mix(c, Front(b))), Next(b))
  }

  /** The register after a message, bit by bit. */
  function Bitwise(c: bv16, s: seq<bv8>): bv16 {
    if s == [] then c else Feed(8, Bitwise(c, s[..|s| - 1]), Place(s[|s| - 1]))
  }

  /** The eight steps of one table entry. */
  function Entry(i: bv8): bv16 {
    Shifts(8, Place(i))
  }

  /** One byte through the table: what the driver's loop does to the register. */
  function Lookup(c: bv16, b: bv8): bv16 {
    Mix(NextByte(c), Entry(Index(c, b)))
  }

  function Index(c: bv16, b: bv8): bv8 { (((c >> 8) ^ (b as bv16)) & 0xFF) as bv8 }

  // ---------------- facts about words ----------------

  lemma MixComm(a: bv16, b: bv16)
    ensures Mix(a, b) == Mix(b, a)
  {
  }

  lemma MixZero(a: bv16)
    ensures Mix(a, 0) == a && Mix(a, a) == 0
  {
  }

  lemma MixAssoc(a: bv16, b: bv16, c: bv16)
    ensures Mix(Mix(a, b), c) == Mix(a, Mix(b, c))
  {
  }

  lemma MixLaws(a: bv16, b: bv16, c: bv16)
    ensures Mix(a, b) == Mix(b, a) && Mix(a, 0) == a && Mix(a, a) == 0
    ensures Mix(Mix(a, b), c) == Mix(a, Mix(b, c))
  {
    hide Mix;
    MixComm(a, b);
    MixZero(a);
    MixAssoc(a, b, c);
  }

  lemma MixTwice(a: bv16, b: bv16, p: bv16)
    ensures Mix(Mix(a, p), Mix(b, p)) == Mix(a, b)
    ensures Mix(Mix(a, p), b) == Mix(Mix(a, b), p)
  {
    hide Mix;
    MixLaws(a, p, Mix(b, p));
    MixLaws(b, p, p);
    MixLaws(p, Mix(b, p), p);
    MixLaws(p, b, a);
    MixLaws(a, p, b);
    MixLaws(a, b, p);
  }

  lemma NextMix(a: bv16, b: bv16)
    ensures Next(Mix(a, b)) == Mix(Next(a), Next(b))
  {
  }

  lemma FrontMix(a: bv16, b: bv16)
    ensures Front(Mix(a, b)) == 0 <==> (Front(a) == 0 <==> Front(b) == 0)
  {
  }

  /** One shift is linear: the feedback of a sum is the sum of the feedbacks. */
  lemma ShiftMix(a: bv16, b: bv16)
    ensures Shift(Mix(a, b)) == Mix(Shift(a), Shift(b))
  {
    hide Mix, Next, Front;
    NextMix(a, b);
    FrontMix(a, b);
    MixTwice(Next(a), Next(b), POLY);
    MixLaws(Next(a), Next(b), POLY);
  }

  lemma FrontAlone(b: bv16)
    ensures Front(Front(b)) == Front(b) && Next(Front(b)) == 0
  {
  }

  lemma ShiftSplit(c: bv16, b: bv16)
    ensures Shift(Mix(c, b)) == Mix(Shift(Mix(c, Front(b))), Next(b))
  {
    hide Mix, Next, Front;
    ShiftMix(c, b);
    ShiftMix(c, Front(b));
    FrontAlone(b);
    MixLaws(Next(b), POLY, 0);
    MixLaws(0, Next(b), 0);
    MixLaws(POLY, 0, 0);
    MixLaws(Shift(c), Shift(Front(b)), Next(b));
  }

  lemma ByteSplit(x: bv16)
    ensures Mix(FrontByte(x), x & 0x00FF) == x
  {
  }

  lemma NextEight(b: bv16)
    ensures Next(Next(Next(Next(Next(Next(Next(Next(b)))))))) == NextByte(b)
  {
  }

  /** Behind the first byte nothing is fed back for eight shifts. */
  lemma ShiftEight(x: bv16)
    requires FrontByte(x) == 0
    ensures Shift(Shift(Shift(Shift(Shift(Shift(Shift(Shift(x)))))))) == NextByte(x)
  {
  }

  lemma Placed(c: bv16, b: bv8)
    ensures NextByte(Place(b)) == 0 && FrontByte(Place(b)) == Place(b)
    ensures FrontByte(Mix(c, Place(b))) == Place(Index(c, b)) && NextByte(Mix(c, Place(b))) == NextByte(c)
  {
  }

  lemma RestOf(x: bv16)
    ensures FrontByte(x & 0x00FF) == 0 && NextByte(x & 0x00FF) == NextByte(x)
  {
  }

  // ---------------- the table is the register ----------------

  /** Shifting is linear. */
  lemma {:induction false} ShiftsMix(n: nat, a: bv16, b: bv16)
    ensures Shifts(n, Mix(a, b)) == Mix(Shifts(n, a), Shifts(n, b))
  {
    hide Mix, Shift;
    if n > 0 {
      ShiftMix(a, b);
      ShiftsMix(n - 1, Shift(a), Shift(b));
    }
  }

  function Nexts(n: nat, b: bv16): bv16 {
    if n == 0 then b else Nexts(n - 1, Next(b))
  }

  /** A whole byte may be mixed in ahead of its bits. */
  lemma {:induction false} EarlyMix(n: nat, c: bv16, b: bv16)
    ensures Shifts(n, Mix(c, b)) == Mix(Feed(n, c, b), Nexts(n, b))
  {
    hide Mix, Shift, Next, Front;
    if n > 0 {
      ShiftSplit(c, b);
      EarlyMix(n - 1, Shift(Mix(c, Front(b))), Next(b));
    }
  }

  lemma NextsEight(b: bv16)
    ensures Nexts(8, b) == NextByte(b)
  {
    hide Next, NextByte;
    NextEight(b);
    var b2 := Next(Next(b));
    var b4 := Next(Next(b2));
    var b6 := Next(Next(b4));
    assert Nexts(8, b) == Nexts(6, b2);
    assert Nexts(6, b2) == Nexts(4, b4);
    assert Nexts(4, b4) == Nexts(2, b6);
    assert Nexts(2, b6) == Nexts(0, Next(Next(b6)));
  }

  lemma ShiftsEight(x: bv16)
    requires FrontByte(x) == 0
    ensures Shifts(8, x) == NextByte(x)
  {
    hide Shift, NextByte, FrontByte;
    ShiftEight(x);
    var x2 := Shift(Shift(x));
    var x4 := Shift(Shift(x2));
    var x6 := Shift(Shift(x4));
    assert Shifts(8, x) == Shifts(6, x2);
    assert Shifts(6, x2) == Shifts(4, x4);
    assert Shifts(4, x4) == Shifts(2, x6);
    assert Shifts(2, x6) == Shifts(0, Shift(Shift(x6)));
  }

  /** Eight shifts of a word: the first byte through the table, the rest just moves. */
  lemma EightShifts(x: bv16)
    ensures Shifts(8, x) == Mix(Shifts(8, FrontByte(x)), NextByte(x))
  {
    hide Mix, Shifts, NextByte, FrontByte;
    var rest := x & 0x00FF;
    ByteSplit(x);
    RestOf(x);
    ShiftsMix(8, FrontByte(x), rest);
    ShiftsEight(rest);
  }

  /** One table step is the eight bits of the byte, one at a time. */
  lemma LookupIsFeed(c: bv16, b: bv8)
    ensures Lookup(c, b) == Feed(8, c, Place(b)) == Shifts(8, Mix(c, Place(b)))
  {
    hide Mix, Shifts, Feed, NextByte, FrontByte, Place, Index, Nexts;
    EarlyMix(8, c, Place(b));
    NextsEight(Place(b));
    Placed(c, b);
    MixLaws(Feed(8, c, Place(b)), 0, 0);
    EightShifts(Mix(c, Place(b)));
    MixLaws(NextByte(c), Entry(Index(c, b)), 0);
  }

  /** A message in two pieces, the first result fed into the second call. */
  lemma {:induction false} Chaining(c: bv16, s: seq<bv8>, t: seq<bv8>)
    ensures Bitwise(c, s + t) == Bitwise(Bitwise(c, s), t)
  {
    hide Feed, Place;
    if t == [] {
      assert s + t == s;
    } else {
      Chaining(c, s, t[..|t| - 1]);
      assert (s + t)[..|s + t| - 1] == s + t[..|t| - 1];
    }
  }

  // ---------------- what the checksum detects ----------------

  lemma MixBack(a: bv16, b: bv16, c: bv16)
    requires Mix(a, b) == Mix(a, c)
    ensures b == c
  {
    hide Mix;
    MixLaws(a, a, b);
    MixLaws(a, a, c);
    MixLaws(b, 0, 0);
    MixLaws(c, 0, 0);
    MixLaws(0, b, 0);
    MixLaws(0, c, 0);
  }

  lemma MixNone(a: bv16, b: bv16)
    ensures Mix(a, b) == 0 <==> a == b
  {
    hide Mix;
    MixLaws(a, b, 0);
    if Mix(a, b) == 0 {
      MixBack(a, b, a);
    }
  }

  lemma ShiftZero(x: bv16)
    requires Shift(x) == 0
    ensures x == 0
  {
  }

  /** No two registers shift to the same one. */
  lemma ShiftOneToOne(a: bv16, b: bv16)
    requires Shift(a) == Shift(b)
    ensures a == b
  {
    hide Mix, Shift;
    ShiftMix(a, b);
    MixNone(Shift(a), Shift(b));
    ShiftZero(Mix(a, b));
    MixNone(a, b);
  }

  lemma {:induction false} ShiftsOneToOne(n: nat, a: bv16, b: bv16)
    requires Shifts(n, a) == Shifts(n, b)
    ensures a == b
  {
    hide Shift;
    if n > 0 {
      ShiftsOneToOne(n - 1, Shift(a), Shift(b));
      ShiftOneToOne(a, b);
    }
  }

  /** Equal bytes never bring two different registers together. */
  lemma {:induction false} BitwiseOneToOne(c: bv16, d: bv16, s: seq<bv8>)
    requires Bitwise(c, s) == Bitwise(d, s)
    ensures c == d
  {
    hide Feed, Place, Mix, Shifts, Lookup;
    if s != [] {
      var n := |s| - 1;
      var b := Place(s[n]);
      LookupIsFeed(Bitwise(c, s[..n]), s[n]);
      LookupIsFeed(Bitwise(d, s[..n]), s[n]);
      ShiftsOneToOne(8, Mix(Bitwise(c, s[..n]), b), Mix(Bitwise(d, s[..n]), b));
      MixLaws(Bitwise(c, s[..n]), b, 0);
      MixLaws(Bitwise(d, s[..n]), b, 0);
      MixBack(b, Bitwise(c, s[..n]), Bitwise(d, s[..n]));
      BitwiseOneToOne(c, d, s[..n]);
    }
  }

  /** Up to two bytes as the one word that mixes them in at once, the first byte on top. */
  function Pack(s: seq<bv8>): bv16
    requires |s| <= 2
  {
    if |s| == 0 then 0 else if |s| == 1 then Place(s[0]) else Mix(Place(s[0]), s[1] as bv16)
  }

  lemma OneByte(c: bv16, b: bv8)
    ensures Bitwise(c, [b]) == Shifts(8, Mix(c, Place(b)))
  {
    hide Feed, Place, Mix, Shifts, Lookup;
    assert [b][..0] == [];
    LookupIsFeed(c, b);
  }

  lemma PackParts(a: bv8, b: bv8)
    ensures var w := Mix(Place(a), b as bv16); FrontByte(w) == Place(a) && NextByte(w) == Place(b)
  {
  }

  /** Eight shifts deal with a word's first byte; the rest waits, moved up. */
  lemma FirstByte(c: bv16, w: bv16)
    ensures Shifts(8, Mix(c, w)) == Mix(Shifts(8, Mix(c, FrontByte(w))), NextByte(w))
  {
    hide Mix, Shifts, NextByte, FrontByte;
    ShiftsMix(8, c, w);
    EightShifts(w);
    ShiftsMix(8, c, FrontByte(w));
    MixLaws(Shifts(8, c), Shifts(8, FrontByte(w)), NextByte(w));
  }

  lemma {:induction false} ShiftsPlus(n: nat, m: nat, c: bv16)
    ensures Shifts(n + m, c) == Shifts(m, Shifts(n, c))
  {
    hide Shift;
    if n > 0 {
      ShiftsPlus(n - 1, m, Shift(c));
    }
  }

  /** Bytes that fit the register: the same as shifting all of them through at once. */
  lemma PackedAtOnce(c: bv16, s: seq<bv8>)
    requires |s| <= 2
    ensures Bitwise(c, s) == Shifts(8 * |s|, Mix(c, Pack(s)))
  {
    hide Mix, Feed, Place, NextByte, FrontByte, Lookup, Shift;
    if |s| == 0 {
      MixLaws(c, 0, 0);
    } else if |s| == 1 {
      OneByte(c, s[0]);
      assert s == [s[0]];
    } else {
      hide Shifts, Bitwise;
      OneByte(c, s[0]);
      OneByte(Bitwise(c, [s[0]]), s[1]);
      assert s == [s[0]] + [s[1]];
      Chaining(c, [s[0]], [s[1]]);
      PackParts(s[0], s[1]);
      FirstByte(c, Pack(s));
      ShiftsPlus(8, 8, Mix(c, Pack(s)));
    }
  }

  lemma PlaceOneToOne(a: bv8, b: bv8)
    ensures Place(a) == Place(b) ==> a == b
  {
  }

  lemma PackOneToOne(s: seq<bv8>, t: seq<bv8>)
    requires |s| == |t| <= 2 && Pack(s) == Pack(t)
    ensures s == t
  {
    hide Place, Mix, FrontByte, NextByte;
    forall i | 0 <= i < |s| ensures s[i] == t[i] {
      PlaceOneToOne(s[i], t[i]);
      if |s| == 2 {
        PackParts(s[0], s[1]);
        PackParts(t[0], t[1]);
      }
    }
  }

  /** Any change confined to two adjacent bytes, anywhere in a message, changes the checksum. */
  lemma BurstDetected(c: bv16, front: seq<bv8>, s: seq<bv8>, t: seq<bv8>, back: seq<bv8>)
    requires |s| == |t| <= 2 && s != t
    ensures Bitwise(c, front + s + back) != Bitwise(c, front + t + back)
  {
    hide Bitwise, Mix, Pack, Shifts;
    var d := Bitwise(c, front);
    Chaining(c, front, s);
    Chaining(c, front, t);
    Chaining(c, front + s, back);
    Chaining(c, front + t, back);
    if Bitwise(c, front + s + back) == Bitwise(c, front + t + back) {
      BitwiseOneToOne(Bitwise(d, s), Bitwise(d, t), back);
      PackedAtOnce(d, s);
      PackedAtOnce(d, t);
      ShiftsOneToOne(8 * |s|, Mix(d, Pack(s)), Mix(d, Pack(t)));
      MixBack(d, Pack(s), Pack(t));
      PackOneToOne(s, t);
    }
  }
}
