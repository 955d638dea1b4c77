/** CRC32C of fs/ext4_csum.c: the table against the shift register, low bit first. */
module Crc32c {
  /** Section 12.1 of RFC 3720: the Castagnoli polynomial, bits reversed. */
  const POLY: bv32 := 0x82F63B78

  // Register arithmetic.
  function Mix(a: bv32, b: bv32): bv32 { a ^ b }

  function Next(b: bv32): bv32 { b >> 1 }

  function Front(b: bv32): bv32 { b & 1 }

  function NextByte(b: bv32): bv32 { b >> 8 }

  function FrontByte(b: bv32): bv32 { b & 0xFF }

  /** A byte where the register takes it in. */
  function Place(b: bv8): bv32 { b as bv32 }

  /** One shift of the register. */
  function Shift(c: bv32): bv32 {
    if Front(c) == 0 then Next(c) else Mix(Next(c), POLY)
  }

  function Shifts(n: nat, c: bv32): bv32 {
    if n == 0 then c else Shifts(n - 1, Shift(c))
  }

  /** The reference: `n` message bits enter one at a time. */
  function Feed(n: nat, c: bv32, b: bv32): bv32 {
    if n == 0 then c else Feed(n - 1, Shift(Mix(c, Front(b))), Next(b))
  }

  /** The register after a message, bit by bit. */
  function Bitwise(c: bv32, s: seq<bv8>): bv32 {
    if s == [] then c else Feed(8, Bitwise(c, s[..|s| - 1]), Place(s[|s| - 1]))
  }

  /** The eight steps of one table entry. */
  function Entry(i: bv8): bv32 {
    Shifts(8, Place(i))
  }

  /** One byte through the table: what the driver's loop does to the register. */
  function Lookup(c: bv32, b: bv8): bv32 {
    Mix(NextByte(c), Entry(Index(c, b)))
  }

  function Index(c: bv32, b: bv8): bv8 { ((c ^ (b as bv32)) & 0xFF) as bv8 }

  // ---------------- facts about words ----------------

  lemma MixComm(a: bv32, b: bv32)
    ensures Mix(a, b) == Mix(b, a)
  {
  }

  lemma MixZero(a: bv32)
    ensures Mix(a, 0) == a && Mix(a, a) == 0
  {
  }

  lemma MixAssoc(a: bv32, b: bv32, c: bv32)
    ensures Mix(Mix(a, b), c) == Mix(a, Mix(b, c))
  {
  }

  lemma MixLaws(a: bv32, b: bv32, c: bv32)
    ensures Mix(a, b) == Mix(b, a) && Mix(a, 0) == a && Mix(a, a) == 0
    ensures Mix(Mix(a, b), c) == Mix(a, Mix(b, c))
  {
    hide Mix;
    MixComm(a, b);
    MixZero(a);
    MixAssoc(a, b, c);
  }

  lemma MixBack(a: bv32, b: bv32, c: bv32)
    requires Mix(a, b) == Mix(a, c)
    ensures b == c
  {
    hide Mix;
    MixLaws(a, a, b);
    MixLaws(a, a, c);
    MixLaws(b, 0, 0);
    MixLaws(c, 0, 0);
    MixLaws(0, b, 0);
    MixLaws(0, c, 0);
  }

  lemma MixTwice(a: bv32, b: bv32, p: bv32)
    ensures Mix(Mix(a, p), Mix(b, p)) == Mix(a, b)
    ensures Mix(Mix(a, p), b) == Mix(Mix(a, b), p)
  {
    hide Mix;
    MixLaws(a, p, Mix(b, p));
    MixLaws(b, p, p);
    MixLaws(p, Mix(b, p), p);
    MixLaws(p, b, a);
    MixLaws(a, p, b);
    MixLaws(a, b, p);
  }

  lemma NextMix(a: bv32, b: bv32)
    ensures Next(Mix(a, b)) == Mix(Next(a), Next(b))
  {
  }

  lemma FrontMix(a: bv32, b: bv32)
    ensures Front(Mix(a, b)) == 0 <==> (Front(a) == 0 <==> Front(b) == 0)
  {
  }

  /** One shift is linear: the feedback of a sum is the sum of the feedbacks. */
  lemma ShiftMix(a: bv32, b: bv32)
    ensures Shift(Mix(a, b)) == Mix(Shift(a), Shift(b))
  {
    hide Mix, Next, Front;
    NextMix(a, b);
    FrontMix(a, b);
    MixTwice(Next(a), Next(b), POLY);
    MixLaws(Next(a), Next(b), POLY);
  }

  lemma FrontAlone(b: bv32)
    ensures Front(Front(b)) == Front(b) && Next(Front(b)) == 0
  {
  }

  lemma ShiftSplit(c: bv32, b: bv32)
    ensures Shift(Mix(c, b)) == Mix(Shift(Mix(c, Front(b))), Next(b))
  {
    hide Mix, Next, Front;
    ShiftMix(c, b);
    ShiftMix(c, Front(b));
    FrontAlone(b);
    MixLaws(Next(b), POLY, 0);
    MixLaws(0, Next(b), 0);
    MixLaws(POLY, 0, 0);
    MixLaws(Shift(c), Shift(Front(b)), Next(b));
  }

  lemma ShiftZero(x: bv32)
    requires Shift(x) == 0
    ensures x == 0
  {
  }

  lemma MixNone(a: bv32, b: bv32)
    ensures Mix(a, b) == 0 <==> a == b
  {
    hide Mix;
    MixLaws(a, b, 0);
    if Mix(a, b) == 0 {
      MixBack(a, b, a);
    }
  }

  /** No two registers shift to the same one. */
  lemma ShiftOneToOne(a: bv32, b: bv32)
    requires Shift(a) == Shift(b)
    ensures a == b
  {
    hide Mix, Shift;
    ShiftMix(a, b);
    MixNone(Shift(a), Shift(b));
    ShiftZero(Mix(a, b));
    MixNone(a, b);
  }

  lemma ByteSplit(x: bv32)
    ensures Mix(FrontByte(x), x & 0xFFFFFF00) == x
  {
  }

  lemma NextEight(b: bv32)
    ensures Next(Next(Next(Next(Next(Next(Next(Next(b)))))))) == NextByte(b)
  {
  }

  /** Behind the first byte nothing is fed back for eight shifts. */
  lemma ShiftEight(x: bv32)
    requires FrontByte(x) == 0
    ensures Shift(Shift(Shift(Shift(Shift(Shift(Shift(Shift(x)))))))) == NextByte(x)
  {
  }

  lemma Placed(c: bv32, b: bv8)
    ensures NextByte(Place(b)) == 0 && FrontByte(Place(b)) == Place(b)
    ensures FrontByte(Mix(c, Place(b))) == Place(Index(c, b)) && NextByte(Mix(c, Place(b))) == NextByte(c)
  {
  }

  lemma RestOf(x: bv32)
    ensures FrontByte(x & 0xFFFFFF00) == 0 && NextByte(x & 0xFFFFFF00) == NextByte(x)
  {
  }

  // ---------------- the table is the register ----------------

  /** Shifting is linear. */
  lemma {:induction false} ShiftsMix(n: nat, a: bv32, b: bv32)
    ensures Shifts(n, Mix(a, b)) == Mix(Shifts(n, a), Shifts(n, b))
  {
    hide Mix, Shift;
    if n > 0 {
      ShiftMix(a, b);
      ShiftsMix(n - 1, Shift(a), Shift(b));
    }
  }

  function Nexts(n: nat, b: bv32): bv32 {
    if n == 0 then b else Nexts(n - 1, Next(b))
  }

  /** A whole byte may be mixed in ahead of its bits. */
  lemma {:induction false} EarlyMix(n: nat, c: bv32, b: bv32)
    ensures Shifts(n, Mix(c, b)) == Mix(Feed(n, c, b), Nexts(n, b))
  {
    hide Mix, Shift, Next, Front;
    if n > 0 {
      ShiftSplit(c, b);
      EarlyMix(n - 1, Shift(Mix(c, Front(b))), Next(b));
    }
  }

  lemma NextsEight(b: bv32)
    ensures Nexts(8, b) == NextByte(b)
  {
    hide Next, NextByte;
    NextEight(b);
    var b2 := Next(Next(b));
    var b4 := Next(Next(b2));
    var b6 := Next(Next(b4));
    assert Nexts(8, b) == Nexts(6, b2);
    assert Nexts(6, b2) == Nexts(4, b4);
    assert Nexts(4, b4) == Nexts(2, b6);
    assert Nexts(2, b6) == Nexts(0, Next(Next(b6)));
  }

  lemma ShiftsEight(x: bv32)
    requires FrontByte(x) == 0
    ensures Shifts(8, x) == NextByte(x)
  {
    hide Shift, NextByte, FrontByte;
    ShiftEight(x);
    var x2 := Shift(Shift(x));
    var x4 := Shift(Shift(x2));
    var x6 := Shift(Shift(x4));
    assert Shifts(8, x) == Shifts(6, x2);
    assert Shifts(6, x2) == Shifts(4, x4);
    assert Shifts(4, x4) == Shifts(2, x6);
    assert Shifts(2, x6) == Shifts(0, Shift(Shift(x6)));
  }

  /** Eight shifts of a word: the first byte through the table, the rest just moves. */
  lemma EightShifts(x: bv32)
    ensures Shifts(8, x) == Mix(Shifts(8, FrontByte(x)), NextByte(x))
  {
    hide Mix, Shifts, NextByte, FrontByte;
    var rest := x & 0xFFFFFF00;
    ByteSplit(x);
    RestOf(x);
    ShiftsMix(8, FrontByte(x), rest);
    ShiftsEight(rest);
  }

  /** One table step is the eight bits of the byte, one at a time. */
  lemma LookupIsFeed(c: bv32, b: bv8)
    ensures Lookup(c, b) == Feed(8, c, Place(b)) == Shifts(8, Mix(c, Place(b)))
  {
    hide Mix, Shifts, Feed, NextByte, FrontByte, Place, Index, Nexts;
    EarlyMix(8, c, Place(b));
    NextsEight(Place(b));
    Placed(c, b);
    MixLaws(Feed(8, c, Place(b)), 0, 0);
    EightShifts(Mix(c, Place(b)));
    MixLaws(NextByte(c), Entry(Index(c, b)), 0);
  }

  /** A message in two pieces, the first result fed into the second call. */
  lemma {:induction false} Chaining(c: bv32, s: seq<bv8>, t: seq<bv8>)
    ensures Bitwise(c, s + t) == Bitwise(Bitwise(c, s), t)
  {
    hide Feed, Place;
    if t == [] {
      assert s + t == s;
    } else {
      Chaining(c, s, t[..|t| - 1]);
      assert (s + t)[..|s + t| - 1] == s + t[..|t| - 1];
    }
  }

  // ---------------- what the checksum detects ----------------

  lemma {:induction false} ShiftsOneToOne(n: nat, a: bv32, b: bv32)
    requires Shifts(n, a) == Shifts(n, b)
    ensures a == b
  {
    hide Shift;
    if n > 0 {
      ShiftsOneToOne(n - 1, Shift(a), Shift(b));
      ShiftOneToOne(a, b);
    }
  }

  /** Equal bytes never bring two different registers together. */
  lemma {:induction false} BitwiseOneToOne(c: bv32, d: bv32, s: seq<bv8>)
    requires Bitwise(c, s) == Bitwise(d, s)
    ensures c == d
  {
    hide Feed, Place, Mix, Shifts, Lookup;
    if s != [] {
      var n := |s| - 1;
      var b := Place(s[n]);
      LookupIsFeed(Bitwise(c, s[..n]), s[n]);
      LookupIsFeed(Bitwise(d, s[..n]), s[n]);
      ShiftsOneToOne(8, Mix(Bitwise(c, s[..n]), b), Mix(Bitwise(d, s[..n]), b));
      MixLaws(Bitwise(c, s[..n]), b, 0);
      MixLaws(Bitwise(d, s[..n]), b, 0);
      MixBack(b, Bitwise(c, s[..n]), Bitwise(d, s[..n]));
      BitwiseOneToOne(c, d, s[..n]);
    }
  }

  /** Room for one more byte in front. */
  function Open(b: bv32): bv32 { b << 8 }

  /** Up to 4 bytes as the one word that mixes them all in at once. */
  function Pack(s: seq<bv8>): bv32 {
    if s == [] then 0 else Mix(Place(s[0]), Open(Pack(s[1..])))
  }

  /** Nothing is left after `n` bytes. */
  predicate Short(n: nat, x: bv32) {
    if n == 0 then x == 0 else Short(n - 1, NextByte(x))
  }

  lemma OpenBack(b: bv8, x: bv32)
    requires NextByte(NextByte(NextByte(x))) == 0
    ensures NextByte(Mix(Place(b), Open(x))) == x && FrontByte(Mix(Place(b), Open(x))) == Place(b)
  {
  }

  lemma ZeroShort(n: nat)
    ensures Short(n, 0)
  {
    if n > 0 {
      assert NextByte(0) == 0;
      ZeroShort(n - 1);
    }
  }

  lemma {:induction false} ShortMore(n: nat, m: nat, x: bv32)
    requires Short(n, x) && n <= m
    ensures Short(m, x)
  {
    hide NextByte;
    if n > 0 {
      ShortMore(n - 1, m - 1, NextByte(x));
    } else {
      ZeroShort(m);
    }
  }

  lemma ShortRoom(x: bv32)
    requires Short(3, x)
    ensures NextByte(NextByte(NextByte(x))) == 0
  {
    hide NextByte;
    assert Short(2, NextByte(x));
    assert Short(1, NextByte(NextByte(x)));
  }

  lemma {:induction false} PackIs(s: seq<bv8>)
    requires 0 < |s| <= 4
    ensures FrontByte(Pack(s)) == Place(s[0]) && NextByte(Pack(s)) == Pack(s[1..]) && Short(|s|, Pack(s))
  {
    hide Mix, Place, Open, NextByte, FrontByte;
    var x := Pack(s[1..]);
    if |s| > 1 {
      PackIs(s[1..]);
    }
    ShortMore(|s| - 1, 3, x);
    ShortRoom(x);
    OpenBack(s[0], x);
  }

  lemma {:induction false} ShiftsPlus(n: nat, m: nat, c: bv32)
    ensures Shifts(n + m, c) == Shifts(m, Shifts(n, c))
  {
    hide Shift;
    if n > 0 {
      ShiftsPlus(n - 1, m, Shift(c));
    }
  }

  /** Bytes that fit the register: the same as shifting all of them through at once. */
  lemma {:induction false} PackedAtOnce(c: bv32, s: seq<bv8>)
    requires |s| <= 4
    ensures Shifts(8 * |s|, Mix(c, Pack(s))) == Bitwise(c, s)
    decreases |s|
  {
    hide Mix, Shifts, Feed, Place, NextByte, FrontByte, Pack, Lookup;
    if s == [] {
      PackNone(c);
    } else {
      var w, d := Pack(s), Bitwise(c, [s[0]]);
      PackIs(s);
      OneByte(c, s[0]);
      LookupIsFeed(c, s[0]);
      FirstByte(c, w);
      ShiftsPlus(8, 8 * (|s| - 1), Mix(c, w));
      PackedAtOnce(d, s[1..]);
      assert s == [s[0]] + s[1..];
      Chaining(c, [s[0]], s[1..]);
    }
  }

  lemma PackNone(c: bv32)
    ensures Shifts(0, Mix(c, Pack([]))) == c
  {
  }

  lemma OneByte(c: bv32, b: bv8)
    ensures Bitwise(c, [b]) == Feed(8, c, Place(b))
  {
    hide Feed, Place;
    assert [b][..0] == [];
  }

  /** Eight shifts deal with a word's first byte; the rest waits, moved up. */
  lemma FirstByte(c: bv32, w: bv32)
    ensures Shifts(8, Mix(c, w)) == Mix(Shifts(8, Mix(c, FrontByte(w))), NextByte(w))
  {
    hide Mix, Shifts, NextByte, FrontByte;
    ShiftsMix(8, c, w);
    EightShifts(w);
    ShiftsMix(8, c, FrontByte(w));
    MixLaws(Shifts(8, c), Shifts(8, FrontByte(w)), NextByte(w));
  }

  lemma PlaceOneToOne(a: bv8, b: bv8)
    ensures Place(a) == Place(b) ==> a == b
  {
  }

  lemma {:induction false} PackOneToOne(s: seq<bv8>, t: seq<bv8>)
    requires |s| == |t| <= 4 && Pack(s) == Pack(t)
    ensures s == t
  {
    hide Mix, Place, Open, NextByte, FrontByte, Pack;
    if s != [] {
      PackIs(s);
      PackIs(t);
      PlaceOneToOne(s[0], t[0]);
      PackOneToOne(s[1..], t[1..]);
      assert s == [s[0]] + s[1..] && t == [t[0]] + t[1..];
    }
  }

  /** Any change confined to 4 adjacent bytes, anywhere in a message, changes the checksum. */
  lemma BurstDetected(c: bv32, front: seq<bv8>, s: seq<bv8>, t: seq<bv8>, back: seq<bv8>)
    requires |s| == |t| <= 4 && s != t
    ensures Bitwise(c, front + s + back) != Bitwise(c, front + t + back)
  {
    hide Bitwise, Mix, Pack, Shifts;
    var d := Bitwise(c, front);
    Chaining(c, front, s);
    Chaining(c, front, t);
    Chaining(c, front + s, back);
    Chaining(c, front + t, back);
    if Bitwise(c, front + s + back) == Bitwise(c, front + t + back) {
      BitwiseOneToOne(Bitwise(d, s), Bitwise(d, t), back);
      PackedAtOnce(d, s);
      PackedAtOnce(d, t);
      ShiftsOneToOne(8 * |s|, Mix(d, Pack(s)), Mix(d, Pack(t)));
      MixBack(d, Pack(s), Pack(t));
      PackOneToOne(s, t);
    }
  }
}
