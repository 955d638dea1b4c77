/** The two checksums as polynomial division: read as a polynomial over the two-element field, a message
    leaves the register as its remainder. */
module CrcPoly {
  import Crc16
  import Crc32c

  // ---------------- polynomials, highest coefficient first ----------------

  function Xor(a: bool, b: bool): bool { a != b }

  /** The coefficient of x^i. */
  predicate Coef(p: seq<bool>, i: int) { 0 <= i < |p| && p[|p| - 1 - i] }

  function Longer(a: seq<bool>, b: seq<bool>): nat { if |a| < |b| then |b| else |a| }

  function Sum(a: seq<bool>, b: seq<bool>): (r: seq<bool>)
    ensures |r| == Longer(a, b)
  {
    var n := Longer(a, b);
    seq(n, k requires 0 <= k < n => Xor(Coef(a, n - 1 - k), Coef(b, n - 1 - k)))
  }

  lemma SumCoef(a: seq<bool>, b: seq<bool>, i: int)
    ensures Coef(Sum(a, b), i) == Xor(Coef(a, i), Coef(b, i))
  {
  }

  /** The product: shift and add. */
  function Times(q: seq<bool>, g: seq<bool>): (r: seq<bool>) {
    if q == [] then []
    else
      var n := |q| - 1;
      Sum(Times(q[..n], g) + [false], if q[n] then g else [])
  }

  lemma TimesCoef(q: seq<bool>, t: bool, g: seq<bool>, i: int)
    ensures Coef(Times(q + [t], g), i) == Xor(Coef(Times(q, g), i - 1), t && Coef(g, i))
  {
    hide Sum;
    var p := Times(q, g);
    assert (q + [t])[..|q|] == q;
    SumCoef(p + [false], if t then g else [], i);
  }

  // ---------------- division, one bit at a time ----------------

  /** `seed` in front of `bits`, times x^w with w the degree of `g`, is `q` times `g` plus `r`. */
  ghost predicate Divided(seed: seq<bool>, bits: seq<bool>, g: seq<bool>, q: seq<bool>, r: seq<bool>) {
    && |g| == |r| + 1 == |seed| + 1
    && forall i :: Left(seed, bits, i) == Xor(Coef(Times(q, g), i), Coef(r, i))
  }

  /** The dividend: the message moved up by the register's width, and the seed on top of it. */
  predicate Left(seed: seq<bool>, bits: seq<bool>, i: int) {
    Xor(Coef(bits, i - |seed|), Coef(seed, i - |bits|))
  }

  /** One step of the division: the next bit meets the top of the remainder. */
  function Divide(r: seq<bool>, m: bool, g: seq<bool>): (n: seq<bool>)
    requires 0 < |r| && |g| == |r| + 1
    ensures |n| == |r|
  {
    var top := Xor(r[0], m);
    seq(|r|, k requires 0 <= k < |r| => Xor(k + 1 < |r| && r[k + 1], top && g[k + 1]))
  }

  function DivideAll(r: seq<bool>, bits: seq<bool>, g: seq<bool>): (n: seq<bool>)
    requires 0 < |r| && |g| == |r| + 1
    ensures |n| == |r|
    decreases |bits|
  {
    if bits == [] then r else DivideAll(Divide(r, bits[0], g), bits[1..], g)
  }

  lemma DivideIs(r: seq<bool>, m: bool, g: seq<bool>)
    requires 0 < |r| && |g| == |r| + 1
    ensures var next := r[1..] + [false];
      Divide(r, m, g) == if Xor(r[0], m) then Sum(next, g[1..]) else next
  {
    var w, d, next := |r|, Divide(r, m, g), r[1..] + [false];
    forall k | 0 <= k < w ensures d[k] == if Xor(r[0], m) then Sum(next, g[1..])[k] else next[k] {
      assert Coef(next, w - 1 - k) == next[k] && Coef(g[1..], w - 1 - k) == g[k + 1];
    }
  }

  lemma DivideCoef(r: seq<bool>, m: bool, g: seq<bool>, i: int)
    requires 0 < |r| && |g| == |r| + 1 && g[0]
    ensures var top := Xor(r[0], m);
      Coef(Divide(r, m, g), i) == Xor(Xor(Coef(r, i - 1), m && i == |r|), top && Coef(g, i))
  {
  }

  lemma LeftCoef(seed: seq<bool>, bits: seq<bool>, m: bool, i: int)
    ensures Left(seed, bits + [m], i) == Xor(Left(seed, bits, i - 1), m && i == |seed|)
  {
    assert Coef(bits + [m], i - |seed|) == if i == |seed| then m else Coef(bits, i - 1 - |seed|);
  }

  lemma DividedStep(seed: seq<bool>, bits: seq<bool>, g: seq<bool>, q: seq<bool>, r: seq<bool>, m: bool)
    requires Divided(seed, bits, g, q, r) && 0 < |r| && g[0]
    ensures Divided(seed, bits + [m], g, q + [Xor(r[0], m)], Divide(r, m, g))
  {
    hide Coef, Times, Left, Divide, Xor;
    var top := Xor(r[0], m);
    forall i ensures Left(seed, bits + [m], i) == Xor(Coef(Times(q + [top], g), i), Coef(Divide(r, m, g), i)) {
      LeftCoef(seed, bits, m, i);
      TimesCoef(q, top, g, i);
      DivideCoef(r, m, g, i);
      assert Left(seed, bits, i - 1) == Xor(Coef(Times(q, g), i - 1), Coef(r, i - 1));
      XorLaws(Coef(Times(q, g), i - 1), Coef(r, i - 1), m && i == |r|, top && Coef(g, i));
    }
  }

  lemma XorLaws(a: bool, b: bool, c: bool, d: bool)
    ensures Xor(Xor(a, b), c) == Xor(Xor(a, d), Xor(Xor(b, c), d))
  {
  }

  lemma {:induction false} DividedAll(seed: seq<bool>, bits: seq<bool>, g: seq<bool>, q: seq<bool>, r: seq<bool>,
                                      more: seq<bool>)
    returns (p: seq<bool>)
    requires Divided(seed, bits, g, q, r) && 0 < |r| && |g| == |r| + 1 && g[0]
    ensures |p| == |q| + |more| && Divided(seed, bits + more, g, p, DivideAll(r, more, g))
    decreases |more|
  {
    hide Divided, Divide;
    if more == [] {
      p := q;
      assert bits + more == bits;
    } else {
      DividedStep(seed, bits, g, q, r, more[0]);
      p := DividedAll(seed, bits + [more[0]], g, q + [Xor(r[0], more[0])], Divide(r, more[0], g), more[1..]);
      assert bits + [more[0]] + more[1..] == bits + more;
    }
  }

  lemma DividedNone(seed: seq<bool>, g: seq<bool>)
    requires |g| == |seed| + 1
    ensures Divided(seed, [], g, [], seed)
  {
  }

  // ---------------- there is only one remainder ----------------

  lemma {:induction false} TimesSum(a: seq<bool>, b: seq<bool>, g: seq<bool>, i: int)
    requires |a| == |b|
    ensures Coef(Times(Sum(a, b), g), i) == Xor(Coef(Times(a, g), i), Coef(Times(b, g), i))
  {
    hide Times, Coef;
    if a == [] {
      TimesNone(g, i);
    } else {
      var n := |a| - 1;
      SumLast(a, b);
      TimesSum(a[..n], b[..n], g, i - 1);
      TimesCoef(Sum(a[..n], b[..n]), Xor(a[n], b[n]), g, i);
      TimesCoef(a[..n], a[n], g, i);
      TimesCoef(b[..n], b[n], g, i);
      assert a == a[..n] + [a[n]] && b == b[..n] + [b[n]];
    }
  }

  lemma TimesNone(g: seq<bool>, i: int)
    ensures Times([], g) == [] && !Coef([], i) && Sum([], []) == []
  {
  }

  lemma SumLast(a: seq<bool>, b: seq<bool>)
    requires |a| == |b| > 0
    ensures var n := |a| - 1; Sum(a, b) == Sum(a[..n], b[..n]) + [Xor(a[n], b[n])]
  {
    var n := |a| - 1;
    var l, r := Sum(a, b), Sum(a[..n], b[..n]) + [Xor(a[n], b[n])];
    forall k | 0 <= k < |l| ensures l[k] == r[k] {
      assert Coef(a, n - k) == a[k] && Coef(b, n - k) == b[k];
      assert k < n ==> Coef(a[..n], n - 1 - k) == a[k] && Coef(b[..n], n - 1 - k) == b[k];
    }
  }

  /** A product with the generator is zero, or reaches the generator's degree. */
  lemma {:induction false} ProductHigh(d: seq<bool>, g: seq<bool>, k: nat) returns (i: nat)
    requires |g| > 0 && g[0] && k < |d| && d[k] && forall j :: 0 <= j < k ==> !d[j]
    ensures i == |d| - 1 - k + |g| - 1 && Coef(Times(d, g), i)
  {
    hide Times;
    var n := |d| - 1;
    i := n - k + |g| - 1;
    assert d == d[..n] + [d[n]];
    TimesCoef(d[..n], d[n], g, i);
    if k < n {
      var h := ProductHigh(d[..n], g, k);
    } else {
      ProductZero(d[..n], g, i - 1);
    }
  }

  lemma {:induction false} ProductZero(d: seq<bool>, g: seq<bool>, i: int)
    requires forall j :: 0 <= j < |d| ==> !d[j]
    ensures !Coef(Times(d, g), i)
  {
    hide Times, Coef;
    if d == [] {
      TimesNone(g, i);
    } else {
      var n := |d| - 1;
      assert d == d[..n] + [d[n]];
      TimesCoef(d[..n], d[n], g, i);
      ProductZero(d[..n], g, i - 1);
    }
  }

  lemma {:induction false} FirstTrue(d: seq<bool>) returns (k: nat)
    requires exists j :: 0 <= j < |d| && d[j]
    ensures k < |d| && d[k] && forall j :: 0 <= j < k ==> !d[j]
  {
    k := 0;
    while !d[k]
      invariant 0 <= k < |d| && forall j :: 0 <= j < k ==> !d[j]
      decreases |d| - k
    {
      k := k + 1;
    }
  }

  /** The remainder is determined by the dividend and the generator. */
  lemma RemainderUnique(seed: seq<bool>, bits: seq<bool>, g: seq<bool>, q: seq<bool>, r: seq<bool>,
                        p: seq<bool>, o: seq<bool>)
    requires Divided(seed, bits, g, q, r) && Divided(seed, bits, g, p, o) && |q| == |p| && g[0]
    ensures r == o
  {
    hide Times, Left, Sum;
    var d := Sum(q, p);
    if exists j :: 0 <= j < |d| && d[j] {
      var k := FirstTrue(d);
      var i := ProductHigh(d, g, k);
      TimesSum(q, p, g, i);
      assert false;
    }
    forall k | 0 <= k < |r| ensures r[k] == o[k] {
      var i := |r| - 1 - k;
      ProductZero(d, g, i);
      TimesSum(q, p, g, i);
      assert Coef(r, i) == r[k] && Coef(o, i) == o[k];
    }
  }

  lemma SumSelf(a: seq<bool>)
    ensures forall k :: 0 <= k < |a| ==> !Sum(a, a)[k]
  {
    forall k | 0 <= k < |a| ensures !Sum(a, a)[k] {
      SumCoef(a, a, |a| - 1 - k);
      assert Coef(Sum(a, a), |a| - 1 - k) == Sum(a, a)[k];
    }
  }

  lemma SumHead(x: bool, a: seq<bool>, y: bool, b: seq<bool>)
    requires |a| == |b|
    ensures Sum([x] + a, [y] + b) == [Xor(x, y)] + Sum(a, b)
  {
    var l, r := Sum([x] + a, [y] + b), [Xor(x, y)] + Sum(a, b);
    var n := |a|;
    forall k | 0 <= k < |l| ensures l[k] == r[k] {
      assert Coef([x] + a, n - k) == if k == 0 then x else Coef(a, n - k);
      assert Coef([y] + b, n - k) == if k == 0 then y else Coef(b, n - k);
    }
  }

  lemma Eight(a: bool, b: bool, c: bool, d: bool, e: bool, f: bool, g: bool, h: bool)
    ensures [a, b, c, d] + ([e, f, g, h] + []) == [a, b, c, d, e, f, g, h]
  {
  }

  predicate IsSet(b: bv8, mask: bv8) { b & mask != 0 }

  // ---------------- CRC16 ----------------

  /** x^16 + x^12 + x^5 + 1. */
  function Generator16(): (g: seq<bool>)
    ensures |g| == 17 && g[0]
  {
    [true, false, false, false, true, false, false, false,
     false, false, false, true, false, false, false, false,
     true]
  }

  /** A byte's bits in the order they enter the register. */
  function Byte16(b: bv8): (p: seq<bool>)
    ensures |p| == 8
  {
    [IsSet(b, 0x80), IsSet(b, 0x40), IsSet(b, 0x20), IsSet(b, 0x10),
     IsSet(b, 0x08), IsSet(b, 0x04), IsSet(b, 0x02), IsSet(b, 0x01)]
  }

  function Message16(s: seq<bv8>): (p: seq<bool>)
    ensures |p| == 8 * |s|
  {
    if s == [] then [] else Message16(s[..|s| - 1]) + Byte16(s[|s| - 1])
  }

  /** The first `n` bits of a word, the one that leaves next first. */
  function Bits16(n: nat, c: bv16): (p: seq<bool>)
    ensures |p| == n
  {
    if n == 0 then [] else [Crc16.Front(c) != 0] + Bits16(n - 1, Crc16.Next(c))
  }

  /** The register as a polynomial of degree below 16. */
  function Reg16(c: bv16): (p: seq<bool>)
    ensures |p| == 16
  {
    Bits16(16, c)
  }

  lemma {:induction false} BitsMix16(n: nat, a: bv16, b: bv16)
    ensures Bits16(n, Crc16.Mix(a, b)) == Sum(Bits16(n, a), Bits16(n, b))
  {
    hide Crc16.Mix, Crc16.Next, Crc16.Front;
    if n > 0 {
      Crc16.NextMix(a, b);
      Crc16.FrontMix(a, b);
      BitsMix16(n - 1, Crc16.Next(a), Crc16.Next(b));
      SumHead(Crc16.Front(a) != 0, Bits16(n - 1, Crc16.Next(a)), Crc16.Front(b) != 0, Bits16(n - 1, Crc16.Next(b)));
    }
  }

  lemma {:induction false} BitsMore16(n: nat, c: bv16)
    ensures Bits16(n + 1, c) == Bits16(n, c) + [Crc16.Front(Crc16.Nexts(n, c)) != 0]
  {
    hide Crc16.Next, Crc16.Front;
    if n > 0 {
      BitsMore16(n - 1, Crc16.Next(c));
    }
  }

  lemma {:induction false} NextsPlus16(n: nat, m: nat, c: bv16)
    ensures Crc16.Nexts(n + m, c) == Crc16.Nexts(m, Crc16.Nexts(n, c))
  {
    hide Crc16.Next;
    if n > 0 {
      NextsPlus16(n - 1, m, Crc16.Next(c));
    }
  }

  lemma AllOut16(c: bv16)
    ensures Crc16.NextByte(Crc16.NextByte(c)) == 0
  {
  }

  /** After 16 moves nothing is left of a word. */
  lemma Emptied16(c: bv16)
    ensures Crc16.Nexts(16, c) == 0
  {
    hide Crc16.Nexts, Crc16.NextByte;
    AllOut16(c);
    Crc16.NextsEight(c);
    NextsPlus16(8, 8, c);
    Crc16.NextsEight(Crc16.NextByte(c));
  }

  lemma FrontNone16()
    ensures Crc16.Front(0) == 0
  {
  }

  lemma ZeroWord16(c: bv16)
    ensures Crc16.Front(c) == 0 && Crc16.Next(c) == 0 ==> c == 0
  {
  }

  lemma {:induction false} NoBitSet16(n: nat, c: bv16)
    requires Crc16.Nexts(n, c) == 0 && forall k :: 0 <= k < n ==> !Bits16(n, c)[k]
    ensures c == 0
  {
    hide Crc16.Front, Crc16.Next;
    if n > 0 {
      var rest := Bits16(n - 1, Crc16.Next(c));
      forall k | 0 <= k < n - 1 ensures !rest[k] {
        assert Bits16(n, c)[k + 1] == rest[k];
      }
      NoBitSet16(n - 1, Crc16.Next(c));
      assert !Bits16(n, c)[0];
      ZeroWord16(c);
    }
  }

  /** A register is determined by its polynomial. */
  lemma RegOneToOne16(a: bv16, b: bv16)
    requires Reg16(a) == Reg16(b)
    ensures a == b
  {
    hide Crc16.Mix, Crc16.Nexts, Bits16;
    BitsMix16(16, a, b);
    SumSelf(Reg16(a));
    Emptied16(Crc16.Mix(a, b));
    NoBitSet16(16, Crc16.Mix(a, b));
    Crc16.MixNone(a, b);
  }

  lemma RegNext16(c: bv16)
    ensures Reg16(Crc16.Next(c)) == Reg16(c)[1..] + [false]
  {
    hide Crc16.Next, Crc16.Nexts, Crc16.Front, Bits16;
    BitsMore16(16, c);
    Emptied16(c);
    BitsHead16(16, c);
    FrontNone16();
    assert Bits16(16 + 1, c)[1..] == Bits16(16, Crc16.Next(c));
  }

  lemma BitsHead16(n: nat, c: bv16)
    ensures Bits16(n + 1, c) == [Crc16.Front(c) != 0] + Bits16(n, Crc16.Next(c))
  {
  }

  /** Four moves at once. */
  function Moved16(c: bv16): bv16 { Crc16.Next(Crc16.Next(Crc16.Next(Crc16.Next(c)))) }

  lemma NoBits16(c: bv16)
    ensures Bits16(0, c) == []
  {
  }

  lemma FourBits16(n: nat, c: bv16)
    ensures Bits16(n + 4, c)
         == [Crc16.Front(c) != 0, Crc16.Front(Crc16.Next(c)) != 0, Crc16.Front(Crc16.Next(Crc16.Next(c))) != 0,
             Crc16.Front(Crc16.Next(Crc16.Next(Crc16.Next(c)))) != 0] + Bits16(n, Moved16(c))
  {
    hide Crc16.Next, Crc16.Front, Bits16;
    BitsHead16(n + 3, c);
    BitsHead16(n + 2, Crc16.Next(c));
    BitsHead16(n + 1, Crc16.Next(Crc16.Next(c)));
    BitsHead16(n, Crc16.Next(Crc16.Next(Crc16.Next(c))));
  }

  lemma RegPoly16()
    ensures Reg16(Crc16.POLY) == Generator16()[1..]
  {
    FourBits16(12, 0x1021);
    FourBits16(8, 0x210);
    FourBits16(4, 0x2100);
    FourBits16(0, 0x1000);
  }

  /** Bit `m` where the register takes it in. */
  function In16(m: bool): bv16 { if m then 0x8000 else 0 }

  lemma In16Parts(c: bv16, m: bool)
    ensures Crc16.Front(Crc16.Mix(c, In16(m))) != 0 <==> Xor(Crc16.Front(c) != 0, m)
    ensures Crc16.Next(Crc16.Mix(c, In16(m))) == Crc16.Next(c)
    ensures Crc16.Front(c) == In16(Crc16.Front(c) != 0)
  {
    hide Crc16.Mix;
    Crc16.NextMix(c, In16(m));
    Crc16.FrontMix(c, In16(m));
    Crc16.MixZero(Crc16.Next(c));
  }

  /** One shift of the register is one step of the division. */
  lemma Step16(c: bv16, m: bool)
    ensures Reg16(Crc16.Shift(Crc16.Mix(c, In16(m)))) == Divide(Reg16(c), m, Generator16())
  {
    hide Crc16.Mix, Crc16.Next, Crc16.Front, In16, Generator16, Bits16, Divide, Sum;
    In16Parts(c, m);
    RegNext16(c);
    RegPoly16();
    BitsHead16(15, c);
    BitsMix16(16, Crc16.Next(c), Crc16.POLY);
    DivideIs(Reg16(c), m, Generator16());
  }

  lemma {:induction false} Feed16(n: nat, c: bv16, b: bv16)
    ensures Reg16(Crc16.Feed(n, c, b)) == DivideAll(Reg16(c), Bits16(n, b), Generator16())
  {
    hide Crc16.Mix, Crc16.Next, Crc16.Front, Crc16.Shift, In16, Generator16, Reg16, Divide;
    if n > 0 {
      var m := Crc16.Front(b) != 0;
      In16Parts(b, m);
      Step16(c, m);
      Feed16(n - 1, Crc16.Shift(Crc16.Mix(c, Crc16.Front(b))), Crc16.Next(b));
      assert Bits16(n, b)[1..] == Bits16(n - 1, Crc16.Next(b));
    }
  }

  lemma ByteFronts16(b: bv8)
    ensures var c := Crc16.Place(b); var d := Moved16(c);
      && (Crc16.Front(c) != 0) == IsSet(b, 0x80)
      && (Crc16.Front(Crc16.Next(c)) != 0) == IsSet(b, 0x40)
      && (Crc16.Front(Crc16.Next(Crc16.Next(c))) != 0) == IsSet(b, 0x20)
      && (Crc16.Front(Crc16.Next(Crc16.Next(Crc16.Next(c)))) != 0) == IsSet(b, 0x10)
      && (Crc16.Front(d) != 0) == IsSet(b, 0x08)
      && (Crc16.Front(Crc16.Next(d)) != 0) == IsSet(b, 0x04)
      && (Crc16.Front(Crc16.Next(Crc16.Next(d))) != 0) == IsSet(b, 0x02)
      && (Crc16.Front(Crc16.Next(Crc16.Next(Crc16.Next(d)))) != 0) == IsSet(b, 0x01)
  {
  }

  lemma ByteBits16(b: bv8)
    ensures Byte16(b) == Bits16(8, Crc16.Place(b))
  {
    hide Crc16.Next, Crc16.Front, Crc16.Place, Bits16, Moved16, IsSet;
    var c := Crc16.Place(b);
    ByteFronts16(b);
    NoBits16(Moved16(Moved16(c)));
    FourBits16(4, c);
    FourBits16(0, Moved16(c));
    Eight(IsSet(b, 0x80), IsSet(b, 0x40), IsSet(b, 0x20), IsSet(b, 0x10),
          IsSet(b, 0x08), IsSet(b, 0x04), IsSet(b, 0x02), IsSet(b, 0x01));
  }

  /** The register after a message is the remainder of the message, the seed in front of it, divided by
      the generator. */
  lemma {:induction false} Remainder16(c: bv16, s: seq<bv8>) returns (q: seq<bool>)
    ensures |q| == 8 * |s| && Divided(Reg16(c), Message16(s), Generator16(), q, Reg16(Crc16.Bitwise(c, s)))
  {
    hide Crc16.Feed, Crc16.Place, Reg16, Generator16, Byte16, Divided, DivideAll;
    if s == [] {
      q := [];
      DividedNone(Reg16(c), Generator16());
    } else {
      var n := |s| - 1;
      var p := Remainder16(c, s[..n]);
      ByteBits16(s[n]);
      Feed16(8, Crc16.Bitwise(c, s[..n]), Crc16.Place(s[n]));
      q := DividedAll(Reg16(c), Message16(s[..n]), Generator16(), p, Reg16(Crc16.Bitwise(c, s[..n])), Byte16(s[n]));
    }
  }

  /** The checksum is the only register that remainder can be. */
  lemma OnlyRemainder16(c: bv16, s: seq<bv8>, q: seq<bool>, r: bv16)
    requires |q| == 8 * |s| && Divided(Reg16(c), Message16(s), Generator16(), q, Reg16(r))
    ensures r == Crc16.Bitwise(c, s)
  {
    hide Divided, Reg16, Message16, Generator16, Crc16.Bitwise;
    var p := Remainder16(c, s);
    RemainderUnique(Reg16(c), Message16(s), Generator16(), q, Reg16(r), p, Reg16(Crc16.Bitwise(c, s)));
    RegOneToOne16(r, Crc16.Bitwise(c, s));
  }

  // ---------------- CRC32 ----------------

  /** Castagnoli's polynomial, 0x11EDC6F41, of section 12.1 of RFC 3720. */
  function Generator32(): (g: seq<bool>)
    ensures |g| == 33 && g[0]
  {
    [true, false, false, false, true, true, true, true,
     false, true, true, false, true, true, true, false,
     false, false, true, true, false, true, true, true,
     true, false, true, false, false, false, false, false,
     true]
  }

  /** A byte's bits in the order they enter the register. */
  function Byte32(b: bv8): (p: seq<bool>)
    ensures |p| == 8
  {
    [IsSet(b, 0x01), IsSet(b, 0x02), IsSet(b, 0x04), IsSet(b, 0x08),
     IsSet(b, 0x10), IsSet(b, 0x20), IsSet(b, 0x40), IsSet(b, 0x80)]
  }

  function Message32(s: seq<bv8>): (p: seq<bool>)
    ensures |p| == 8 * |s|
  {
    if s == [] then [] else Message32(s[..|s| - 1]) + Byte32(s[|s| - 1])
  }

  /** The first `n` bits of a word, the one that leaves next first. */
  function Bits32(n: nat, c: bv32): (p: seq<bool>)
    ensures |p| == n
  {
    if n == 0 then [] else [Crc32c.Front(c) != 0] + Bits32(n - 1, Crc32c.Next(c))
  }

  /** The register as a polynomial of degree below 32. */
  function Reg32(c: bv32): (p: seq<bool>)
    ensures |p| == 32
  {
    Bits32(32, c)
  }

  lemma {:induction false} BitsMix32(n: nat, a: bv32, b: bv32)
    ensures Bits32(n, Crc32c.Mix(a, b)) == Sum(Bits32(n, a), Bits32(n, b))
  {
    hide Crc32c.Mix, Crc32c.Next, Crc32c.Front;
    if n > 0 {
      Crc32c.NextMix(a, b);
      Crc32c.FrontMix(a, b);
      BitsMix32(n - 1, Crc32c.Next(a), Crc32c.Next(b));
      SumHead(Crc32c.Front(a) != 0, Bits32(n - 1, Crc32c.Next(a)), Crc32c.Front(b) != 0, Bits32(n - 1, Crc32c.Next(b)));
    }
  }

  lemma {:induction false} BitsMore32(n: nat, c: bv32)
    ensures Bits32(n + 1, c) == Bits32(n, c) + [Crc32c.Front(Crc32c.Nexts(n, c)) != 0]
  {
    hide Crc32c.Next, Crc32c.Front;
    if n > 0 {
      BitsMore32(n - 1, Crc32c.Next(c));
    }
  }

  lemma {:induction false} NextsPlus32(n: nat, m: nat, c: bv32)
    ensures Crc32c.Nexts(n + m, c) == Crc32c.Nexts(m, Crc32c.Nexts(n, c))
  {
    hide Crc32c.Next;
    if n > 0 {
      NextsPlus32(n - 1, m, Crc32c.Next(c));
    }
  }

  lemma AllOut32(c: bv32)
    ensures Crc32c.NextByte(Crc32c.NextByte(Crc32c.NextByte(Crc32c.NextByte(c)))) == 0
  {
  }

  /** After 32 moves nothing is left of a word. */
  lemma Emptied32(c: bv32)
    ensures Crc32c.Nexts(32, c) == 0
  {
    hide Crc32c.Nexts, Crc32c.NextByte;
    AllOut32(c);
    Crc32c.NextsEight(c);
    NextsPlus32(8, 24, c);
    Crc32c.NextsEight(Crc32c.NextByte(c));
    NextsPlus32(8, 16, Crc32c.NextByte(c));
    Crc32c.NextsEight(Crc32c.NextByte(Crc32c.NextByte(c)));
    NextsPlus32(8, 8, Crc32c.NextByte(Crc32c.NextByte(c)));
    Crc32c.NextsEight(Crc32c.NextByte(Crc32c.NextByte(Crc32c.NextByte(c))));
  }

  lemma FrontNone32()
    ensures Crc32c.Front(0) == 0
  {
  }

  lemma ZeroWord32(c: bv32)
    ensures Crc32c.Front(c) == 0 && Crc32c.Next(c) == 0 ==> c == 0
  {
  }

  lemma {:induction false} NoBitSet32(n: nat, c: bv32)
    requires Crc32c.Nexts(n, c) == 0 && forall k :: 0 <= k < n ==> !Bits32(n, c)[k]
    ensures c == 0
  {
    hide Crc32c.Front, Crc32c.Next;
    if n > 0 {
      var rest := Bits32(n - 1, Crc32c.Next(c));
      forall k | 0 <= k < n - 1 ensures !rest[k] {
        assert Bits32(n, c)[k + 1] == rest[k];
      }
      NoBitSet32(n - 1, Crc32c.Next(c));
      assert !Bits32(n, c)[0];
      ZeroWord32(c);
    }
  }

  /** A register is determined by its polynomial. */
  lemma RegOneToOne32(a: bv32, b: bv32)
    requires Reg32(a) == Reg32(b)
    ensures a == b
  {
    hide Crc32c.Mix, Crc32c.Nexts, Bits32;
    BitsMix32(32, a, b);
    SumSelf(Reg32(a));
    Emptied32(Crc32c.Mix(a, b));
    NoBitSet32(32, Crc32c.Mix(a, b));
    Crc32c.MixNone(a, b);
  }

  lemma RegNext32(c: bv32)
    ensures Reg32(Crc32c.Next(c)) == Reg32(c)[1..] + [false]
  {
    hide Crc32c.Next, Crc32c.Nexts, Crc32c.Front, Bits32;
    BitsMore32(32, c);
    Emptied32(c);
    BitsHead32(32, c);
    FrontNone32();
    assert Bits32(32 + 1, c)[1..] == Bits32(32, Crc32c.Next(c));
  }

  lemma BitsHead32(n: nat, c: bv32)
    ensures Bits32(n + 1, c) == [Crc32c.Front(c) != 0] + Bits32(n, Crc32c.Next(c))
  {
  }

  /** Four moves at once. */
  function Moved32(c: bv32): bv32 { Crc32c.Next(Crc32c.Next(Crc32c.Next(Crc32c.Next(c)))) }

  lemma NoBits32(c: bv32)
    ensures Bits32(0, c) == []
  {
  }

  lemma FourBits32(n: nat, c: bv32)
    ensures Bits32(n + 4, c)
         == [Crc32c.Front(c) != 0, Crc32c.Front(Crc32c.Next(c)) != 0, Crc32c.Front(Crc32c.Next(Crc32c.Next(c))) != 0,
             Crc32c.Front(Crc32c.Next(Crc32c.Next(Crc32c.Next(c)))) != 0] + Bits32(n, Moved32(c))
  {
    hide Crc32c.Next, Crc32c.Front, Bits32;
    BitsHead32(n + 3, c);
    BitsHead32(n + 2, Crc32c.Next(c));
    BitsHead32(n + 1, Crc32c.Next(Crc32c.Next(c)));
    BitsHead32(n, Crc32c.Next(Crc32c.Next(Crc32c.Next(c))));
  }

  lemma HighPoly32()
    ensures Bits32(32, Crc32c.POLY)
         == [false, false, false, true, true, true, true, false]
          + [true, true, false, true, true, true, false, false] + Bits32(16, 0x82F6)
  {
    FourBits32(28, Crc32c.POLY);
    FourBits32(24, 0x82F63B7);
    FourBits32(20, 0x82F63B);
    FourBits32(16, 0x82F63);
    hide Bits32;
  }

  lemma LowPoly32()
    ensures Bits32(16, 0x82F6)
         == [false, true, true, false, true, true, true, true]
          + [false, true, false, false, false, false, false, true]
  {
    FourBits32(12, 0x82F6);
    FourBits32(8, 0x82F);
    FourBits32(4, 0x82);
    FourBits32(0, 0x8);
    NoBits32(0);
    hide Bits32;
  }

  lemma RegPoly32()
    ensures Reg32(Crc32c.POLY) == Generator32()[1..]
  {
    hide Bits32;
    HighPoly32();
    LowPoly32();
  }

  /** Bit `m` where the register takes it in. */
  function In32(m: bool): bv32 { if m then 1 else 0 }

  lemma In32Parts(c: bv32, m: bool)
    ensures Crc32c.Front(Crc32c.Mix(c, In32(m))) != 0 <==> Xor(Crc32c.Front(c) != 0, m)
    ensures Crc32c.Next(Crc32c.Mix(c, In32(m))) == Crc32c.Next(c)
    ensures Crc32c.Front(c) == In32(Crc32c.Front(c) != 0)
  {
    hide Crc32c.Mix;
    Crc32c.NextMix(c, In32(m));
    Crc32c.FrontMix(c, In32(m));
    Crc32c.MixZero(Crc32c.Next(c));
  }

  /** One shift of the register is one step of the division. */
  lemma Step32(c: bv32, m: bool)
    ensures Reg32(Crc32c.Shift(Crc32c.Mix(c, In32(m)))) == Divide(Reg32(c), m, Generator32())
  {
    hide Crc32c.Mix, Crc32c.Next, Crc32c.Front, In32, Generator32, Bits32, Divide, Sum;
    In32Parts(c, m);
    RegNext32(c);
    RegPoly32();
    BitsHead32(31, c);
    BitsMix32(32, Crc32c.Next(c), Crc32c.POLY);
    DivideIs(Reg32(c), m, Generator32());
  }

  lemma {:induction false} Feed32(n: nat, c: bv32, b: bv32)
    ensures Reg32(Crc32c.Feed(n, c, b)) == DivideAll(Reg32(c), Bits32(n, b), Generator32())
  {
    hide Crc32c.Mix, Crc32c.Next, Crc32c.Front, Crc32c.Shift, In32, Generator32, Reg32, Divide;
    if n > 0 {
      var m := Crc32c.Front(b) != 0;
      In32Parts(b, m);
      Step32(c, m);
      Feed32(n - 1, Crc32c.Shift(Crc32c.Mix(c, Crc32c.Front(b))), Crc32c.Next(b));
      assert Bits32(n, b)[1..] == Bits32(n - 1, Crc32c.Next(b));
    }
  }

  lemma ByteFronts32(b: bv8)
    ensures var c := Crc32c.Place(b); var d := Moved32(c);
      && (Crc32c.Front(c) != 0) == IsSet(b, 0x01)
      && (Crc32c.Front(Crc32c.Next(c)) != 0) == IsSet(b, 0x02)
      && (Crc32c.Front(Crc32c.Next(Crc32c.Next(c))) != 0) == IsSet(b, 0x04)
      && (Crc32c.Front(Crc32c.Next(Crc32c.Next(Crc32c.Next(c)))) != 0) == IsSet(b, 0x08)
      && (Crc32c.Front(d) != 0) == IsSet(b, 0x10)
      && (Crc32c.Front(Crc32c.Next(d)) != 0) == IsSet(b, 0x20)
      && (Crc32c.Front(Crc32c.Next(Crc32c.Next(d))) != 0) == IsSet(b, 0x40)
      && (Crc32c.Front(Crc32c.Next(Crc32c.Next(Crc32c.Next(d)))) != 0) == IsSet(b, 0x80)
  {
  }

  lemma ByteBits32(b: bv8)
    ensures Byte32(b) == Bits32(8, Crc32c.Place(b))
  {
    hide Crc32c.Next, Crc32c.Front, Crc32c.Place, Bits32, Moved32, IsSet;
    var c := Crc32c.Place(b);
    ByteFronts32(b);
    NoBits32(Moved32(Moved32(c)));
    FourBits32(4, c);
    FourBits32(0, Moved32(c));
    Eight(IsSet(b, 0x01), IsSet(b, 0x02), IsSet(b, 0x04), IsSet(b, 0x08),
          IsSet(b, 0x10), IsSet(b, 0x20), IsSet(b, 0x40), IsSet(b, 0x80));
  }

  /** The register after a message is the remainder of the message, the seed in front of it, divided by
      the generator. */
  lemma {:induction false} Remainder32(c: bv32, s: seq<bv8>) returns (q: seq<bool>)
    ensures |q| == 8 * |s| && Divided(Reg32(c), Message32(s), Generator32(), q, Reg32(Crc32c.Bitwise(c, s)))
  {
    hide Crc32c.Feed, Crc32c.Place, Reg32, Generator32, Byte32, Divided, DivideAll;
    if s == [] {
      q := [];
      DividedNone(Reg32(c), Generator32());
    } else {
      var n := |s| - 1;
      var p := Remainder32(c, s[..n]);
      ByteBits32(s[n]);
      Feed32(8, Crc32c.Bitwise(c, s[..n]), Crc32c.Place(s[n]));
      q := DividedAll(Reg32(c), Message32(s[..n]), Generator32(), p, Reg32(Crc32c.Bitwise(c, s[..n])), Byte32(s[n]));
    }
  }

  /** The checksum is the only register that remainder can be. */
  lemma OnlyRemainder32(c: bv32, s: seq<bv8>, q: seq<bool>, r: bv32)
    requires |q| == 8 * |s| && Divided(Reg32(c), Message32(s), Generator32(), q, Reg32(r))
    ensures r == Crc32c.Bitwise(c, s)
  {
    hide Divided, Reg32, Message32, Generator32, Crc32c.Bitwise;
    var p := Remainder32(c, s);
    RemainderUnique(Reg32(c), Message32(s), Generator32(), q, Reg32(r), p, Reg32(Crc32c.Bitwise(c, s)));
    RegOneToOne32(r, Crc32c.Bitwise(c, s));
  }
}
