/** The 64-bit shift-subtract division of lib/udivmod64.c. */
module Divide {
  import opened Arith
  import opened Bytes

  const U64 := 0x1_0000_0000_0000_0000

  /** x >> n */
  function Shr(x: nat, n: nat): (r: nat)
    ensures r <= x
  {
    if n == 0 then x else Shr(x, n - 1) / 2
  }

  /** x | (1 << n), in 64 bits */
  function SetBit(x: nat, n: nat): nat {
    if Shr(x, n) % 2 == 1 then x else (x + Pow2(n)) % U64
  }

  lemma {:induction false} ShrBelow(x: nat, n: nat, k: nat)
    requires x < Pow2(n) && k <= n
    ensures Shr(x, k) < Pow2(n - k)
  {
    if k > 0 {
      ShrBelow(x, n, k - 1);
    }
  }

  lemma {:induction false} MulTwice(q: nat, p: nat)
    ensures Mul(q, 2 * p) == Mul(2 * q, p)
  {
    if q > 0 {
      MulTwice(q - 1, p);
    }
  }

  lemma {:induction false} ShrMul(q: nat, n: nat)
    ensures Shr(Mul(q, Pow2(n)), n) == q
    decreases n
  {
    if n > 0 {
      MulTwice(q, Pow2(n - 1));
      ShrMul(2 * q, n - 1);
    } else {
      MulOne(q);
    }
  }

  lemma {:induction false} MulOne(q: nat)
    ensures Mul(q, 1) == q
  {
    if q > 0 {
      MulOne(q - 1);
    }
  }

  lemma {:induction false} MulPow(q: nat, n: nat, m: nat)
    requires q < Pow2(m)
    ensures Mul(q, Pow2(n)) + Pow2(n) <= Pow2(m + n)
  {
    if n == 0 {
      MulOne(q);
    } else {
      MulPow(q, n - 1, m);
      MulDouble(q, Pow2(n - 1));
    }
  }

  lemma {:induction false} MulDouble(q: nat, p: nat)
    ensures Mul(q, 2 * p) == 2 * Mul(q, p)
  {
    if q > 0 {
      MulDouble(q - 1, p);
    }
  }

  /** Bit `n` of the quotient so far is still clear, and setting it adds one to the digits above. */
  lemma SetBitIs(q: nat, n: nat)
    requires n < 64 && 2 * q + 1 < Pow2(64 - n)
    ensures SetBit(Mul(q, Pow2(n + 1)), n) == Mul(2 * q + 1, Pow2(n))
  {
    hide Mul;
    MulTwice(q, Pow2(n));
    ShrMul(2 * q, n);
    MulNext(2 * q, Pow2(n));
    MulPow(2 * q + 1, n, 64 - n);
    Pow64();
  }

  lemma Pow4(n: nat)
    ensures Pow2(n + 4) == 16 * Pow2(n)
  {
    assert Pow2(n + 2) == 4 * Pow2(n);
  }

  lemma Pow16(n: nat)
    ensures Pow2(n + 16) == 0x1_0000 * Pow2(n)
  {
    hide Pow2;
    Pow4(n);
    Pow4(n + 4);
    Pow4(n + 8);
    Pow4(n + 12);
  }

  lemma Pow64()
    ensures Pow2(64) == U64
  {
    Pow16(0);
    Pow16(16);
    Pow16(32);
    Pow16(48);
  }

  /** One more bit of the dividend: the digits so far double and the remainder takes the bit in. */
  lemma BringDown(num: nat, den: nat, i: nat, q: nat, rem: nat)
    requires Shr(num, i + 1) == Mul(q, den) + rem
    ensures Shr(num, i) == Mul(2 * q, den) + (2 * rem + Shr(num, i) % 2)
    ensures Mul(2 * q + 1, den) == Mul(2 * q, den) + den
  {
    MulTwice(q, den);
    MulDouble(q, den);
  }

  /** __udivmoddi4: exact for every 64-bit dividend and divisor; a zero divisor gives zeros. */
  method UDivMod(num: nat, den: nat) returns (quot: nat, rem: nat)
    requires num < U64 && den < U64
    ensures den == 0 ==> quot == rem == 0
    ensures den > 0 ==> num == quot * den + rem && rem < den
    ensures den > 0 ==> quot == num / den && rem == num % den
  {
    hide Shr, Pow2, SetBit, Mul;
    quot, rem := 0, 0;
    if den == 0 {
      return;
    }
    ghost var q: nat := 0;
    Start(num, den);
    var i := 64;
    while i > 0
      invariant 0 <= i <= 64 && rem < den
      invariant Shr(num, i) == Mul(q, den) + rem && quot == Mul(q, Pow2(i))
    {
      i := i - 1;
      BringDown(num, den, i, q, rem);
      Digits(num, den, i, q, rem);
      // The shift loses nothing: the remainder is at most what has been brought down.
      assert 2 * rem + Shr(num, i) % 2 <= Shr(num, i) <= num;
      rem := rem * 2 % U64 + Shr(num, i) % 2;
      if rem >= den {
        rem := rem - den;
        quot := SetBit(quot, i);
        q := 2 * q + 1;
      } else {
        q := 2 * q;
      }
    }
    Finish(num, den, q, rem);
  }

  lemma Start(num: nat, den: nat)
    requires num < U64
    ensures Shr(num, 64) == 0 && Mul(0, den) == 0 && Mul(0, Pow2(64)) == 0
  {
    Pow64();
    ShrBelow(num, 64, 64);
  }

  /** The next digit of the quotient: where it goes and why it fits. */
  lemma Digits(num: nat, den: nat, i: nat, q: nat, rem: nat)
    requires num < U64 && den > 0 && i < 64
    requires Shr(num, i) == Mul(2 * q, den) + (2 * rem + Shr(num, i) % 2)
    requires Mul(2 * q + 1, den) == Mul(2 * q, den) + den
    ensures Mul(q, Pow2(i + 1)) == Mul(2 * q, Pow2(i))
    ensures den <= 2 * rem + Shr(num, i) % 2 ==>
      SetBit(Mul(q, Pow2(i + 1)), i) == Mul(2 * q + 1, Pow2(i))
  {
    hide Shr, SetBit, Mul;
    MulTwice(q, Pow2(i));
    if den <= 2 * rem + Shr(num, i) % 2 {
      Pow64();
      ShrBelow(num, 64, i);
      MulAtLeast(2 * q + 1, den);
      SetBitIs(q, i);
    }
  }

  lemma Finish(num: nat, den: nat, q: nat, rem: nat)
    requires rem < den && Shr(num, 0) == Mul(q, den) + rem
    ensures Mul(q, Pow2(0)) == q && num == q * den + rem && q == num / den && rem == num % den
  {
    MulOne(q);
    MulIsProduct(q, den);
    DivModUnique(q, rem, den);
    DivModAreBuiltIn(num, den);
  }
}
