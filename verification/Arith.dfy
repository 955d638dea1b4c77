/** Products, quotients and remainders of two variables. They are defined by repeated
    addition and subtraction, so that reasoning about them stays linear, and proved
    equal to the built-in operators. */
module Arith {

  function Mul(a: nat, d: nat): (p: nat) {
    if a == 0 then 0 else Mul(a - 1, d) + d
  }

  function Mod(x: nat, d: nat): (r: nat)
    requires d > 0
    ensures r < d
  {
    if x < d then x else Mod(x - d, d)
  }

  /** The quotient: `d` goes into `x` that often, with `Mod` left over. */
  function Div(x: nat, d: nat): (q: nat)
    requires d > 0
    ensures x == Mul(q, d) + Mod(x, d)
  {
    if x < d then 0 else Div(x - d, d) + 1
  }

  lemma {:induction false} MulIsProduct(a: nat, d: nat)
    ensures Mul(a, d) == a * d
  {
    if a > 0 {
      MulIsProduct(a - 1, d);
      assert a * d == (a - 1) * d + d;
    }
  }

  lemma {:induction false} MulMono(a: nat, b: nat, d: nat)
    requires a <= b
    ensures Mul(a, d) <= Mul(b, d)
  {
    if a < b {
      MulMono(a, b - 1, d);
    }
  }

  /** Slots of width `d` do not overlap. */
  lemma SlotsApart(a: nat, b: nat, d: nat)
    requires a < b
    ensures Mul(a, d) + d <= Mul(b, d)
  {
    MulMono(a + 1, b, d);
  }

  lemma MulNext(a: nat, d: nat)
    ensures Mul(a + 1, d) == Mul(a, d) + d
  {
  }

  lemma {:induction false} MulAdd(a: nat, b: nat, d: nat)
    ensures Mul(a + b, d) == Mul(a, d) + Mul(b, d)
  {
    if b > 0 {
      MulAdd(a, b - 1, d);
    }
  }

  /** The quotient and remainder are the only way to write `x` as slots plus a position. */
  lemma {:induction false} DivModUnique(q: nat, r: nat, d: nat)
    requires r < d
    ensures Div(Mul(q, d) + r, d) == q && Mod(Mul(q, d) + r, d) == r
  {
    if q > 0 {
      DivModUnique(q - 1, r, d);
    }
  }

  lemma {:induction false} MulAtLeast(q: nat, d: nat)
    requires d > 0
    ensures q <= Mul(q, d)
  {
    if q > 0 {
      MulAtLeast(q - 1, d);
    }
  }

  lemma ModSmall(x: nat, d: nat)
    requires x < d
    ensures Mod(x, d) == x
  {
  }

  lemma DivBound(x: nat, n: nat, d: nat)
    requires d > 0 && x < Mul(n, d)
    ensures Div(x, d) < n
  {
    if n <= Div(x, d) {
      MulMono(n, Div(x, d), d);
    }
  }

  lemma DivMono(x: nat, y: nat, d: nat)
    requires d > 0 && x <= y
    ensures Div(x, d) <= Div(y, d)
  {
    if Div(y, d) < Div(x, d) {
      SlotsApart(Div(y, d), Div(x, d), d);
    }
  }

  /** Rounding up: the fewest chunks of `d` that hold `x`. */
  function CeilDiv(x: nat, d: nat): (q: nat)
    requires d > 0
    ensures x <= Mul(q, d) < x + d
  {
    Div(x + d - 1, d)
  }

  lemma DivModAreBuiltIn(x: nat, d: nat)
    requires d > 0
    ensures Div(x, d) == x / d && Mod(x, d) == x % d
  {
    var q, r := x / d, x % d;
    assert x == q * d + r;
    MulIsProduct(q, d);
    DivModUnique(q, r, d);
  }

  /** Moving `t` further, by no more than one slot, stays in the slot or enters the next one. */
  lemma DivModStep(x: nat, t: nat, d: nat)
    requires d > 0 && t <= d
    ensures Mod(x, d) + t < d ==> Div(x + t, d) == Div(x, d) && Mod(x + t, d) == Mod(x, d) + t
    ensures d <= Mod(x, d) + t ==> Div(x + t, d) == Div(x, d) + 1 && Mod(x + t, d) == Mod(x, d) + t - d
  {
    var q, r := Div(x, d), Mod(x, d);
    if r + t < d {
      DivModUnique(q, r + t, d);
      assert x + t == Mul(q, d) + (r + t);
    } else {
      DivModUnique(q + 1, r + t - d, d);
      assert x + t == Mul(q + 1, d) + (r + t - d);
    }
  }
}
