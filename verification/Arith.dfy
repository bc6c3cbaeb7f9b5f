// Products, quotients and remainders of natural numbers, named so that the solver meets their nonlinear
// definitions only where a lemma here is called for.
module Arith {

  function Times(size: nat, count: nat): nat { size * count }

  function Quotient(x: nat, d: nat): nat
    requires d > 0
  {
    x / d
  }

  function Remainder(x: nat, d: nat): (r: nat)
    requires d > 0
    ensures r < d
  {
    x % d
  }

  lemma {:induction false} MulMono(d: nat, a: int, b: int)
    requires a <= b
    ensures d * a <= d * b
  {}

  lemma {:induction false} TimesNext(size: nat, n: nat)
    ensures Times(size, n + 1) == Times(size, n) + size
  {}

  lemma {:induction false} TimesMono(size: nat, m: nat, n: nat)
    requires m <= n
    ensures Times(size, m) <= Times(size, n)
  {}

  lemma {:induction false} Division(x: nat, d: nat)
    requires d > 0
    ensures x == Times(d, Quotient(x, d)) + Remainder(x, d)
  {}

  lemma {:induction false} ModUnique(x: nat, d: nat, q: nat, r: nat)
    requires 0 <= r < d && x == d * q + r
    ensures x / d == q && x % d == r
  {
    var e := x / d - q;
    assert d * (x / d) + x % d == x;
    assert d * e == r - x % d;
    if e >= 1 { MulMono(d, 1, e); }
    if e <= -1 { MulMono(d, e, -1); }
  }

  lemma {:induction false} QuotientUnique(x: nat, d: nat, q: nat, r: nat)
    requires r < d && x == Times(d, q) + r
    ensures Quotient(x, d) == q && Remainder(x, d) == r
  {
    ModUnique(x, d, q, r);
  }

  lemma {:induction false} SmallMod(x: nat, d: nat)
    requires x < d
    ensures x % d == x
  {}
}
