/** Quotients and remainders of numbers given in parts, and powers of two. */
module Arithmetic {
  lemma AtLeastOne(e: int, d: int)
    requires d > 0
    ensures e > 0 ==> e * d >= d
    ensures e < 0 ==> e * d <= -d
  {
  }

  lemma Quotient(a: int, d: int, q: int, r: int)
    requires d > 0 && a == q * d + r && 0 <= r < d
    ensures a / d == q && a % d == r
  {
    var e := a / d - q;
    assert a == (a / d) * d + a % d;
    assert e * d == r - a % d by {
      assert e * d == (a / d) * d - q * d;
    }
    AtLeastOne(e, d);
  }

  function Pow2(n: nat): (r: nat)
    ensures r >= 1
  {
    if n == 0 then 1 else 2 * Pow2(n - 1)
  }

  lemma {:induction false} Pow2Add(m: nat, n: nat)
    ensures Pow2(m + n) == Pow2(m) * Pow2(n)
    decreases m
  {
    if m > 0 {
      Pow2Add(m - 1, n);
    }
  }

  /** The bitwise exclusive or of two numbers. */
  function ExclusiveOr(x: nat, y: nat): nat
    decreases x + y
  {
    if x == 0 && y == 0 then 0 else 2 * ExclusiveOr(x / 2, y / 2) + if x % 2 != y % 2 then 1 else 0
  }

  lemma {:induction false} ExclusiveOrZero(x: nat)
    ensures ExclusiveOr(x, 0) == x
    decreases x
  {
    if x > 0 {
      ExclusiveOrZero(x / 2);
    }
  }

  lemma HalvesDivide(n: nat, k: nat)
    ensures n / Pow2(k + 1) == n / 2 / Pow2(k)
  {
    var p := Pow2(k);
    var q := n / 2 / p;
    var r := n / 2 % p;
    Regroup(q, p, r, n % 2);
    Quotient(n, 2 * p, q, 2 * r + n % 2);
  }

  lemma Regroup(q: nat, p: nat, r: nat, b: nat)
    ensures 2 * (q * p + r) + b == q * (2 * p) + (2 * r + b)
  {
  }
}
