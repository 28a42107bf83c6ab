/** Division, remainder and power facts that the byte-level proofs rely on.
    The solver does not reason about non-linear `/` and `%` on its own, so
    each fact is proved once here from the uniqueness of Euclidean division. */
module Arithmetic {

  /** 2^n, the range of an n-bit unsigned integer. */
  function Pow2(n: nat): (p: nat)
    ensures p >= 1
  {
    if n == 0 then 1 else 2 * Pow2(n - 1)
  }

  lemma {:induction false} Pow2Add(m: nat, n: nat)
    ensures Pow2(m + n) == Pow2(m) * Pow2(n)
  {
    if n > 0 {
      Pow2Add(m, n - 1);
      assert Pow2(m + n) == 2 * Pow2(m + n - 1);
    }
  }

  lemma MulAtLeast(d: int, x: int)
    requires d > 0 && x >= 1
    ensures d * x >= d
  {
  }

  lemma MulLeft(b: int, c: int, p: int)
    requires b <= c && p >= 0
    ensures b * p <= c * p
  {
  }

  /** Dividing a natural number by a positive one gives a natural number no larger. */
  lemma DivBound(x: int, d: int)
    requires x >= 0 && d > 0
    ensures 0 <= x / d <= x
  {
    MulLeft(1, d, x / d);
  }

  /** A quotient and remainder that satisfy the division equation are THE quotient and remainder. */
  lemma DivModUnique(v: int, d: int, q: int, r: int)
    requires d > 0 && v == d * q + r && 0 <= r < d
    ensures v / d == q && v % d == r
  {
    var q0, r0 := v / d, v % d;
    assert d * (q - q0) == r0 - r;
    if q - q0 >= 1 {
      MulAtLeast(d, q - q0);
    } else if q0 - q >= 1 {
      MulAtLeast(d, q0 - q);
    }
  }

  /** Adding a multiple of the divisor moves the quotient and keeps the remainder. */
  lemma DivModAddMultiple(x: int, k: int, d: int)
    requires d > 0
    ensures (x + k * d) / d == x / d + k && (x + k * d) % d == x % d
  {
    DivModUnique(x + k * d, d, x / d + k, x % d);
  }

  /** Dividing twice is dividing by the product; the remainder splits accordingly. */
  lemma DivDiv(v: int, a: int, b: int)
    requires v >= 0 && a > 0 && b > 0
    ensures a * b > 0
    ensures (v / a) / b == v / (a * b)
    ensures v % (a * b) == v % a + a * ((v / a) % b)
  {
    var q, r := v / a, v % a;
    var q2, r2 := q / b, q % b;
    MulAtLeast(a, b);
    assert a * (b * q2 + r2) == (a * b) * q2 + a * r2;
    MulLeft(r2, b - 1, a);
    assert (b - 1) * a == a * b - a;
    DivModUnique(v, a * b, q2, a * r2 + r);
  }

  /** An exact multiple divides back exactly. */
  lemma MulDivExact(k: int, d: int)
    requires d > 0
    ensures (k * d) / d == k && (k * d) % d == 0
  {
    DivModUnique(k * d, d, k, 0);
  }
}
