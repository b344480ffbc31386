/** Facts about integer division and powers that the fixed-width models rely on. */
module Arith {

  function Pow2(n: nat): (r: nat)
    ensures r >= 1
  {
    if n == 0 then 1 else 2 * Pow2(n - 1)
  }

  function Pow10(n: nat): (r: nat)
    ensures r >= 1
  {
    if n == 0 then 1 else 10 * Pow10(n - 1)
  }

  lemma {:induction false} Pow2Add(a: nat, b: nat)
    ensures Pow2(a + b) == Pow2(a) * Pow2(b)
  {
    if a > 0 {
      Pow2Add(a - 1, b);
    }
  }

  lemma {:induction false} Pow10Add(a: nat, b: nat)
    ensures Pow10(a + b) == Pow10(a) * Pow10(b)
  {
    if a > 0 {
      Pow10Add(a - 1, b);
    }
  }

  lemma ScaleByTen(x: int, k: nat)
    ensures x * Pow10(k + 1) == x * Pow10(k) * 10
  {
  }

  lemma MulBound(d: int, k: int)
    requires 0 < d
    ensures k >= 1 ==> d * k >= d
    ensures k <= -1 ==> d * k <= -d
  {
    if k >= 1 {
      assert d * k == d + d * (k - 1);
    } else if k <= -1 {
      assert d * k == -d + d * (k + 1);
    }
  }

  /** Euclidean quotient and remainder are the only pair that reassembles `a`. */
  lemma DivModUnique(a: int, d: int, q: int, r: int)
    requires 0 < d && a == d * q + r && 0 <= r < d
    ensures a / d == q && a % d == r
  {
    var k := q - a / d;
    assert d * k == a % d - r;
    MulBound(d, k);
  }

  lemma MulMonotone(x: nat, a: int, b: int)
    requires a <= b
    ensures x * a <= x * b
  {
    assert x * b - x * a == x * (b - a);
  }

  lemma DivBounds(a: nat, d: int)
    requires d >= 1
    ensures 0 <= a / d <= a
    ensures a == d * (a / d) + a % d
  {
    assert a == d * (a / d) + a % d;
    MulMonotone(a / d, 1, d);
  }

  /** The quotient of a natural number, known to be one. */
  function Quotient(a: nat, d: int): (q: nat)
    requires d >= 1
    ensures q == a / d && q <= a
  {
    DivBounds(a, d);
    a / d
  }

  /** Dividing by `b` then by `c` is dividing by `b * c`; the remainder splits the same way. */
  lemma DivModNested(a: int, b: int, c: int)
    requires 0 < b && 0 < c
    ensures a / (b * c) == a / b / c
    ensures a % (b * c) == (a / b) % c * b + a % b
  {
    var q1, r1 := a / b, a % b;
    var q2, r2 := q1 / c, q1 % c;
    assert a == b * q1 + r1;
    assert q1 == c * q2 + r2;
    assert a == (b * c) * q2 + (r2 * b + r1) by {
      assert b * q1 == b * (c * q2) + b * r2;
    }
    MulMonotone(b, r2, c - 1);
    assert r2 * b + r1 < b * c;
    DivModUnique(a, b * c, q2, r2 * b + r1);
  }

  lemma DivDiv(a: int, b: int, c: int)
    requires 0 < b && 0 < c
    ensures a / (b * c) == a / b / c
  {
    DivModNested(a, b, c);
  }
}
