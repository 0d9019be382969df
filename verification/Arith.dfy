/** Non-linear facts about products and flooring division, stated once for every module. */
module Arith {

  lemma MulMono(a: nat, b: nat, c: nat, d: nat)
    requires a <= b && c <= d
    ensures a * c <= b * d
  {
    assert a * c <= b * c;
    assert b * c <= b * d;
  }

  lemma MulLeft(a: nat, x: int, y: int)
    requires x <= y
    ensures a * x <= a * y
  {
  }

  lemma MulAssoc(a: int, b: int, c: int)
    ensures a * b * c == a * (b * c)
  {
  }

  lemma MulCancelStrict(a: nat, x: int, y: int)
    requires a > 0 && x * a < y * a
    ensures x < y
  {
    assert (y - x) * a > 0;
  }

  lemma MulCancel(a: nat, x: int, y: int)
    requires a > 0 && a * x <= a * y
    ensures x <= y
  {
    MulCancelStrict(a, x, y + 1);
  }

  /** The flooring quotient, characterised. */
  lemma DivBounds(x: int, d: int)
    requires d > 0
    ensures x / d * d <= x < (x / d + 1) * d
  {
    assert x == d * (x / d) + x % d;
  }

  lemma DivMod(x: int, d: int)
    requires d > 0
    ensures x / d * d + x % d == x && 0 <= x % d < d
  {
  }

  lemma DivMonotone(x: int, y: int, d: nat)
    requires x <= y && d > 0
    ensures x / d <= y / d
  {
    DivBounds(x, d);
    DivBounds(y, d);
    MulCancelStrict(d, x / d, y / d + 1);
  }

  lemma DivAntitone(x: nat, d: nat, e: nat)
    requires 0 < d <= e
    ensures x / e <= x / d
  {
    DivBounds(x, d);
    DivBounds(x, e);
    MulMono(x / d + 1, x / d + 1, d, e);
    MulCancelStrict(e, x / e, x / d + 1);
  }

  /** Only one quotient lies within one divisor of x. */
  lemma DivUnique(x: int, d: nat, k: int)
    requires d > 0 && k * d <= x < (k + 1) * d
    ensures x / d == k
  {
    DivBounds(x, d);
    MulCancelStrict(d, k, x / d + 1);
    MulCancelStrict(d, x / d, k + 1);
  }

  lemma DivExact(k: int, d: nat)
    requires d > 0
    ensures k * d / d == k
  {
    DivUnique(k * d, d, k);
  }

  function Pow(b: nat, n: nat): nat {
    if n == 0 then 1 else b * Pow(b, n - 1)
  }

  lemma {:induction false} PowAdd(b: nat, m: nat, n: nat)
    ensures Pow(b, m + n) == Pow(b, m) * Pow(b, n)
  {
    if m == 0 {
    } else {
      PowAdd(b, m - 1, n);
      calc {
        Pow(b, m + n);
        b * Pow(b, m - 1 + n);
        b * (Pow(b, m - 1) * Pow(b, n));
        Pow(b, m) * Pow(b, n);
      }
    }
  }

  lemma {:induction false} PowPositive(b: nat, n: nat)
    requires b > 0
    ensures Pow(b, n) > 0
  {
    if n == 0 {
    } else {
      PowPositive(b, n - 1);
    }
  }
}
