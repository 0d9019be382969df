/** The DLMM price against the exact rational (1 + binStep/10000)^activeId. */
module DlmmExact {
  import opened Arith
  import DlmmPrice

  /** 2^64, the Q64.64 unit. */
  const ONE: nat := 18_446_744_073_709_551_616

  // ---------------------------------------------------------------- powers

  lemma {:induction false} PowMul(a: nat, c: nat, n: nat)
    ensures Pow(a * c, n) == Pow(a, n) * Pow(c, n)
  {
    if n == 0 {
    } else {
      PowMul(a, c, n - 1);
      Interchange(a, c, Pow(a, n - 1), Pow(c, n - 1));
    }
  }

  lemma Interchange(a: nat, c: nat, x: nat, y: nat)
    ensures a * c * (x * y) == a * x * (c * y)
  {
    MulAssoc(a, c, x * y);
    MulAssoc(a, x, c * y);
    assert c * (x * y) == x * (c * y);
  }

  lemma {:induction false} PowMonotone(a: nat, c: nat, n: nat)
    requires a <= c
    ensures Pow(a, n) <= Pow(c, n)
  {
    if n == 0 {
    } else {
      PowMonotone(a, c, n - 1);
      MulMono(a, c, Pow(a, n - 1), Pow(c, n - 1));
    }
  }

  // ---------------------------------------------------------------- the base of one bin step

  /** The truncated base times 10000 lies within one part in 2^64 of the exact one. */
  lemma BaseBounds(binStep: nat)
    ensures DlmmPrice.Q == ONE
    ensures DlmmPrice.Base(binStep) * 10_000 <= ONE * (10_000 + binStep)
    ensures DlmmPrice.Base(binStep) * 10_000 >= (ONE - 1) * (10_000 + binStep)
  {
    DivBounds(ONE * (10_000 + binStep), 10_000);
  }

  lemma BasePowers(binStep: nat, n: nat)
    ensures var b, p, d := Pow(DlmmPrice.Base(binStep), n), Pow(10_000 + binStep, n), Pow(10_000, n);
            b * d <= Pow(ONE, n) * p && b * d >= Pow(ONE - 1, n) * p
  {
    var b := DlmmPrice.Base(binStep);
    BaseBounds(binStep);
    PowMul(b, 10_000, n);
    PowMul(ONE, 10_000 + binStep, n);
    PowMul(ONE - 1, 10_000 + binStep, n);
    PowMonotone(b * 10_000, ONE * (10_000 + binStep), n);
    PowMonotone((ONE - 1) * (10_000 + binStep), b * 10_000, n);
  }

  // ---------------------------------------------------------------- the bracket

  /** r * q^m <= b and b * d <= q^(m+1) * p give r * d <= q * p. */
  lemma UpperBracket(r: nat, b: nat, d: nat, p: nat, q: nat, a: nat)
    requires a > 0 && r * a <= b && b * d <= q * a * p
    ensures r * d <= q * p
  {
    MulMono(r * a, b, d, d);
    assert r * a * d == a * (r * d);
    assert q * a * p == a * (q * p);
    MulCancel(a, r * d, q * p);
  }

  /** r * q^n >= b * (q - n + 1), b * d >= w * p and w * q >= q^n * (q - n) give
      r * d >= p * (q - 2n + 1). */
  lemma LowerBracket(r: nat, b: nat, d: nat, p: nat, q: nat, a: nat, w: nat, n: nat)
    requires a > 0 && 1 <= n && 2 * n - 1 < q
    requires r * a >= b * (q - (n - 1))
    requires b * d >= w * p
    requires w * q >= a * (q - n)
    ensures r * d >= p * (q - (2 * n - 1))
  {
    var u, v := q - (n - 1), q - n;
    // r * a * d * q >= b * u * d * q >= w * p * u * q >= a * v * p * u
    MulMono(b * u, r * a, d * q, d * q);
    MulMono(w * p, b * d, u * q, u * q);
    MulMono(a * v, w * q, p * u, p * u);
    assert r * a * (d * q) == (r * d) * q * a by { Regroup4(r, a, d, q); }
    assert b * u * (d * q) == b * d * (u * q) by { Interchange(b, u, d, q); }
    assert w * p * (u * q) == w * q * (p * u) by { Swap(w, p, u, q); }
    assert a * v * (p * u) == p * (u * v) * a by { Swap2(a, v, p, u); }
    Cancel(r * d, q, p, u * v, a);
    Square(q, n);
    MulLeft(p, q * (q - (2 * n - 1)), u * v);
    assert p * (q * (q - (2 * n - 1))) == q * (p * (q - (2 * n - 1)));
    MulCancel(q, p * (q - (2 * n - 1)), r * d);
  }

  lemma Regroup4(r: nat, a: nat, d: nat, q: nat)
    ensures r * a * (d * q) == (r * d) * q * a
  {
    Interchange(r, a, d, q);
    assert r * d * (a * q) == (r * d) * q * a;
  }

  lemma Swap(w: nat, p: nat, u: nat, q: nat)
    ensures w * p * (u * q) == w * q * (p * u)
  {
    assert u * q == q * u;
    Interchange(w, p, q, u);
  }

  lemma Swap2(a: nat, v: nat, p: nat, u: nat)
    ensures a * v * (p * u) == p * (u * v) * a
  {
    assert p * u == u * p;
    MulAssoc(a, v, p * u);
    assert v * (p * u) == p * (u * v);
  }

  lemma Cancel(x: nat, q: nat, p: nat, uv: nat, a: nat)
    requires a > 0 && x * q * a >= p * uv * a
    ensures x * q >= p * uv
  {
    assert x * q * a == a * (x * q) && p * uv * a == a * (p * uv);
    MulCancel(a, p * uv, x * q);
  }

  lemma Square(q: nat, n: nat)
    requires 1 <= n && 2 * n - 1 < q
    ensures (q - (n - 1)) * (q - n) >= q * (q - (2 * n - 1))
  {
    assert (q - (n - 1)) * (q - n) == q * q - q * n - (n - 1) * q + (n - 1) * n;
    assert q * (q - (2 * n - 1)) == q * q - q * (2 * n - 1);
    assert q * n + (n - 1) * q == q * (2 * n - 1);
  }

  /** The magnitude of the price, bracketed by the exact power. */
  lemma PowerBracket(binStep: nat, n: nat)
    requires n >= 1
    ensures var r, p, d := DlmmPrice.Power(binStep, n), Pow(10_000 + binStep, n), Pow(10_000, n);
            r * d <= ONE * p && r * d >= p * (ONE - (2 * n - 1))
  {
    hide DlmmPrice.Base; hide DlmmPrice.Power;
    var r, b, p, d := DlmmPrice.Power(binStep, n), Pow(DlmmPrice.Base(binStep), n), Pow(10_000 + binStep, n), Pow(10_000, n);
    BaseBounds(binStep);
    BasePowers(binStep, n);
    DlmmPrice.PowerRelativeError(binStep, n);
    PowPositive(ONE, n);
    PowPositive(ONE, n - 1);
    assert Pow(ONE, n) == ONE * Pow(ONE, n - 1);
    UpperBracket(r, b, d, p, ONE, Pow(ONE, n - 1));
    if 2 * n - 1 < ONE {
      DlmmPrice.Bernoulli(ONE, n);
      LowerBracket(r, b, d, p, ONE, Pow(ONE, n), Pow(ONE - 1, n), n);
    } else {
      NonPositive(p, ONE - (2 * n - 1));
    }
  }

  lemma NonPositive(p: nat, x: int)
    requires x <= 0
    ensures p * x <= 0
  {
  }

  /** For a nonnegative id the price is the exact power of 1 + binStep/10000, never above it and
      below it by a relative error of less than 2n/2^64. */
  lemma PriceExact(binStep: nat, n: nat)
    ensures n == 0 ==> DlmmPrice.Price(binStep, n) == ONE
    ensures n >= 1 ==>
      var p, exact, unit := DlmmPrice.Price(binStep, n), Pow(10_000 + binStep, n), Pow(10_000, n);
      exact * (ONE - (2 * n - 1)) <= p * unit <= ONE * exact
  {
    if n >= 1 { PowerBracket(binStep, n); }
  }

  /** For a negative id it is the reciprocal power: less than one unit below it, and above it by
      a relative error of less than 2n/2^64 of the power. */
  lemma NegativePriceExact(binStep: nat, activeId: int)
    requires activeId < 0
    ensures var p, exact, unit := DlmmPrice.Price(binStep, activeId), Pow(10_000 + binStep, -activeId), Pow(10_000, -activeId);
            && (p + 1) * exact > ONE * unit
            && p * exact * (ONE - (-2 * activeId - 1)) <= ONE * ONE * unit
  {
    var n: nat := -activeId;
    var p, r := DlmmPrice.Price(binStep, activeId), DlmmPrice.Power(binStep, n);
    var exact, unit := Pow(10_000 + binStep, n), Pow(10_000, n);
    BaseBounds(binStep);
    PowerBracket(binStep, n);
    DlmmPrice.NegativePriceError(binStep, activeId);
    PowPositive(10_000, n);
    ReciprocalAbove(p, r, exact, unit, ONE);
    ReciprocalBelow(p, r, exact, unit, ONE, ONE - (2 * n - 1));
  }

  lemma ReciprocalAbove(p: nat, r: nat, e: nat, d: nat, q: nat)
    requires d > 0 && q > 0 && q * q < (p + 1) * r && r * d <= q * e
    ensures (p + 1) * e > q * d
  {
    MulMono(q * q + 1, (p + 1) * r, d, d);
    assert (q * q + 1) * d == q * (q * d) + d by { MulAssoc(q, q, d); }
    assert (p + 1) * r * d == (p + 1) * (r * d) by { MulAssoc(p + 1, r, d); }
    MulLeft(p + 1, r * d, q * e);
    assert (p + 1) * (q * e) == q * ((p + 1) * e);
    MulCancelStrict(q, q * d, (p + 1) * e);
  }

  lemma ReciprocalBelow(p: nat, r: nat, e: nat, d: nat, q: nat, x: int)
    requires p * r <= q * q && r * d >= e * x
    ensures p * e * x <= q * q * d
  {
    MulLeft(p, e * x, r * d);
    MulAssoc(p, e, x);
    MulAssoc(p, r, d);
    MulMono(p * r, q * q, d, d);
  }
}
