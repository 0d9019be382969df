/** The DLMM bin price of quote-service/reference.ts: (1 + binStep/10000)^activeId as a
    64.64 fixed-point number, computed by truncating square-and-multiply. The exact
    power over the integers is the reference the truncated one is measured against. */
module DlmmPrice {
  import opened Arith

  /** 1.0 in Q64.64. */
  const Q: nat := 0x1_0000_0000_0000_0000

  /** `(a * b) >> 64n` on non-negative BigInts. */
  function MulShift(a: nat, b: nat): nat {
    a * b / Q
  }

  /** The fixed-point form of 1 + binStep/10000. */
  function Base(binStep: nat): nat {
    Q * (10_000 + binStep) / 10_000
  }

  /** The truncating ladder, from an arbitrary intermediate state of its loop. */
  function Ladder(result: nat, base: nat, exponent: nat): nat
    decreases exponent
  {
    if exponent == 0 then result
    else Ladder(if exponent % 2 == 1 then MulShift(result, base) else result,
                if exponent / 2 > 0 then MulShift(base, base) else base,
                exponent / 2)
  }

  /** The magnitude of the price before a negative id inverts it. */
  function Power(binStep: nat, n: nat): nat {
    Ladder(Q, Base(binStep), n)
  }

  function Abs(x: int): nat { if x < 0 then -x else x }

  function Price(binStep: nat, activeId: int): nat {
    var power := Power(binStep, Abs(activeId));
    PowerApproximates(binStep, Abs(activeId));
    if activeId < 0 then Q * Q / power else power
  }

  method DlmmPriceQ64(binStep: nat, activeId: int) returns (price: nat)
    ensures price == Price(binStep, activeId)
  {
    var base := Base(binStep);
    var exponent := Abs(activeId);
    var result := Q;
    while exponent > 0
      invariant Ladder(result, base, exponent) == Power(binStep, Abs(activeId))
    {
      if exponent % 2 == 1 {
        result := MulShift(result, base);
      }
      exponent := exponent / 2;
      if exponent > 0 {
        base := MulShift(base, base);
      }
    }
    PowerApproximates(binStep, Abs(activeId));
    price := if activeId < 0 then Q * Q / result else result;
  }

  // ---------------------------------------------------------------- error bounds

  /** x stands for b^k / Q^(k-1): never above it, and below it by at most k-1 truncations,
      each of which loses less than one part in Q. */
  ghost predicate Approximates(x: nat, k: nat, b: nat) {
    && k >= 1
    && x >= Q
    && x * Pow(Q, k - 1) <= Pow(b, k)
    && x * Pow(Q, 2 * (k - 1)) >= Pow(b, k) * Pow(Q - 1, k - 1)
  }

  lemma BaseApproximates(binStep: nat)
    ensures Base(binStep) >= Q
    ensures Approximates(Base(binStep), 1, Base(binStep))
  {
    assert Pow(Base(binStep), 1) == Base(binStep) * Pow(Base(binStep), 0);
  }

  /** One truncation of a product of two numbers that are at least 1.0. */
  lemma TruncationLoss(x: nat, y: nat, q: nat)
    requires x >= q && y >= q && q >= 1
    ensures x * y / q >= q
    ensures x * y / q * q <= x * y
    ensures x * y / q * (q * q) >= x * y * (q - 1)
  {
    MulMono(q, x, q, y);
    DivExact(q, q);
    DivMonotone(q * q, x * y, q);
    DivBounds(x * y, q);
    LossOfOne(x * y, x * y / q, q);
  }

  lemma LossOfOne(p: nat, z: nat, q: nat)
    requires z >= q >= 1 && p < (z + 1) * q
    ensures z * (q * q) >= p * (q - 1)
  {
    MulMono(p + 1, (z + 1) * q, q - 1, q - 1);
    assert (z + 1) * q * (q - 1) == z * (q * q) - z * q + q * (q - 1);
    MulMono(q, z, q - 1, q);
    assert p * (q - 1) <= (p + 1) * (q - 1);
  }

  lemma UpperChain(x: nat, y: nat, z: nat, q: nat, a: nat, b: nat, p: nat, r: nat)
    requires z * q <= x * y
    requires x * a <= p && y * b <= r
    ensures z * (q * (a * b)) <= p * r
  {
    MulMono(z * q, x * y, a * b, a * b);
    assert z * q * (a * b) == z * (q * (a * b));
    assert x * y * (a * b) == (x * a) * (y * b);
    MulMono(x * a, p, y * b, r);
  }

  lemma LowerChain(x: nat, y: nat, z: nat, qq: nat, w: nat, a: nat, b: nat, p: nat, r: nat)
    requires z * qq >= x * y * w
    requires x * a >= p && y * b >= r
    ensures z * (qq * (a * b)) >= p * r * w
  {
    MulMono(x * y * w, z * qq, a * b, a * b);
    assert z * qq * (a * b) == z * (qq * (a * b));
    MulMono(p, x * a, r, y * b);
    MulMono(p * r, (x * a) * (y * b), w, w);
    assert (x * a) * (y * b) * w == x * y * w * (a * b);
  }

  /** Truncated multiplication adds degrees. */
  lemma ProductApproximates(x: nat, i: nat, y: nat, j: nat, b: nat)
    requires Approximates(x, i, b) && Approximates(y, j, b)
    ensures Approximates(MulShift(x, y), i + j, b)
  {
    var z := MulShift(x, y);
    TruncationLoss(x, y, Q);
    UpperProduct(x, i, y, j, b);
    LowerProduct(x, i, y, j, b);
  }

  lemma UpperProduct(x: nat, i: nat, y: nat, j: nat, b: nat)
    requires Approximates(x, i, b) && Approximates(y, j, b)
    ensures MulShift(x, y) * Pow(Q, i + j - 1) <= Pow(b, i + j)
  {
    TruncationLoss(x, y, Q);
    UpperChain(x, y, MulShift(x, y), Q, Pow(Q, i - 1), Pow(Q, j - 1), Pow(b, i), Pow(b, j));
    PowAdd(Q, i - 1, j - 1);
    assert Pow(Q, i + j - 1) == Q * Pow(Q, i - 1 + (j - 1));
    PowAdd(b, i, j);
  }

  lemma LowerProduct(x: nat, i: nat, y: nat, j: nat, b: nat)
    requires Approximates(x, i, b) && Approximates(y, j, b)
    ensures MulShift(x, y) * Pow(Q, 2 * (i + j - 1)) >= Pow(b, i + j) * Pow(Q - 1, i + j - 1)
  {
    TruncationLoss(x, y, Q);
    var m, n := i - 1, j - 1;
    var w := Q - 1;
    LowerChain(x, y, MulShift(x, y), Q * Q, w, Pow(Q, 2 * m), Pow(Q, 2 * n),
               Pow(b, i) * Pow(w, m), Pow(b, j) * Pow(w, n));
    assert Pow(Q, 2 * (i + j - 1)) == Q * Q * (Pow(Q, 2 * m) * Pow(Q, 2 * n)) by {
      PowAdd(Q, 2 * m, 2 * n);
      PowAdd(Q, 2, 2 * m + 2 * n);
      assert Pow(Q, 2) == Q * Pow(Q, 1) && Pow(Q, 1) == Q * Pow(Q, 0);
      assert 2 * (i + j - 1) == 2 + (2 * m + 2 * n);
    }
    PowAdd(b, i, j);
    PowAdd(w, m, n);
    assert Pow(w, i + j - 1) == w * Pow(w, m + n);
    Regroup(Pow(b, i), Pow(w, m), Pow(b, j), Pow(w, n), w);
  }

  lemma Regroup(a: nat, b: nat, c: nat, d: nat, w: nat)
    ensures (a * b) * (c * d) * w == (a * c) * (w * (b * d))
  {
  }

  /** One turn of the loop keeps `done + exponent * degree` equal to the exponent asked for. */
  lemma Halve(exponent: nat, degree: nat)
    ensures exponent * degree == (exponent % 2) * degree + (exponent / 2) * (degree + degree)
  {
    assert exponent == exponent / 2 * 2 + exponent % 2;
    assert (exponent / 2 * 2 + exponent % 2) * degree == exponent / 2 * (degree + degree) + exponent % 2 * degree;
  }

  lemma ParIsNeutral(base: nat)
    ensures MulShift(Q, base) == base
  {
    DivExact(base, Q);
  }

  lemma {:induction false} LadderApproximates(result: nat, done: nat, base: nat, degree: nat, exponent: nat, b: nat)
    requires if done == 0 then result == Q else Approximates(result, done, b)
    requires Approximates(base, degree, b) && degree >= 1
    requires done + exponent * degree >= 1
    ensures Approximates(Ladder(result, base, exponent), done + exponent * degree, b)
    decreases exponent
  {
    hide Approximates; hide MulShift;
    if exponent == 0 {
    } else {
      Halve(exponent, degree);
      var odd := exponent % 2 == 1;
      var result' := if odd then MulShift(result, base) else result;
      var done' := if odd then done + degree else done;
      if odd {
        if done == 0 { ParIsNeutral(base); } else { ProductApproximates(result, done, base, degree, b); }
      }
      if exponent / 2 > 0 {
        ProductApproximates(base, degree, base, degree, b);
        assert (exponent / 2) * (degree + degree) >= 1 by { MulMono(1, exponent / 2, 1, degree + degree); }
        LadderApproximates(result', done', MulShift(base, base), degree + degree, exponent / 2, b);
      }
    }
  }

  /** Two-sided bound on the loop's result, for every bin step and every exponent. */
  lemma PowerApproximates(binStep: nat, n: nat)
    ensures Power(binStep, n) >= Q
    ensures n >= 1 ==> Approximates(Power(binStep, n), n, Base(binStep))
  {
    if n >= 1 {
      BaseApproximates(binStep);
      LadderApproximates(Q, 0, Base(binStep), 1, n, Base(binStep));
    }
  }

  /** Bernoulli: (1 - 1/Q)^m >= 1 - m/Q, over the integers. */
  lemma {:induction false} Bernoulli(q: nat, m: nat)
    requires q >= 1
    ensures Pow(q - 1, m) * q >= Pow(q, m) * (q - m)
  {
    if m == 0 {
    } else {
      Bernoulli(q, m - 1);
      var p := Pow(q, m - 1);
      PowPositive(q, m - 1);
      BernoulliStep(q, m, p, Pow(q - 1, m - 1));
      assert Pow(q - 1, m) == (q - 1) * Pow(q - 1, m - 1);
      assert Pow(q, m) == q * p;
    }
  }

  lemma BernoulliStep(q: nat, m: nat, p: nat, w: nat)
    requires q >= 1 && m >= 1
    requires w * q >= p * (q - (m - 1))
    ensures (q - 1) * w * q >= q * p * (q - m)
  {
    calc {
      (q - 1) * w * q;
      (q - 1) * (w * q);
    >= { MulLeft(q - 1, p * (q - (m - 1)), w * q); }
      (q - 1) * (p * (q - (m - 1)));
    == 
      p * ((q - 1) * (q - (m - 1)));
    >= { assert (q - 1) * (q - (m - 1)) == q * (q - m) + (m - 1);
         MulLeft(p, q * (q - m), (q - 1) * (q - (m - 1))); }
      p * (q * (q - m));
    ==
      q * p * (q - m);
    }
  }

  /** The relative error of the truncated power is below n/2^64: with b the base,
      b^n (1 - (n-1)/Q) <= r Q^(n-1) <= b^n. */
  lemma PowerRelativeError(binStep: nat, n: nat)
    requires n >= 1
    ensures Power(binStep, n) * Pow(Q, n - 1) <= Pow(Base(binStep), n)
    ensures Power(binStep, n) * Pow(Q, n) >= Pow(Base(binStep), n) * (Q - (n - 1))
  {
    var r, b, m := Power(binStep, n), Pow(Base(binStep), n), n - 1;
    PowerApproximates(binStep, n);
    Bernoulli(Q, m);
    PowPositive(Q, m);
    PowAdd(Q, m, m);
    RelativeErrorChain(r, b, Q, Pow(Q, m), Pow(Q - 1, m), Q - m);
    assert Pow(Q, n) == Q * Pow(Q, m);
  }

  lemma RelativeErrorChain(r: nat, b: nat, q: nat, a: nat, w: nat, d: int)
    requires a > 0
    requires r * (a * a) >= b * w
    requires w * q >= a * d
    ensures r * (q * a) >= b * d
  {
    MulLeft(q, b * w, r * (a * a));
    MulLeft(b, a * d, w * q);
    assert q * (b * w) == b * (w * q);
    assert q * (r * (a * a)) == a * (r * (q * a));
    assert b * (a * d) == a * (b * d);
    MulCancel(a, b * d, r * (q * a));
  }

  // ---------------------------------------------------------------- monotonicity

  lemma {:induction false} LadderMonotone(r: nat, b: nat, r': nat, b': nat, exponent: nat)
    requires r <= r' && b <= b'
    ensures Ladder(r, b, exponent) <= Ladder(r', b', exponent)
    decreases exponent
  {
    if exponent == 0 {
    } else {
      MulShiftMonotone(r, b, r', b');
      MulShiftMonotone(b, b, b', b');
      LadderMonotone(if exponent % 2 == 1 then MulShift(r, b) else r,
                     if exponent / 2 > 0 then MulShift(b, b) else b,
                     if exponent % 2 == 1 then MulShift(r', b') else r',
                     if exponent / 2 > 0 then MulShift(b', b') else b', exponent / 2);
    }
  }

  lemma MulShiftMonotone(x: nat, y: nat, x': nat, y': nat)
    requires x <= x' && y <= y'
    ensures MulShift(x, y) <= MulShift(x', y')
  {
    MulMono(x, x', y, y');
    DivMonotone(x * y, x' * y', Q);
  }

  /** A wider bin step never lowers a price above par and never raises one below it. */
  lemma PriceMonotoneInBinStep(s: nat, s': nat, activeId: int)
    requires s <= s'
    ensures activeId >= 0 ==> Price(s, activeId) <= Price(s', activeId)
    ensures activeId < 0 ==> Price(s, activeId) >= Price(s', activeId)
  {
    MulMono(Q, Q, 10_000 + s, 10_000 + s');
    DivMonotone(Q * (10_000 + s), Q * (10_000 + s'), 10_000);
    LadderMonotone(Q, Base(s), Q, Base(s'), Abs(activeId));
    PowerApproximates(s, Abs(activeId));
    PowerApproximates(s', Abs(activeId));
    if activeId < 0 {
      DivAntitone(Q * Q, Power(s, Abs(activeId)), Power(s', Abs(activeId)));
    }
  }

  /** The truncations never outweigh a step of the price grid: over the whole range of an
      i32 id, one more factor of the base strictly raises the truncated power. */
  lemma PowerStrictlyIncreasing(binStep: nat, n: nat)
    requires binStep >= 1 && n < 0x8000_0000
    ensures Power(binStep, n) < Power(binStep, n + 1)
  {
    hide Base; hide MulShift;
    var b := Base(binStep);
    if n == 0 {
      BaseGap(binStep, 0);
      ParIsNeutral(b);
    } else {
      PowerRelativeError(binStep, n);
      PowerRelativeError(binStep, n + 1);
      NextPowers(b, n);
      BaseGap(binStep, n);
      PowPositive(b, n);
      PowPositive(Q, n - 1);
      StrictStep(Power(binStep, n), Power(binStep, n + 1), Q, Pow(Q, n - 1), b, Pow(b, n), Q - n);
    }
  }

  lemma NextPowers(b: nat, n: nat)
    requires n >= 1
    ensures Pow(b, n + 1) == b * Pow(b, n)
    ensures Pow(Q, n + 1) == Q * (Q * Pow(Q, n - 1))
  {
    assert Pow(Q, n) == Q * Pow(Q, n - 1);
  }

  /** The base of a non-zero bin step exceeds 1.0 by far more than 2^31 truncations lose. */
  lemma BaseGap(binStep: nat, n: nat)
    requires binStep >= 1 && n < 0x8000_0000
    ensures Base(binStep) > Q
    ensures Base(binStep) * (Q - n) > Q * Q
  {
    var least := Q * 10_001 / 10_000;
    DivMonotone(Q * 10_001, Q * (10_000 + binStep), 10_000);
    MulMono(least, Base(binStep), Q - 0x8000_0000, Q - n);
  }

  lemma StrictStep(r: nat, r': nat, q: nat, a: nat, b: nat, p: nat, d: nat)
    requires q > 0 && p > 0 && a > 0
    requires r * a <= p
    requires r' * (q * (q * a)) >= b * p * d
    requires b * d > q * q
    ensures r < r'
  {
    assert r * (q * (q * a)) == q * q * (r * a);
    MulLeft(q * q, r * a, p);
    assert b * p * d == p * (b * d);
    MulLeft(p, q * q + 1, b * d);
    assert p * (q * q + 1) == q * q * p + p;
    assert q * (q * a) > 0;
    MulCancelStrict(q * (q * a), r, r');
  }

  /** Prices rise with the bin id across the whole i32 range, through zero: never falling
      where the id is negative (the reciprocal truncates), strictly above. */
  lemma PriceIncreasesWithId(binStep: nat, activeId: int)
    requires binStep >= 1 && -0x8000_0000 <= activeId < 0x7fff_ffff
    ensures Price(binStep, activeId) <= Price(binStep, activeId + 1)
    ensures activeId >= 0 ==> Price(binStep, activeId) < Price(binStep, activeId + 1)
  {
    if activeId >= 0 {
      PowerStrictlyIncreasing(binStep, activeId);
    } else {
      var n := Abs(activeId);
      PowerStrictlyIncreasing(binStep, n - 1);
      PowerApproximates(binStep, n - 1);
      DivAntitone(Q * Q, Power(binStep, n - 1), Power(binStep, n));
      if n == 1 { assert Q * Q / Q == Q; }
    }
  }

  lemma {:induction false} PriceMonotoneInId(binStep: nat, i: int, j: int)
    requires binStep >= 1 && -0x8000_0000 <= i <= j <= 0x7fff_ffff
    ensures Price(binStep, i) <= Price(binStep, j)
    decreases j - i
  {
    if i == j {
    } else {
      PriceIncreasesWithId(binStep, i);
      PriceMonotoneInId(binStep, i + 1, j);
    }
  }

  /** The price vanishes exactly when a negative id's power exceeds 2^128. */
  lemma PriceZeroIff(binStep: nat, activeId: int)
    ensures Price(binStep, activeId) == 0 <==> activeId < 0 && Power(binStep, Abs(activeId)) > Q * Q
  {
    var r := Power(binStep, Abs(activeId));
    PowerApproximates(binStep, Abs(activeId));
    if activeId < 0 && r <= Q * Q {
      DivAntitone(Q * Q, r, Q * Q);
    }
  }

  /** The reciprocal of a negative id: price * r lies within r of 2^128. */
  lemma NegativePriceError(binStep: nat, activeId: int)
    requires activeId < 0
    ensures var r := Power(binStep, Abs(activeId));
            Price(binStep, activeId) * r <= Q * Q < (Price(binStep, activeId) + 1) * r
  {
    PowerApproximates(binStep, Abs(activeId));
  }
}
