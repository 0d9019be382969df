/** The reference price floor of quote-service/reference.ts: fee netting, the depth cap, the
    50 SOL gate, the per-venue quote and the tolerance. */
module PriceFloor {
  import opened Arith
  import DlmmPrice

  const Q: nat := DlmmPrice.Q
  const TOLERANCE_BPS: nat := 100
  const MIN_DEPTH_LAMPORTS: nat := 50_000_000_000

  datatype Fee = Fee(num: nat, den: nat, pump: bool)

  /** What reference resolution lets through: a fee strictly between 0 and 1. */
  predicate ValidFee(fee: Fee) { 0 < fee.num < fee.den }

  datatype Venue =
    | ConstantProduct                          // Raydium v4 / CP, PumpSwap and the Pump curve
    | Clmm(sq: nat, solIs0: bool)              // Q64.64 square-root price
    | Dlmm(binStep: nat, activeId: int, solIsX: bool)

  datatype Reference = Reference(reserveToken: nat, reserveSol: nat, venue: Venue, fee: Fee, depthGated: bool)

  /** Reference resolution refuses empty reserves, a zero square-root price and a zero bin step. */
  predicate ValidReference(ref: Reference) {
    && ValidFee(ref.fee)
    && ref.reserveToken > 0 && ref.reserveSol > 0
    && (ref.venue.Clmm? ==> ref.venue.sq > 0)
    && (ref.venue.Dlmm? ==> ref.venue.binStep > 0)
  }

  datatype Quote = Floor(amount: nat) | CapExceeded | TooShallow | FloorZero | DivisionByZero

  function FeeCap(depth: nat, fee: Fee): nat
    requires ValidFee(fee)
  {
    depth * fee.num / fee.den
  }

  function Cap(ref: Reference): nat
    requires ValidReference(ref)
  {
    FeeCap(ref.reserveSol, ref.fee)
  }

  function InputAfterFee(amount: nat, fee: Fee): int
    requires ValidFee(fee)
  {
    if fee.pump then amount * fee.den / (fee.den + fee.num) - 1
    else amount * (fee.den - fee.num) / fee.den
  }

  /** x at price p, and x at the reciprocal of p, each truncated. */
  function Times(x: nat, p: nat): nat { x * p / Q }

  function Over(x: nat, p: nat): nat
    requires p > 0
  {
    x * Q / p
  }

  function ClmmQuote(net: nat, sq: nat, solIs0: bool): nat
    requires sq > 0
  {
    if solIs0 then Times(Times(net, sq), sq) else Over(Over(net, sq), sq)
  }

  function CurveQuote(net: nat, reserveToken: nat, reserveSol: nat): nat
    requires reserveSol > 0
  {
    reserveToken * net / (reserveSol + net)
  }

  /** True when the quote divides by a price that truncated to zero. */
  predicate Undefined(venue: Venue) {
    venue.Dlmm? && !venue.solIsX && DlmmPrice.Price(venue.binStep, venue.activeId) == 0
  }

  function Expected(ref: Reference, net: nat): nat
    requires ValidReference(ref) && !Undefined(ref.venue)
  {
    match ref.venue
    case Clmm(sq, solIs0) => ClmmQuote(net, sq, solIs0)
    case Dlmm(binStep, activeId, solIsX) =>
      var price := DlmmPrice.Price(binStep, activeId);
      if solIsX then Times(net, price) else Over(net, price)
    case ConstantProduct => CurveQuote(net, ref.reserveToken, ref.reserveSol)
  }

  function WithTolerance(expected: nat): nat {
    expected * (10_000 - TOLERANCE_BPS) / 10_000
  }

  function FloorFor(ref: Reference, amountIn: nat): Quote
    requires ValidReference(ref)
  {
    if amountIn > Cap(ref) then CapExceeded
    else if ref.depthGated && ref.reserveSol < MIN_DEPTH_LAMPORTS then TooShallow
    else
      var net := InputAfterFee(amountIn, ref.fee);
      if net <= 0 then FloorZero
      else if Undefined(ref.venue) then DivisionByZero
      else
        var expected := Expected(ref, net);
        var floor := WithTolerance(expected);
        if expected == 0 || floor == 0 then FloorZero else Floor(floor)
  }

  predicate Accepted(ref: Reference, amountIn: nat)
    requires ValidReference(ref)
  {
    FloorFor(ref, amountIn).Floor?
  }

  // ---------------------------------------------------------------- netting and tolerance

  lemma NetMonotone(a: nat, a': nat, fee: Fee)
    requires ValidFee(fee) && a <= a'
    ensures InputAfterFee(a, fee) <= InputAfterFee(a', fee)
  {
    if fee.pump {
      MulMono(a, a', fee.den, fee.den);
      DivMonotone(a * fee.den, a' * fee.den, fee.den + fee.num);
    } else {
      MulMono(a, a', fee.den - fee.num, fee.den - fee.num);
      DivMonotone(a * (fee.den - fee.num), a' * (fee.den - fee.num), fee.den);
    }
  }

  /** Netting a positive amount always takes something. */
  lemma NetBelowAmount(a: nat, fee: Fee)
    requires ValidFee(fee)
    ensures InputAfterFee(a, fee) <= a
    ensures a > 0 ==> InputAfterFee(a, fee) < a
  {
    if fee.pump {
      MulMono(a, a, fee.den, fee.den + fee.num);
      DivMonotone(a * fee.den, a * (fee.den + fee.num), fee.den + fee.num);
      DivExact(a, fee.den + fee.num);
    } else {
      var d := fee.den - fee.num;
      DivBounds(a * d, fee.den);
      assert a * fee.den == a * d + a * fee.num;
      if a > 0 {
        MulMono(1, a, 1, fee.num);
        MulCancelStrict(fee.den, a * d / fee.den, a);
      }
    }
  }

  /** The tolerance keeps 99%, truncated, and is zero exactly on quotes of 0 or 1 atom. */
  lemma ToleranceBounds(expected: nat)
    ensures WithTolerance(expected) <= expected
    ensures WithTolerance(expected) == 0 <==> expected <= 1
    ensures WithTolerance(expected) * 100 <= expected * 99 < (WithTolerance(expected) + 1) * 100
  {
  }

  // ---------------------------------------------------------------- monotonicity

  lemma TimesMonotone(x: nat, y: nat, p: nat)
    requires x <= y
    ensures Times(x, p) <= Times(y, p)
  {
    MulMono(x, y, p, p);
    DivMonotone(x * p, y * p, Q);
  }

  lemma OverMonotone(x: nat, y: nat, p: nat)
    requires x <= y && p > 0
    ensures Over(x, p) <= Over(y, p)
  {
    DivMonotone(x * Q, y * Q, p);
  }

  /** The constant-product quote is the largest one that keeps the product of the reserves. */
  lemma CurveKeepsProduct(net: nat, token: nat, sol: nat)
    requires sol > 0
    ensures var e := CurveQuote(net, token, sol);
            && e <= token
            && (sol + net) * (token - e) >= sol * token
            && (token > e ==> (sol + net) * (token - e - 1) < sol * token)
  {
    var e := CurveQuote(net, token, sol);
    DivBounds(token * net, sol + net);
    assert (sol + net) * (token - e) == sol * token + token * net - e * (sol + net);
    assert (sol + net) * (token - e - 1) == sol * token + token * net - (e + 1) * (sol + net);
    MulMono(token, token, net, sol + net);
    MulCancel(sol + net, e, token);
  }

  lemma CurveMonotone(net: nat, net': nat, token: nat, sol: nat)
    requires sol > 0 && net <= net'
    ensures CurveQuote(net, token, sol) <= CurveQuote(net', token, sol)
  {
    var e, e' := CurveQuote(net, token, sol), CurveQuote(net', token, sol);
    CurveKeepsProduct(net, token, sol);
    DivBounds(token * net, sol + net);
    DivBounds(token * net', sol + net');
    MulMono(e, token, net' - net, net' - net);
    assert e * (sol + net') == e * (sol + net) + e * (net' - net);
    assert token * net' == token * net + token * (net' - net);
    MulCancelStrict(sol + net', e, e' + 1);
  }

  lemma ExpectedMonotone(ref: Reference, net: nat, net': nat)
    requires ValidReference(ref) && !Undefined(ref.venue) && net <= net'
    ensures Expected(ref, net) <= Expected(ref, net')
  {
    match ref.venue
    case Clmm(sq, solIs0) =>
      if solIs0 {
        TimesMonotone(net, net', sq);
        TimesMonotone(Times(net, sq), Times(net', sq), sq);
      } else {
        OverMonotone(net, net', sq);
        OverMonotone(Over(net, sq), Over(net', sq), sq);
      }
    case Dlmm(binStep, activeId, solIsX) =>
      var price := DlmmPrice.Price(binStep, activeId);
      if solIsX { TimesMonotone(net, net', price); } else { OverMonotone(net, net', price); }
    case ConstantProduct => CurveMonotone(net, net', ref.reserveToken, ref.reserveSol);
  }

  /** Accepting an input means accepting every larger one up to the cap, at no lower a floor. */
  lemma FloorMonotone(ref: Reference, a: nat, a': nat)
    requires ValidReference(ref) && Accepted(ref, a) && a <= a' <= Cap(ref)
    ensures Accepted(ref, a')
    ensures 0 < FloorFor(ref, a).amount <= FloorFor(ref, a').amount
  {
    NetMonotone(a, a', ref.fee);
    var e, e' := Expected(ref, InputAfterFee(a, ref.fee)), Expected(ref, InputAfterFee(a', ref.fee));
    ExpectedMonotone(ref, InputAfterFee(a, ref.fee), InputAfterFee(a', ref.fee));
    DivMonotone(e * 9_900, e' * 9_900, 10_000);
  }

  /** For every reference the accepted inputs are one interval ending at the cap, or none. */
  lemma AcceptedInterval(ref: Reference) returns (least: nat)
    requires ValidReference(ref)
    ensures 0 < least <= Cap(ref) + 1
    ensures forall a: nat :: Accepted(ref, a) <==> least <= a <= Cap(ref)
  {
    least := Cap(ref) + 1;
    while least > 1 && Accepted(ref, least - 1)
      invariant 0 < least <= Cap(ref) + 1
      invariant forall a: nat :: least <= a <= Cap(ref) ==> Accepted(ref, a)
    {
      least := least - 1;
    }
    NetBelowAmount(0, ref.fee);
    forall a: nat | a < least
      ensures !Accepted(ref, a)
    {
      if Accepted(ref, a) && a > 0 { FloorMonotone(ref, a, least - 1); }
    }
  }

  /** The truncated cap refuses exactly the inputs above the exact ratio num/den of the depth. */
  lemma CapExact(ref: Reference, a: nat)
    requires ValidReference(ref)
    ensures FloorFor(ref, a).CapExceeded? <==> a * ref.fee.den > ref.reserveSol * ref.fee.num
  {
    DivBounds(ref.reserveSol * ref.fee.num, ref.fee.den);
    if a > Cap(ref) { MulMono(Cap(ref) + 1, a, ref.fee.den, ref.fee.den); }
    else { MulMono(a, Cap(ref), ref.fee.den, ref.fee.den); }
  }

  // ---------------------------------------------------------------- what the cap buys

  /** Within the cap the constant-product quote is at least the spot price divided by
      (1 + fee): the depth cap bounds the price impact of one burn by the fee itself. */
  lemma CapBoundsImpact(token: nat, sol: nat, fee: Fee, amountIn: nat, net: nat)
    requires sol > 0 && ValidFee(fee)
    requires amountIn <= FeeCap(sol, fee) && net <= amountIn
    ensures (CurveQuote(net, token, sol) + 1) * sol * (fee.den + fee.num) > token * net * fee.den
  {
    DivBounds(sol * fee.num, fee.den);
    DivBounds(token * net, sol + net);
    MulMono(net, FeeCap(sol, fee), fee.den, fee.den);
    assert (sol + net) * fee.den <= sol * (fee.den + fee.num);
    ScaleUp(token * net, CurveQuote(net, token, sol) + 1, sol + net, fee.den, sol * (fee.den + fee.num));
    assert (CurveQuote(net, token, sol) + 1) * sol * (fee.den + fee.num)
        == (CurveQuote(net, token, sol) + 1) * (sol * (fee.den + fee.num));
  }

  lemma ScaleUp(p: nat, e: nat, s: nat, den: nat, w: nat)
    requires den > 0 && p < e * s && s * den <= w
    ensures p * den < e * w
  {
    MulMono(p + 1, e * s, den, den);
    assert (p + 1) * den == p * den + den;
    assert e * s * den == e * (s * den);
    MulLeft(e, s * den, w);
  }

  lemma QuoteBelowReserve(net: nat, token: nat, sol: nat)
    requires token > 0 && sol > 0
    ensures CurveQuote(net, token, sol) < token
  {
    DivBounds(token * net, sol + net);
    assert token * net < token * (sol + net);
    MulCancelStrict(sol + net, CurveQuote(net, token, sol), token);
  }

  /** The two promises of the constant-product branch, for every accepted input. */
  lemma ConstantProductFloor(ref: Reference, amountIn: nat)
    requires ValidReference(ref) && ref.venue.ConstantProduct? && Accepted(ref, amountIn)
    ensures var net := InputAfterFee(amountIn, ref.fee);
            && 0 < net < amountIn
            && var e := Expected(ref, net);
            && FloorFor(ref, amountIn).amount <= e < ref.reserveToken
            && (ref.reserveSol + net) * (ref.reserveToken - e) >= ref.reserveSol * ref.reserveToken
            && (e + 1) * ref.reserveSol * (ref.fee.den + ref.fee.num) > ref.reserveToken * net * ref.fee.den
  {
    hide InputAfterFee; hide CurveQuote;
    var net := InputAfterFee(amountIn, ref.fee);
    NetBelowAmount(amountIn, ref.fee);
    NetBelowAmount(0, ref.fee);
    ToleranceBounds(Expected(ref, net));
    QuoteBelowReserve(net, ref.reserveToken, ref.reserveSol);
    CurveKeepsProduct(net, ref.reserveToken, ref.reserveSol);
    CapBoundsImpact(ref.reserveToken, ref.reserveSol, ref.fee, amountIn, net);
  }

  // ---------------------------------------------------------------- price conversions

  lemma OverTimes(x: nat, p: nat)
    requires p > 0
    ensures Over(Times(x, p), p) <= x
    ensures Times(Over(x, p), p) <= x
  {
    DivBounds(x * p, Q);
    DivMonotone(Times(x, p) * Q, x * p, p);
    DivExact(x, p);
    DivBounds(x * Q, p);
    DivMonotone(Over(x, p) * p, x * Q, Q);
    DivExact(x, Q);
  }

  /** Converting through a CLMM price and back, in either order, never gains an atom. */
  lemma ClmmNeverCreatesValue(x: nat, sq: nat)
    requires sq > 0
    ensures ClmmQuote(ClmmQuote(x, sq, true), sq, false) <= x
    ensures ClmmQuote(ClmmQuote(x, sq, false), sq, true) <= x
  {
    var t, o := Times(x, sq), Over(x, sq);
    OverTimes(t, sq);
    OverMonotone(Over(Times(t, sq), sq), t, sq);
    OverTimes(x, sq);
    OverTimes(o, sq);
    TimesMonotone(Times(Over(o, sq), sq), o, sq);
  }

  /** The same for a DLMM price that did not truncate to zero. */
  lemma DlmmNeverCreatesValue(x: nat, binStep: nat, activeId: int)
    requires DlmmPrice.Price(binStep, activeId) > 0
    ensures var p := DlmmPrice.Price(binStep, activeId);
            Over(Times(x, p), p) <= x && Times(Over(x, p), p) <= x
  {
    OverTimes(x, DlmmPrice.Price(binStep, activeId));
  }

  /** Each CLMM quote is at most its exact value net*(sq/Q)^(+-2) and short of it by less
      than 1 + sq/Q, respectively 1 + Q/sq. */
  lemma ClmmQuoteError(net: nat, sq: nat)
    requires sq > 0
    ensures var e := ClmmQuote(net, sq, true);
            e * (Q * Q) <= net * (sq * sq) < (e + 1) * (Q * Q) + sq * Q
    ensures var e := ClmmQuote(net, sq, false);
            e * (sq * sq) <= net * (Q * Q) < (e + 1) * (sq * sq) + Q * sq
  {
    TwoTruncations(net, sq, Q, Times(net, sq), ClmmQuote(net, sq, true));
    TwoTruncations(net, Q, sq, Over(net, sq), ClmmQuote(net, sq, false));
  }

  lemma TwoTruncations(x: nat, n: nat, d: nat, t: nat, e: nat)
    requires d > 0 && n > 0
    requires t == x * n / d && e == t * n / d
    ensures e * (d * d) <= x * (n * n) < (e + 1) * (d * d) + n * d
  {
    DivBounds(x * n, d);
    DivBounds(t * n, d);
    Compounded(x, t, e, n, d);
  }

  lemma Compounded(x: nat, t: nat, e: nat, n: nat, d: nat)
    requires n > 0 && t * d <= x * n < (t + 1) * d && e * d <= t * n < (e + 1) * d
    ensures e * (d * d) <= x * (n * n) < (e + 1) * (d * d) + n * d
  {
    ChainBelow(x * n, t, e, n, d);
    ChainAbove(x * n, t, e, n, d);
    MulAssoc(x, n, n);
  }

  lemma ChainBelow(y: nat, t: nat, e: nat, n: nat, d: nat)
    requires t * d <= y && e * d <= t * n
    ensures e * (d * d) <= y * n
  {
    MulLeft(d, e * d, t * n);
    MulLeft(n, t * d, y);
    assert d * (e * d) == e * (d * d);
    assert n * (t * d) == d * (t * n);
  }

  lemma ChainAbove(y: nat, t: nat, e: nat, n: nat, d: nat)
    requires n > 0 && y < (t + 1) * d && t * n < (e + 1) * d
    ensures y * n < (e + 1) * (d * d) + n * d
  {
    MulLeft(n, y + 1, (t + 1) * d);
    assert n * (y + 1) == y * n + n;
    assert n * ((t + 1) * d) == d * (t * n) + n * d;
    MulLeft(d, t * n, (e + 1) * d);
    assert d * ((e + 1) * d) == (e + 1) * (d * d);
  }
}
