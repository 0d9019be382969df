/** Splitting a burn over its legs (quote-service/core.ts and app/community-indexer.ts share
    this arithmetic): every leg but the last gets its floored share, the last the rest. */
module SplitAmounts {
  import opened Arith

  const BPS_TOTAL: nat := 10_000

  function Sum(s: seq<int>): int {
    if s == [] then 0 else Sum(s[..|s| - 1]) + s[|s| - 1]
  }

  function FloorShare(total: nat, bps: nat): nat {
    total * bps / BPS_TOTAL
  }

  function FloorShares(total: nat, weights: seq<nat>): (r: seq<int>)
    ensures |r| == |weights|
    ensures forall i :: 0 <= i < |r| ==> r[i] == FloorShare(total, weights[i])
  {
    seq(|weights|, i requires 0 <= i < |weights| => FloorShare(total, weights[i]))
  }

  lemma FloorSharesSnoc(total: nat, weights: seq<nat>, w: nat)
    ensures FloorShares(total, weights + [w]) == FloorShares(total, weights) + [FloorShare(total, w)]
  {
  }

  /** The exact split: floored shares, and a last leg that makes the sum exact. */
  function Shares(total: nat, weights: seq<nat>): (r: seq<int>)
    ensures |r| == |weights|
  {
    if weights == [] then []
    else
      var init := FloorShares(total, weights[..|weights| - 1]);
      init + [total - Sum(init)]
  }

  method SplitAmounts(total: nat, weights: seq<nat>) returns (amounts: seq<int>)
    ensures amounts == Shares(total, weights)
  {
    hide FloorShare;
    amounts := [];
    var allotted := 0;
    var quotient, remainder := total / BPS_TOTAL, total % BPS_TOTAL;
    for index := 0 to |weights|
      invariant |amounts| == index
      invariant allotted == Sum(amounts)
      invariant index < |weights| ==> amounts == FloorShares(total, weights[..index])
      invariant index == |weights| ==> amounts == Shares(total, weights)
    {
      ShareFromParts(total, weights[index]);
      var amount := if index + 1 == |weights| then total - allotted
                    else quotient * weights[index] + remainder * weights[index] / BPS_TOTAL;
      SumSnoc(amounts, amount);
      FloorSharesSnoc(total, weights[..index], weights[index]);
      assert weights[..index + 1] == weights[..index] + [weights[index]];
      amounts := amounts + [amount];
      allotted := allotted + amount;
    }
  }

  /** Splitting the total into quotient and remainder first loses nothing. */
  lemma ShareFromParts(total: nat, w: nat)
    ensures total / BPS_TOTAL * w + total % BPS_TOTAL * w / BPS_TOTAL == FloorShare(total, w)
  {
    var q, r := total / BPS_TOTAL, total % BPS_TOTAL;
    DivBounds(r * w, BPS_TOTAL);
    assert total * w == q * w * BPS_TOTAL + r * w by {
      assert total == q * BPS_TOTAL + r;
      assert (q * BPS_TOTAL + r) * w == q * w * BPS_TOTAL + r * w;
    }
    DivUnique(total * w, BPS_TOTAL, q * w + r * w / BPS_TOTAL);
  }

  lemma SumSnoc(s: seq<int>, x: int)
    ensures Sum(s + [x]) == Sum(s) + x
  {
    assert (s + [x])[..|s|] == s;
  }

  /** Nothing is created or lost. */
  lemma SharesSumToTotal(total: nat, weights: seq<nat>)
    requires weights != []
    ensures Sum(Shares(total, weights)) == total
  {
    var init := FloorShares(total, weights[..|weights| - 1]);
    SumSnoc(init, total - Sum(init));
  }

  /** Floored shares of any weights undershoot the exact share of their sum by less than one
      atom each. */
  lemma {:induction false} FloorSharesBound(total: nat, weights: seq<nat>)
    ensures Sum(FloorShares(total, weights)) * BPS_TOTAL <= total * Sum(weights)
    ensures total * Sum(weights) - Sum(FloorShares(total, weights)) * BPS_TOTAL <= |weights| * (BPS_TOTAL - 1)
  {
    if weights == [] {
    } else {
      var init, w := weights[..|weights| - 1], weights[|weights| - 1];
      FloorSharesBound(total, init);
      var shares := FloorShares(total, weights);
      assert shares[..|weights| - 1] == FloorShares(total, init);
      DivBounds(total * w, BPS_TOTAL);
      assert total * Sum(weights) == total * Sum(init) + total * w;
    }
  }

  /** With weights that sum to 100%, the last leg exceeds its own floored share by fewer
      atoms than there are legs, and never falls below it. */
  lemma LastShareBound(total: nat, weights: seq<nat>)
    requires weights != [] && Sum(weights) == BPS_TOTAL
    ensures var last := Shares(total, weights)[|weights| - 1];
            var own := FloorShare(total, weights[|weights| - 1]);
            own <= last < own + |weights|
  {
    var init, w := weights[..|weights| - 1], weights[|weights| - 1];
    FloorSharesBound(total, init);
    DivBounds(total * w, BPS_TOTAL);
    assert total * BPS_TOTAL == total * Sum(init) + total * w by {
      assert Sum(weights) == Sum(init) + w;
      assert total * (Sum(init) + w) == total * Sum(init) + total * w;
    }
  }

  /** In basis points: every leg but the last gets the whole part of total * bps / 10000, and the
      last gets what the others leave. */
  lemma SharesExact(total: nat, weights: seq<nat>, i: nat)
    requires i < |weights|
    ensures var shares := Shares(total, weights);
            if i < |weights| - 1 then shares[i] * 10_000 <= total * weights[i] < (shares[i] + 1) * 10_000
            else shares[i] == total - Sum(shares[..i])
  {
    if i < |weights| - 1 { DivBounds(total * weights[i], 10_000); }
    var init := FloorShares(total, weights[..|weights| - 1]);
    assert Shares(total, weights)[..|weights| - 1] == init;
  }
}
