/** The legs of a burn before and after quoting (quote-service/core.ts): the local refusals a
    request meets before any quote, and the checks every quote must pass. */
module BurnLegs {
  import opened Basics
  import PriceFloor
  import SplitAmounts
  import SplitCodec

  const BPS_TOTAL: nat := SplitAmounts.BPS_TOTAL

  datatype Refusal =
    | NotionalLimit | ZeroLegAmount | ReferenceRefused(why: PriceFloor.Quote)
    | InsufficientVaultBalance | DustRemainder
    | QuoteRefused(reason: string)        // a build, route or setup check of one leg
    | InvalidOutputFloor | ReferenceDoesNotPriceMarket | SlippagePolicy | PriceImpactPolicy | IndependentFloor
    | Unencodable | TransactionTooLarge
    | SimulationFailed(code: nat) | ComputeLimit | ExternalSimulationFailure | BlockhashTooOld

  datatype Checked<+T> = Ok(value: T) | No(refusal: Refusal)

  // ---------------------------------------------------------------- admission

  /** A requested leg with its resolved reference; a direct leg buys straight off a live curve. */
  datatype RequestedLeg = RequestedLeg(bps: nat, reference: PriceFloor.Reference, direct: bool)

  datatype AdmittedLeg = AdmittedLeg(bps: nat, amountIn: nat, floor: nat, direct: bool)

  function Weights(legs: seq<RequestedLeg>): (w: seq<nat>)
    ensures |w| == |legs|
  {
    seq(|legs|, i requires 0 <= i < |legs| => legs[i].bps)
  }

  /** A parsed request: one to four positive weights that make 100%, over usable references. */
  predicate ValidRequest(amount: nat, legs: seq<RequestedLeg>) {
    && 0 < amount < SplitCodec.U64 && 1 <= |legs| <= 4
    && SplitCodec.ValidWeights(Weights(legs))
    && forall i :: 0 <= i < |legs| ==> PriceFloor.ValidReference(legs[i].reference)
  }

  function AdmitLeg(leg: RequestedLeg, amountIn: int): Checked<AdmittedLeg>
    requires PriceFloor.ValidReference(leg.reference)
  {
    if amountIn <= 0 then No(ZeroLegAmount)
    else match PriceFloor.FloorFor(leg.reference, amountIn)
      case Floor(floor) => Ok(AdmittedLeg(leg.bps, amountIn, floor, leg.direct))
      case refused => No(ReferenceRefused(refused))
  }

  /** The local refusals: the split, and every leg's share against its own reference. */
  method AdmitLegs(amount: nat, legs: seq<RequestedLeg>) returns (r: Checked<seq<AdmittedLeg>>)
    requires ValidRequest(amount, legs)
    ensures r.Ok? ==> Admitted(amount, legs, r.value)
    ensures r.No? ==> exists i :: FirstRefused(amount, legs, i, r.refusal)
  {
    var amounts := SplitAmounts.SplitAmounts(amount, Weights(legs));
    var admitted: seq<AdmittedLeg> := [];
    for i := 0 to |legs|
      invariant |admitted| == i
      invariant forall k :: 0 <= k < i ==> AdmitLeg(legs[k], amounts[k]) == Ok(admitted[k])
    {
      var leg := AdmitLeg(legs[i], amounts[i]);
      if leg.No? {
        assert FirstRefused(amount, legs, i, leg.refusal);
        return No(leg.refusal);
      }
      admitted := admitted + [leg.value];
    }
    return Ok(admitted);
  }

  /** Leg i is the first whose share is empty or refused by its reference. */
  predicate FirstRefused(amount: nat, legs: seq<RequestedLeg>, i: int, refusal: Refusal)
    requires ValidRequest(amount, legs)
  {
    var shares := SplitAmounts.Shares(amount, Weights(legs));
    0 <= i < |legs| && AdmitLeg(legs[i], shares[i]) == No(refusal) &&
    forall k :: 0 <= k < i ==> AdmitLeg(legs[k], shares[k]).Ok?
  }

  /** Every leg carries its exact share of the amount, which its reference accepts, and the
      reference's floor for that share. */
  predicate Admitted(amount: nat, legs: seq<RequestedLeg>, admitted: seq<AdmittedLeg>)
    requires ValidRequest(amount, legs)
  {
    |admitted| == |legs| &&
    forall i :: 0 <= i < |legs| ==>
      && admitted[i].bps == legs[i].bps && admitted[i].direct == legs[i].direct
      && 0 < admitted[i].amountIn == SplitAmounts.Shares(amount, Weights(legs))[i]
      && PriceFloor.FloorFor(legs[i].reference, admitted[i].amountIn) == PriceFloor.Floor(admitted[i].floor)
  }

  function Inputs(legs: seq<AdmittedLeg>): (r: seq<int>)
    ensures |r| == |legs|
  {
    seq(|legs|, i requires 0 <= i < |legs| => legs[i].amountIn)
  }

  /** Admitted legs spend the whole amount: it is refused only leg by leg, never trimmed. */
  lemma AdmittedSpendsAll(amount: nat, legs: seq<RequestedLeg>, admitted: seq<AdmittedLeg>)
    requires ValidRequest(amount, legs) && Admitted(amount, legs, admitted)
    ensures SplitAmounts.Sum(Inputs(admitted)) == amount
    ensures forall i :: 0 <= i < |legs| ==> 0 < admitted[i].floor
    ensures forall i :: 0 <= i < |legs| ==> admitted[i].amountIn <= PriceFloor.Cap(legs[i].reference)
  {
    assert Inputs(admitted) == SplitAmounts.Shares(amount, Weights(legs));
    SplitAmounts.SharesSumToTotal(amount, Weights(legs));
  }

  /** The vault can fund the burn and keeps either nothing or at least the rent floor. */
  function VaultRefusal(balance: nat, amount: nat, rentFloor: nat): (r: Option<Refusal>)
    ensures r == None <==> balance == amount || balance >= amount + rentFloor
  {
    if balance < amount then Some(InsufficientVaultBalance)
    else if balance != amount && balance - amount < rentFloor then Some(DustRemainder)
    else None
  }

  // ---------------------------------------------------------------- quotes

  datatype Policy = Policy(
    maxAmountPerBurn: nat, maxSlippageBps: nat, maxPriceImpactBps: real, computeUnitLimit: nat,
    minRemainingBlockHeights: int, fittingMaxAccounts: seq<nat>, retryLimit: nat)

  /** What the service's constructor lets through, as far as the builder depends on it. */
  predicate ValidPolicy(p: Policy) {
    0 < p.maxSlippageBps < BPS_TOTAL && p.retryLimit <= 5
  }

  /** An aggregator answer after its shape was checked; numbers it may state badly are options. */
  datatype Quote =
    | NoQuote(reason: string)
    | Quote(quotedOut: int, threshold: int, slippageBps: Option<int>, priceImpact: Option<real>,
            independentFloor: Option<nat>, pump: bool, routeAccounts: nat, routeData: seq<byte>)

  datatype CurveBuild = NoCurve(reason: string) | Curve(pump: bool, routeAccounts: nat)

  /** A leg ready to encode; `pump` says that its route touches a Pump venue. */
  datatype PreparedLeg = PreparedLeg(
    bps: nat, amountIn: nat, minimumOutput: nat, pump: bool, routeAccounts: nat, routeData: seq<byte>)

  /** A leg that buys off the curve encodes exactly its floor, and no route data. */
  function PrepareDirect(leg: AdmittedLeg, build: CurveBuild): (r: Checked<PreparedLeg>)
    ensures r.Ok? <==> build.Curve?
    ensures r.Ok? ==> r.value.minimumOutput == leg.floor && r.value.routeData == []
    ensures r.Ok? ==> r.value.bps == leg.bps && r.value.amountIn == leg.amountIn && r.value.routeAccounts == build.routeAccounts
  {
    match build
    case NoCurve(reason) => No(QuoteRefused(reason))
    case Curve(pump, accounts) => Ok(PreparedLeg(leg.bps, leg.amountIn, leg.floor, pump, accounts, []))
  }

  /** A quote the service accepts: a threshold within the quote, a reference that prices it, and
      slippage, price impact and any independent floor within policy. */
  predicate Acceptable(leg: AdmittedLeg, q: Quote, policy: Policy)
    requires ValidPolicy(policy)
  {
    && q.Quote? && 0 < q.threshold <= q.quotedOut <= 2 * leg.floor + 1
    && q.slippageBps.Some? && 0 <= q.slippageBps.value <= policy.maxSlippageBps
    && q.threshold * 10_000 >= q.quotedOut * (10_000 - policy.maxSlippageBps)
    && q.priceImpact.Some? && 0.0 <= q.priceImpact.value && q.priceImpact.value * 10_000.0 <= policy.maxPriceImpactBps
    && (q.independentFloor.Some? ==> q.threshold >= q.independentFloor.value)
  }

  /** The quote checks. Whatever the aggregator answered, a leg that passes encodes a minimum no
      lower than the reference floor, the aggregator's own threshold, any independent floor, the
      policy's slippage below the quote, and half the quote up to rounding; a reference is refused
      as not pricing the market exactly when its floor is below that half. */
  function PrepareRouted(leg: AdmittedLeg, q: Quote, policy: Policy): (r: Checked<PreparedLeg>)
    requires ValidPolicy(policy)
    ensures r.Ok? ==>
      && q.Quote? && 0 < q.threshold <= q.quotedOut
      && r.value.bps == leg.bps && r.value.amountIn == leg.amountIn
      && r.value.minimumOutput >= leg.floor && r.value.minimumOutput >= q.threshold
      && r.value.minimumOutput in {leg.floor, q.threshold}
      && (q.independentFloor.Some? ==> r.value.minimumOutput >= q.independentFloor.value)
      && r.value.minimumOutput * BPS_TOTAL >= q.quotedOut * (BPS_TOTAL - policy.maxSlippageBps)
      && 2 * leg.floor + 1 >= q.quotedOut
      && r.value.routeAccounts == q.routeAccounts && r.value.routeData == q.routeData && r.value.pump == q.pump
    ensures r.Ok? <==> Acceptable(leg, q, policy)
    ensures r == No(ReferenceDoesNotPriceMarket) <==>
            q.Quote? && 0 < q.threshold <= q.quotedOut && q.quotedOut >= 2 * leg.floor + 2
  {
    if q.NoQuote? then No(QuoteRefused(q.reason))
    else if q.quotedOut <= 0 || q.threshold <= 0 || q.threshold > q.quotedOut then No(InvalidOutputFloor)
    else if q.quotedOut / 2 > leg.floor then No(ReferenceDoesNotPriceMarket)
    else if q.slippageBps == None || q.slippageBps.value < 0 || q.slippageBps.value > policy.maxSlippageBps then
      No(SlippagePolicy)
    else if q.threshold * BPS_TOTAL < q.quotedOut * (BPS_TOTAL - policy.maxSlippageBps) then No(SlippagePolicy)
    else if q.priceImpact == None || q.priceImpact.value < 0.0 ||
            q.priceImpact.value * 10_000.0 > policy.maxPriceImpactBps then No(PriceImpactPolicy)
    else if q.independentFloor.Some? && q.threshold < q.independentFloor.value then No(IndependentFloor)
    else
      var minimum := if leg.floor > q.threshold then leg.floor else q.threshold;
      Ok(PreparedLeg(leg.bps, leg.amountIn, minimum, q.pump, q.routeAccounts, q.routeData))
  }
}
