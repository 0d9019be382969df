/** The tiered Pump fee table of quote-service/reference.ts:165-213. */
module PumpFees {
  import opened Basics
  import Positional
  import Arith
  import PriceFloor
  import SplitCodec

  const PLAUSIBLE_MAX: nat := 1_000
  const FALLBACK: PriceFloor.Fee := PriceFloor.Fee(1, 10_000, true)
  const HEADER: nat := 69
  const TIER: nat := 40

  datatype Rates = Rates(lp: nat, protocol: nat, creator: nat)

  datatype Tier = Tier(threshold: nat, rates: Rates)

  function Unsigned(data: seq<byte>, offset: nat, width: nat): nat
    requires offset + width <= |data|
  {
    Positional.ValueLE(256, data[offset..offset + width])
  }

  function RatesAt(data: seq<byte>, offset: nat): Rates
    requires offset + 24 <= |data|
  {
    Rates(Unsigned(data, offset, 8), Unsigned(data, offset + 8, 8), Unsigned(data, offset + 16, 8))
  }

  function TierAt(data: seq<byte>, index: nat): Tier
    requires HEADER + TIER * (index + 1) <= |data|
  {
    Tier(Unsigned(data, HEADER + TIER * index, 16), RatesAt(data, HEADER + TIER * index + 16))
  }

  /** The table is long enough for the tiers it announces. */
  predicate WellFormed(data: seq<byte>) {
    |data| >= HEADER && |data| >= HEADER + TIER * Unsigned(data, 65, 4)
  }

  function Tiers(data: seq<byte>): (r: seq<Tier>)
    requires WellFormed(data)
    ensures |r| == Unsigned(data, 65, 4)
  {
    seq(Unsigned(data, 65, 4), i requires 0 <= i < Unsigned(data, 65, 4) => TierAt(data, i))
  }

  /** How many tiers the scan applies before it meets one above the market cap. */
  function Applied(tiers: seq<Tier>, marketCap: nat): (n: nat)
    ensures n <= |tiers|
    ensures forall i :: 0 <= i < n ==> tiers[i].threshold <= marketCap
    ensures n < |tiers| ==> tiers[n].threshold > marketCap
  {
    if tiers == [] || tiers[0].threshold > marketCap then 0 else 1 + Applied(tiers[1..], marketCap)
  }

  /** The documented rule: the position just after the last tier at or below the cap. */
  function AfterLastReached(tiers: seq<Tier>, marketCap: nat): (n: nat)
    ensures n <= |tiers|
    ensures n > 0 ==> tiers[n - 1].threshold <= marketCap
    ensures forall i :: n <= i < |tiers| ==> tiers[i].threshold > marketCap
  {
    if tiers == [] then 0
    else if tiers[|tiers| - 1].threshold <= marketCap then |tiers|
    else AfterLastReached(tiers[..|tiers| - 1], marketCap)
  }

  function RatesOf(flat: Rates, tiers: seq<Tier>, n: nat): Rates
    requires n <= |tiers|
  {
    if n == 0 then flat else tiers[n - 1].rates
  }

  function Total(rates: Rates, includeLp: bool, includeCreator: bool): nat {
    (if includeLp then rates.lp else 0) + rates.protocol + (if includeCreator then rates.creator else 0)
  }

  /** The fee in use: the scanned tier's total if plausible, and one basis point otherwise. The
      result is always a fee the price floor can work with, at most 10%. */
  method PumpFeeConfig(owned: bool, data: seq<byte>, marketCap: nat, includeLp: bool, includeCreator: bool)
    returns (fee: PriceFloor.Fee)
    ensures PriceFloor.ValidFee(fee) && fee.pump && fee.den == 10_000 && 1 <= fee.num <= PLAUSIBLE_MAX
    ensures owned && WellFormed(data) ==>
      var tiers := Tiers(data);
      var n := Applied(tiers, marketCap);
      var r := if n == 0 then RatesAt(data, 41) else tiers[n - 1].rates;
      var total := r.protocol + (if includeLp then r.lp else 0) + (if includeCreator then r.creator else 0);
      fee.num == if 1 <= total <= 1_000 then total else 1
    ensures !(owned && WellFormed(data)) ==> fee == FALLBACK
  {
    hide Unsigned;
    if !owned || |data| < HEADER { return FALLBACK; }
    var count := Unsigned(data, 65, 4);
    if |data| < HEADER + count * TIER { return FALLBACK; }
    ghost var tiers := Tiers(data);
    var flat := RatesAt(data, 41);
    var lp, protocol, creator := flat.lp, flat.protocol, flat.creator;
    var index := 0;
    while index < count
      invariant 0 <= index <= Applied(tiers, marketCap)
      invariant Rates(lp, protocol, creator) == RatesOf(flat, tiers, index)
    {
      var tier := TierAt(data, index);
      assert tier == tiers[index];
      if tier.threshold > marketCap { break; }
      lp, protocol, creator := tier.rates.lp, tier.rates.protocol, tier.rates.creator;
      index := index + 1;
    }
    var total := Total(Rates(lp, protocol, creator), includeLp, includeCreator);
    if 1 <= total <= PLAUSIBLE_MAX { return PriceFloor.Fee(total, 10_000, true); }
    return FALLBACK;
  }

  /** The scan stops at the first tier above the cap, the documentation speaks of the last tier
      at or below it. They pick the same tier exactly when no tier after the stop is reached. */
  lemma ScanMatchesRule(tiers: seq<Tier>, marketCap: nat)
    ensures Applied(tiers, marketCap) == AfterLastReached(tiers, marketCap) <==>
            forall i :: Applied(tiers, marketCap) <= i < |tiers| ==> tiers[i].threshold > marketCap
  {
    var n, m := Applied(tiers, marketCap), AfterLastReached(tiers, marketCap);
    assert n <= m by {
      if n > 0 { assert tiers[n - 1].threshold <= marketCap; }
    }
    if n < m { assert tiers[m - 1].threshold <= marketCap; }
  }

  /** In particular they always agree on a table in ascending order. */
  lemma SortedTablesAgree(tiers: seq<Tier>, marketCap: nat)
    requires forall i, j :: 0 <= i < j < |tiers| ==> tiers[i].threshold <= tiers[j].threshold
    ensures Applied(tiers, marketCap) == AfterLastReached(tiers, marketCap)
  {
    ScanMatchesRule(tiers, marketCap);
  }

  /** And they part on this one: the scan stays with the flat rates, the rule takes the second tier. */
  lemma UnsortedTableDiffers()
    ensures var tiers := [Tier(20, Rates(1, 1, 1)), Tier(10, Rates(2, 2, 2))];
            Applied(tiers, 15) == 0 && AfterLastReached(tiers, 15) == 2
  {
  }

  // ---------------------------------------------------------------- the table as it is laid out

  function Bytes(x: nat, width: nat): (r: seq<byte>)
    ensures |r| == width
  {
    Positional.Field(256, x, width)
  }

  function RateBytes(r: Rates): (b: seq<byte>)
    ensures |b| == 24
  {
    Bytes(r.lp, 8) + Bytes(r.protocol, 8) + Bytes(r.creator, 8)
  }

  /** A tier: the threshold in sixteen bytes, then its three rates. */
  function TierBytes(tier: Tier): (b: seq<byte>)
    ensures |b| == 40
  {
    Bytes(tier.threshold, 16) + RateBytes(tier.rates)
  }

  function AllTierBytes(tiers: seq<Tier>): (b: seq<byte>)
    ensures |b| == 40 * |tiers|
  {
    if tiers == [] then [] else AllTierBytes(tiers[..|tiers| - 1]) + TierBytes(tiers[|tiers| - 1])
  }

  /** The account: 41 bytes of other things, the flat rates, the number of tiers, the tiers. */
  function TableBytes(head: seq<byte>, flat: Rates, tiers: seq<Tier>): seq<byte> {
    head + RateBytes(flat) + Bytes(|tiers|, 4) + AllTierBytes(tiers)
  }

  predicate RatesFit(r: Rates) { r.lp < U64 && r.protocol < U64 && r.creator < U64 }

  predicate Fits(flat: Rates, tiers: seq<Tier>) {
    && RatesFit(flat) && |tiers| < U32
    && forall i :: 0 <= i < |tiers| ==> tiers[i].threshold < U128 && RatesFit(tiers[i].rates)
  }

  const U32: nat := 0x1_0000_0000
  const U64: nat := 0x1_0000_0000_0000_0000
  const U128: nat := 0x1_0000_0000_0000_0000_0000_0000_0000_0000

  lemma Widths()
    ensures Arith.Pow(256, 4) == U32 && Arith.Pow(256, 8) == U64 && Arith.Pow(256, 16) == U128
  {
    SplitCodec.Widths();
    Arith.PowAdd(256, 8, 8);
  }

  lemma BytesBack(data: seq<byte>, offset: nat, x: nat, width: nat)
    requires x < Arith.Pow(256, width) && offset + width <= |data| && data[offset..offset + width] == Bytes(x, width)
    ensures Unsigned(data, offset, width) == x
  {
    Positional.ValueOfField(256, x, width);
  }

  lemma Within(data: seq<byte>, offset: nat, width: nat, lo: nat, hi: nat)
    requires offset + width <= |data| && lo <= hi <= width
    ensures data[offset + lo..offset + hi] == data[offset..offset + width][lo..hi]
  {
    var a, b := data[offset + lo..offset + hi], data[offset..offset + width][lo..hi];
    forall k | 0 <= k < hi - lo ensures a[k] == b[k] {
      assert a[k] == data[offset + lo + k];
    }
  }

  lemma RatesBack(data: seq<byte>, offset: nat, r: Rates)
    requires RatesFit(r) && offset + 24 <= |data| && data[offset..offset + 24] == RateBytes(r)
    ensures RatesAt(data, offset) == r
  {
    hide Bytes; hide Unsigned;
    Widths();
    Within(data, offset, 24, 0, 8);
    Within(data, offset, 24, 8, 16);
    Within(data, offset, 24, 16, 24);
    BytesBack(data, offset, r.lp, 8);
    BytesBack(data, offset + 8, r.protocol, 8);
    BytesBack(data, offset + 16, r.creator, 8);
  }

  lemma {:induction false} TierPart(tiers: seq<Tier>, i: nat)
    requires i < |tiers|
    ensures AllTierBytes(tiers)[40 * i..40 * (i + 1)] == TierBytes(tiers[i])
  {
    hide TierBytes;
    var n := |tiers| - 1;
    var front := AllTierBytes(tiers[..n]);
    if i == n {
      assert (front + TierBytes(tiers[n]))[40 * n..40 * (n + 1)] == TierBytes(tiers[n]);
    } else {
      TierPart(tiers[..n], i);
      assert (front + TierBytes(tiers[n]))[40 * i..40 * (i + 1)] == front[40 * i..40 * (i + 1)];
    }
  }

  lemma TierBack(data: seq<byte>, i: nat, tier: Tier)
    requires 69 + 40 * (i + 1) <= |data| && data[69 + 40 * i..69 + 40 * (i + 1)] == TierBytes(tier)
    requires tier.threshold < U128 && RatesFit(tier.rates)
    ensures TierAt(data, i) == tier
  {
    hide Bytes; hide Unsigned; hide RateBytes; hide RatesAt;
    Widths();
    var at := 69 + 40 * i;
    Within(data, at, 40, 0, 16);
    Within(data, at, 40, 16, 40);
    BytesBack(data, at, tier.threshold, 16);
    RatesBack(data, at + 16, tier.rates);
  }

  /** Every table laid out like this is read back exactly: rates at 41, 49 and 57, the count at 65,
      and tiers of 40 bytes from 69. */
  lemma TableReadBack(head: seq<byte>, flat: Rates, tiers: seq<Tier>)
    requires |head| == 41 && Fits(flat, tiers)
    ensures var data := TableBytes(head, flat, tiers);
            WellFormed(data) && RatesAt(data, 41) == flat && Tiers(data) == tiers
  {
    hide Bytes; hide Unsigned; hide RateBytes; hide TierAt; hide TierBytes; hide RatesAt; hide AllTierBytes;
    var data := TableBytes(head, flat, tiers);
    Widths();
    assert data[41..65] == RateBytes(flat) && data[65..69] == Bytes(|tiers|, 4) && data[69..] == AllTierBytes(tiers);
    RatesBack(data, 41, flat);
    BytesBack(data, 65, |tiers|, 4);
    forall i: nat | i < |tiers| ensures TierAt(data, i) == tiers[i] {
      TierPart(tiers, i);
      assert data[69 + 40 * i..69 + 40 * (i + 1)] == data[69..][40 * i..40 * (i + 1)];
      TierBack(data, i, tiers[i]);
    }
  }
}
