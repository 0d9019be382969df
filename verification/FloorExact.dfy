/** Every answer of the reference floor, in exact inequalities over the pool's own numbers: which
    way each venue and side converts, what the fee takes, and when each refusal is given. */
module FloorExact {
  import opened Arith
  import opened PriceFloor
  import DlmmPrice

  /** net is what the fee leaves of the input; the Pump form gives up one more atom. */
  predicate IsNet(fee: Fee, amount: nat, net: int) {
    if fee.pump then (net + 1) * (fee.den + fee.num) <= amount * fee.den < (net + 2) * (fee.den + fee.num)
    else net * fee.den <= amount * (fee.den - fee.num) < (net + 1) * fee.den
  }

  /** k is x / d, rounded down. */
  predicate Whole(x: nat, d: nat, k: nat) {
    k * d <= x < (k + 1) * d
  }

  /** e is what net buys, rounded down: against the reserves for a constant product, at the bin
      price or its reciprocal for DLMM, by side, and at the root price or its reciprocal, applied
      and rounded twice, for CLMM. */
  ghost predicate IsOutput(ref: Reference, net: nat, e: nat) {
    var q := 0x1_0000_0000_0000_0000;
    match ref.venue
    case ConstantProduct => Whole(ref.reserveToken * net, ref.reserveSol + net, e)
    case Clmm(sq, true) => exists mid: nat :: Whole(net * sq, q, mid) && Whole(mid * sq, q, e)
    case Clmm(sq, false) => exists mid: nat :: Whole(net * q, sq, mid) && Whole(mid * q, sq, e)
    case Dlmm(binStep, activeId, true) => Whole(net * DlmmPrice.Price(binStep, activeId), q, e)
    case Dlmm(binStep, activeId, false) => Whole(net * q, DlmmPrice.Price(binStep, activeId), e)
  }

  /** floor is 99% of e, truncated. */
  predicate IsFloor(e: nat, floor: nat) {
    floor * 100 <= e * 99 < (floor + 1) * 100
  }

  predicate OverCap(ref: Reference, amount: nat) { amount * ref.fee.den > ref.reserveSol * ref.fee.num }

  predicate Shallow(ref: Reference) { ref.depthGated && ref.reserveSol < 50_000_000_000 }

  /** A DLMM pool whose price truncated to zero and which has to divide by it. */
  predicate NoPrice(ref: Reference) {
    ref.venue.Dlmm? && !ref.venue.solIsX && DlmmPrice.Price(ref.venue.binStep, ref.venue.activeId) == 0
  }

  lemma NetExact(fee: Fee, amount: nat)
    requires ValidFee(fee)
    ensures IsNet(fee, amount, InputAfterFee(amount, fee))
  {
    if fee.pump {
      DivBounds(amount * fee.den, fee.den + fee.num);
    } else {
      DivBounds(amount * (fee.den - fee.num), fee.den);
    }
  }

  lemma IsWhole(x: nat, d: nat)
    requires d > 0
    ensures x / d >= 0 && Whole(x, d, x / d)
  {
    hide Whole;
    DivBounds(x, d);
    Bounds(x, d, x / d);
  }

  lemma Bounds(x: nat, d: nat, k: int)
    requires d > 0 && k * d <= x < (k + 1) * d
    ensures k >= 0 && Whole(x, d, k)
  {
    MulCancelStrict(d, 0, k + 1);
  }

  lemma OutputExact(ref: Reference, net: nat)
    requires ValidReference(ref) && !NoPrice(ref)
    ensures IsOutput(ref, net, Expected(ref, net))
  {
    match ref.venue
    case ConstantProduct => IsWhole(ref.reserveToken * net, ref.reserveSol + net);
    case Clmm(sq, solIs0) =>
      IsWhole(net * sq, Q);
      IsWhole(Times(net, sq) * sq, Q);
      IsWhole(net * Q, sq);
      IsWhole(Over(net, sq) * Q, sq);
    case Dlmm(binStep, activeId, solIsX) =>
      IsWhole(net * DlmmPrice.Price(binStep, activeId), Q);
      if !solIsX { IsWhole(net * Q, DlmmPrice.Price(binStep, activeId)); }
  }

  /** The answer to every input of every usable reference. An input is refused as over the cap, or
      as on too shallow a pool, exactly on those grounds in that order; otherwise the net input and
      the output it buys decide: a floor is 99% of an output of at least two atoms, at the price of
      that venue and side. */
  lemma EveryAnswer(ref: Reference, amount: nat) returns (net: int, e: nat)
    requires ValidReference(ref)
    ensures IsNet(ref.fee, amount, net)
    ensures net > 0 && !NoPrice(ref) ==> IsOutput(ref, net, e)
    ensures match FloorFor(ref, amount)
      case CapExceeded => OverCap(ref, amount)
      case TooShallow => !OverCap(ref, amount) && Shallow(ref)
      case DivisionByZero => !OverCap(ref, amount) && !Shallow(ref) && net > 0 && NoPrice(ref)
      case FloorZero => !OverCap(ref, amount) && !Shallow(ref) && (net <= 0 || (!NoPrice(ref) && e <= 1))
      case Floor(floor) =>
        && !OverCap(ref, amount) && !Shallow(ref) && net > 0 && !NoPrice(ref) && e >= 2
        && IsOutput(ref, net, e) && IsFloor(e, floor) && floor > 0
  {
    hide Expected; hide InputAfterFee; hide WithTolerance; hide IsOutput; hide IsNet;
    CapExact(ref, amount);
    NetExact(ref.fee, amount);
    net, e := InputAfterFee(amount, ref.fee), 0;
    if net > 0 && !NoPrice(ref) {
      e := Expected(ref, net);
      OutputExact(ref, net);
      ToleranceBounds(e);
    }
  }

  lemma OneWhole(x: nat, d: nat, k: nat, k': nat)
    requires Whole(x, d, k) && Whole(x, d, k')
    ensures k == k'
  {
    MulCancelStrict(d, k, k' + 1);
    MulCancelStrict(d, k', k + 1);
  }

  /** These relations leave no freedom: one net, one output, one floor. */
  lemma ExactIsUnique(ref: Reference, amount: nat, net: int, e: nat, net': int, e': nat)
    requires ValidReference(ref) && IsNet(ref.fee, amount, net) && IsNet(ref.fee, amount, net')
    ensures net == net'
    ensures net > 0 && IsOutput(ref, net, e) && IsOutput(ref, net, e') ==> e == e'
  {
    NetUnique(ref.fee, amount, net, net');
    if net > 0 && IsOutput(ref, net, e) && IsOutput(ref, net, e') { OutputUnique(ref, net, e, e'); }
  }

  lemma NetUnique(fee: Fee, amount: nat, net: int, net': int)
    requires ValidFee(fee) && IsNet(fee, amount, net) && IsNet(fee, amount, net')
    ensures net == net'
  {
    var d := if fee.pump then fee.den + fee.num else fee.den;
    var k := if fee.pump then 1 else 0;
    MulCancelStrict(d, net + k, net' + k + 1);
    MulCancelStrict(d, net' + k, net + k + 1);
  }

  lemma OutputUnique(ref: Reference, net: nat, e: nat, e': nat)
    requires ValidReference(ref) && IsOutput(ref, net, e) && IsOutput(ref, net, e')
    ensures e == e'
  {
    var q := 0x1_0000_0000_0000_0000;
    match ref.venue
    case ConstantProduct => OneWhole(ref.reserveToken * net, ref.reserveSol + net, e, e');
    case Clmm(sq, true) =>
      var mid: nat :| Whole(net * sq, q, mid) && Whole(mid * sq, q, e);
      var mid': nat :| Whole(net * sq, q, mid') && Whole(mid' * sq, q, e');
      OneWhole(net * sq, q, mid, mid');
      OneWhole(mid * sq, q, e, e');
    case Clmm(sq, false) =>
      var mid: nat :| Whole(net * q, sq, mid) && Whole(mid * q, sq, e);
      var mid': nat :| Whole(net * q, sq, mid') && Whole(mid' * q, sq, e');
      OneWhole(net * q, sq, mid, mid');
      OneWhole(mid * q, sq, e, e');
    case Dlmm(binStep, activeId, true) => OneWhole(net * DlmmPrice.Price(binStep, activeId), q, e, e');
    case Dlmm(binStep, activeId, false) => OneWhole(net * q, DlmmPrice.Price(binStep, activeId), e, e');
  }
}
