/** What every run of the build-and-simulate machine guarantees, for any world. */
module BurnBuilderSafety {
  import opened Basics
  import opened BurnLegs
  import opened BurnBuilder
  import opened LadderExact
  import opened SimulationFailure
  import PriceFloor
  import SplitAmounts
  import SplitCodec
  import Base58
  import Positional

  // ---------------------------------------------------------------- the run is determined

  lemma {:induction false} SameAttempts(c: Call, t: seq<Simulated>, t': seq<Simulated>, k: nat)
    requires ValidCall(c) && Consistent(c, t) && Consistent(c, t') && k <= |t| && k <= |t'|
    ensures t[..k] == t'[..k]
  {
    hide Ladder; hide Observe;
    if k == 0 {
    } else {
      SameAttempts(c, t, t', k - 1);
      assert Follows(c, t[..k - 1], t[k - 1]) && Follows(c, t'[..k - 1], t'[k - 1]);
      assert t[..k] == t[..k - 1] + [t[k - 1]] && t'[..k] == t'[..k - 1] + [t'[k - 1]];
    }
  }

  lemma GoesOn(c: Call, t: seq<Simulated>, n: nat)
    requires ValidCall(c) && Consistent(c, t) && n < |t|
    ensures n > 0 ==> Retries(c, t[..n])
    ensures Ladder(c, n, NextExcluded(t[..n]), NextStart(t[..n])).Ok?
  {
    hide Ladder; hide Observe;
    assert Follows(c, t[..n], t[n]);
  }

  lemma NeitherLonger(c: Call, r: Result, t: seq<Simulated>, t': seq<Simulated>)
    requires ValidCall(c) && Lawful(c, r, t) && Consistent(c, t')
    ensures |t'| <= |t|
  {
    hide Ladder; hide Consistent;
    if |t| < |t'| {
      SameAttempts(c, t, t', |t|);
      assert t'[..|t|] == t;
      GoesOn(c, t', |t|);
    }
  }

  /** The law fixes the outcome and every attempt: one world, one run. */
  lemma RunDetermined(c: Call, r: Result, t: seq<Simulated>, r': Result, t': seq<Simulated>)
    requires ValidCall(c) && Lawful(c, r, t) && Lawful(c, r', t')
    ensures r == r' && t == t'
  {
    NeitherLonger(c, r, t, t');
    NeitherLonger(c, r', t', t);
    SameAttempts(c, t, t', |t|);
    assert t == t[..|t|] && t' == t'[..|t|];
  }

  // ---------------------------------------------------------------- retries

  /** At most retryLimit + 1 simulations, and every failure that was retried is retryable: the
      only burner codes are 6018, once, and 6021. */
  lemma RetryDiscipline(c: Call, trace: seq<Simulated>)
    requires ValidCall(c) && Consistent(c, trace)
    ensures |trace| <= c.policy.retryLimit + 1
    ensures forall k :: 0 <= k < |trace| - 1 ==>
      trace[k].failure.Some? && (trace[k].failure.value.Burner? ==> trace[k].failure.value.code in {6018, 6021})
    ensures forall j, k :: 0 <= j < k < |trace| - 1 ==>
      !(trace[j].failure == Some(Burner(6018)) && trace[k].failure == Some(Burner(6018)))
  {
    hide Ladder; hide Observe; hide Follows;
    if |trace| > 1 { assert Retries(c, trace[..|trace| - 1]); }
    forall k | 0 <= k < |trace| - 1
      ensures trace[k].failure.Some?
      ensures trace[k].failure.value.Burner? ==> trace[k].failure.value.code in {6018, 6021}
      ensures trace[k].failure == Some(Burner(6018)) ==> !CashbackUsed(trace[..k])
    {
      assert Retries(c, trace[..k + 1]);
      assert trace[..k + 1][..k] == trace[..k];
    }
    forall j, k | 0 <= j < k < |trace| - 1 && trace[k].failure == Some(Burner(6018))
      ensures trace[j].failure != Some(Burner(6018))
    {
      assert trace[..k][j] == trace[j];
    }
  }

  /** One attempt later: the start never drops and strictly passes a rung that ran out of compute;
      excluded legs stay excluded, and 6018 excludes the legs at fault. */
  lemma NextAttempt(c: Call, trace: seq<Simulated>, k: nat)
    requires ValidCall(c) && Consistent(c, trace) && k + 1 < |trace|
    ensures trace[k].start <= trace[k].chosen.rung < Rungs(c)
    ensures trace[k].start <= trace[k + 1].start <= trace[k].chosen.rung + 1
    ensures trace[k].failure == Some(Compute) ==> trace[k].chosen.rung < trace[k + 1].start
    ensures trace[k].excluded <= trace[k + 1].excluded
    ensures trace[k].failure == Some(Burner(6018)) ==> Offending(trace[k].chosen.legs) <= trace[k + 1].excluded
  {
    hide Ladder; hide Observe;
    assert Follows(c, trace[..k], trace[k]);
    assert Follows(c, trace[..k + 1], trace[k + 1]);
    LadderTakesFirst(c, k, trace[k].excluded, trace[k].start);
  }

  /** Over any stretch of a run: starts never drop, a rung that ran out of compute is never
      offered again, and Pump venues stay excluded for the legs 6018 blamed. */
  lemma {:induction false} LaterAttempts(c: Call, trace: seq<Simulated>, j: nat, k: nat)
    requires ValidCall(c) && Consistent(c, trace) && j < k < |trace|
    ensures trace[j].start <= trace[k].start
    ensures trace[j].failure == Some(Compute) ==> trace[j].chosen.rung < trace[k].start
    ensures trace[j].excluded <= trace[k].excluded
    ensures trace[j].failure == Some(Burner(6018)) ==> Offending(trace[j].chosen.legs) <= trace[k].excluded
  {
    hide Ladder; hide Observe; hide Follows; hide Consistent; hide Offending;
    NextAttempt(c, trace, k - 1);
    if j == k - 1 {
    } else {
      LaterAttempts(c, trace, j, k - 1);
    }
  }

  /** A blamed leg is never again quoted over Pump venues. */
  lemma BlamedLegsRequoted(c: Call, trace: seq<Simulated>, j: nat, k: nat, i: nat)
    requires ValidCall(c) && Consistent(c, trace) && j < k < |trace|
    requires trace[j].failure == Some(Burner(6018))
    requires i < |c.legs| && !c.legs[i].direct && i in Offending(trace[j].chosen.legs)
    ensures i < |trace[k].chosen.legs|
    ensures PrepareRouted(c.legs[i], c.world.quote(k, trace[k].chosen.rung, i, true), c.policy) == Ok(trace[k].chosen.legs[i])
  {
    hide Ladder; hide Observe; hide Offending; hide PrepareRouted;
    LaterAttempts(c, trace, j, k);
    assert Follows(c, trace[..k], trace[k]);
    LadderTakesFirst(c, k, trace[k].excluded, trace[k].start);
    assert PrepareLeg(c, k, trace[k].chosen.rung, trace[k].excluded, i) == Ok(trace[k].chosen.legs[i]);
  }

  /** The leg is one a 6018 blames: its route touches a Pump venue, or no leg's does. */
  predicate Blamed(legs: seq<PreparedLeg>, i: nat) {
    i < |legs| && (legs[i].pump || forall k :: 0 <= k < |legs| ==> !legs[k].pump)
  }

  /** The legs kept off Pump venues are exactly those some earlier 6018 of the run blamed. */
  lemma {:induction false} ExcludedExactly(c: Call, trace: seq<Simulated>, k: nat, i: nat)
    requires ValidCall(c) && Consistent(c, trace) && k < |trace|
    ensures i in trace[k].excluded <==>
            exists j :: 0 <= j < k && trace[j].failure == Some(Burner(6018)) && Blamed(trace[j].chosen.legs, i)
  {
    hide Ladder; hide Observe; hide Offending; hide Blamed;
    assert Follows(c, trace[..k], trace[k]);
    if k == 0 {
    } else {
      ExcludedExactly(c, trace, k - 1, i);
      BlamedIsOffending(trace[k - 1].chosen.legs, i);
    }
  }

  lemma BlamedIsOffending(legs: seq<PreparedLeg>, i: nat)
    ensures Blamed(legs, i) <==> i in Offending(legs)
  {
  }

  /** A message that simulates cleanly within the compute limit is the last one: it is returned, or
      refused only because its blockhash has too little life left. */
  lemma CleanIsReturned(c: Call, r: Result, trace: seq<Simulated>, k: nat)
    requires ValidCall(c) && Lawful(c, r, trace) && k < |trace|
    requires var s := c.world.simulate(k); !s.failed && (s.units == None || s.units.value <= c.policy.computeUnitLimit)
    ensures k == |trace| - 1
    ensures r == if c.world.blocksLeft(k) < c.policy.minRemainingBlockHeights then Refused(BlockhashTooOld)
                 else Built(trace[k].chosen, c.world.simulate(k).units)
  {
    hide Ladder; hide Consistent;
    AttemptFailure(c, trace, k);
    if k < |trace| - 1 { EarlierFailed(c, trace, k); }
  }

  /** Any burner code but the two retryable ones ends the run with that code. */
  lemma OtherCodesEnd(c: Call, r: Result, trace: seq<Simulated>, k: nat, code: nat)
    requires ValidCall(c) && Lawful(c, r, trace) && k < |trace|
    requires trace[k].failure == Some(Burner(code)) && code !in {6018, 6021}
    ensures k == |trace| - 1 && r == Refused(SimulationFailed(code))
  {
    hide Ladder; hide Consistent;
    RetryDiscipline(c, trace);
  }

  lemma AttemptFailure(c: Call, trace: seq<Simulated>, k: nat)
    requires ValidCall(c) && Consistent(c, trace) && k < |trace|
    ensures trace[k].failure == Observe(c, c.world.simulate(k))
  {
    hide Ladder; hide Observe;
    assert Follows(c, trace[..k], trace[k]);
  }

  lemma EarlierFailed(c: Call, trace: seq<Simulated>, k: nat)
    requires ValidCall(c) && Consistent(c, trace) && k < |trace| - 1
    ensures trace[k].failure.Some?
  {
    hide Ladder; hide Observe; hide Follows;
    assert Retries(c, trace[..k + 1]);
  }

  function ComputeFailures(trace: seq<Simulated>): nat {
    if trace == [] then 0
    else ComputeFailures(trace[..|trace| - 1]) + (if trace[|trace| - 1].failure == Some(Compute) then 1 else 0)
  }

  /** Every compute failure uses up at least one rung, so there are no more than rungs. */
  lemma {:induction false} ComputeFailuresBounded(c: Call, trace: seq<Simulated>)
    requires ValidCall(c) && Consistent(c, trace)
    ensures ComputeFailures(trace) <= NextStart(trace) <= Rungs(c)
  {
    hide Ladder; hide Observe;
    if trace == [] {
    } else {
      var front, last := trace[..|trace| - 1], trace[|trace| - 1];
      assert Follows(c, front, last);
      LadderTakesFirst(c, |front|, last.excluded, last.start);
      PrefixConsistent(c, trace);
      ComputeFailuresBounded(c, front);
    }
  }

  lemma PrefixConsistent(c: Call, trace: seq<Simulated>)
    requires ValidCall(c) && Consistent(c, trace) && trace != []
    ensures Consistent(c, trace[..|trace| - 1])
  {
    hide Follows; hide Retries;
    var front := trace[..|trace| - 1];
    forall k | 0 <= k < |front| ensures front[..k] == trace[..k] && front[k] == trace[k] {}
    forall k | 0 <= k < |front| ensures Follows(c, front[..k], front[k]) {
      assert front[..k] == trace[..k];
      assert Follows(c, trace[..k], trace[k]);
    }
    forall k | 0 < k < |front| ensures Retries(c, front[..k]) {
      assert front[..k] == trace[..k];
      assert Retries(c, trace[..k]);
    }
  }

  // ---------------------------------------------------------------- how runs end

  /** The service does not give up early. 6021, external and unattributed failures are reported
      only after every allowed attempt; 6018 also when it was already retried once; compute
      exhaustion also when the narrowest cap was reached. Any other burner code ends the run. */
  lemma GivesUpOnlyWhen(c: Call, r: Result, trace: seq<Simulated>)
    requires ValidCall(c) && Lawful(c, r, trace)
    requires r.Refused? && r.refusal in {SimulationFailed(6018), SimulationFailed(6021), ComputeLimit, ExternalSimulationFailure}
    ensures trace != []
    ensures var last := trace[|trace| - 1];
      && last.failure.Some?
      && (r.refusal == SimulationFailed(6018) ==> last.failure == Some(Burner(6018)))
      && (r.refusal == SimulationFailed(6021) ==> last.failure == Some(Burner(6021)))
      && (r.refusal == ComputeLimit ==> last.failure == Some(Compute))
      && (|trace| == c.policy.retryLimit + 1
          || (r.refusal == SimulationFailed(6018) && CashbackUsed(trace[..|trace| - 1]))
          || (r.refusal == ComputeLimit && last.chosen.rung == Rungs(c) - 1))
  {
    hide Observe; hide Follows;
    if trace == [] || Retries(c, trace) { StuckIsLocal(c, |trace|, NextExcluded(trace), NextStart(trace)); }
    RetryDiscipline(c, trace);
    assert Follows(c, trace[..|trace| - 1], trace[|trace| - 1]);
    LastRung(c, trace);
  }

  lemma LastRung(c: Call, trace: seq<Simulated>)
    requires ValidCall(c) && Consistent(c, trace) && trace != []
    ensures trace[|trace| - 1].chosen.rung < Rungs(c)
  {
    hide Ladder; hide Observe;
    var k: nat := |trace| - 1;
    assert Follows(c, trace[..k], trace[k]);
    LadderTakesFirst(c, k, trace[k].excluded, trace[k].start);
  }

  /** A preparation that gets stuck never reports a simulation failure. */
  lemma {:induction false} StuckIsLocal(c: Call, attempt: nat, excluded: set<nat>, rung: nat)
    requires ValidCall(c) && Ladder(c, attempt, excluded, rung).No?
    ensures var why := Ladder(c, attempt, excluded, rung).refusal;
      !why.SimulationFailed? && why != ComputeLimit && why != ExternalSimulationFailure && why != BlockhashTooOld
    decreases Rungs(c) - rung
  {
    if rung >= Rungs(c) {
    } else {
      var prepared := PrepareLegs(c, attempt, rung, excluded, |c.legs|);
      if prepared.No? { LegRefusalIsLocal(c, attempt, rung, excluded, |c.legs|); }
      else if Ladder(c, attempt, excluded, rung) == Ladder(c, attempt, excluded, rung + 1) {
        StuckIsLocal(c, attempt, excluded, rung + 1);
      }
    }
  }

  lemma {:induction false} LegRefusalIsLocal(c: Call, attempt: nat, rung: nat, excluded: set<nat>, n: nat)
    requires ValidCall(c) && n <= |c.legs| && PrepareLegs(c, attempt, rung, excluded, n).No?
    ensures var why := PrepareLegs(c, attempt, rung, excluded, n).refusal;
      !why.SimulationFailed? && why != ComputeLimit && why != ExternalSimulationFailure && why != BlockhashTooOld
  {
    if n > 0 && PrepareLegs(c, attempt, rung, excluded, n - 1).No? { LegRefusalIsLocal(c, attempt, rung, excluded, n - 1); }
  }

  // ---------------------------------------------------------------- what a returned burn is

  /** A returned burn fits, was simulated last and cleanly within the compute limit, and each of
      its legs passed its checks in the quotes of that very attempt. */
  lemma BuiltIsChecked(c: Call, r: Result, trace: seq<Simulated>)
    requires ValidCall(c) && Lawful(c, r, trace) && r.Built?
    ensures trace != []
    ensures var k := |trace| - 1; var s := c.world.simulate(k);
      && r.chosen == trace[k].chosen
      && r.chosen.size == c.world.size(k, r.chosen.rung)
      && r.chosen.size.bytes <= 1232 && r.chosen.size.locks <= 64
      && !s.failed && (s.units.Some? ==> s.units.value <= c.policy.computeUnitLimit) && r.units == s.units
      && c.world.blocksLeft(k) >= c.policy.minRemainingBlockHeights
      && |r.chosen.legs| == |c.legs|
      && (forall i :: 0 <= i < |c.legs| ==>
            PrepareLeg(c, k, r.chosen.rung, trace[k].excluded, i) == Ok(r.chosen.legs[i]))
      && SplitCodec.Encodable(c.amount, Wire(r.chosen.legs))
      && r.chosen.data == SplitCodec.Encode(c.amount, Wire(r.chosen.legs))
  {
    hide Ladder; hide PrepareLeg;
    var k: nat := |trace| - 1;
    assert Follows(c, trace[..k], trace[k]);
    LadderTakesFirst(c, k, trace[k].excluded, trace[k].start);
  }

  function CallFor(q: Request, legs: seq<AdmittedLeg>, burner: string, policy: Policy, world: World): Call {
    Call(q.amount, legs, q.tableCovers, burner, policy, world)
  }

  /** Nothing refused the request locally, and its first ladder finds no message that fits. */
  ghost predicate FirstLadderFails(q: Request, legs: seq<AdmittedLeg>, burner: string, policy: Policy, world: World)
    requires ValidPrepare(q, policy)
  {
    && q.amount <= policy.maxAmountPerBurn && (q.balance == q.amount || q.balance >= q.amount + q.rentFloor)
    && Admitted(q.amount, q.legs, legs) && TooLarge(CallFor(q, legs, burner, policy, world), 0, {}, 0)
  }

  datatype Request = Request(amount: nat, legs: seq<RequestedLeg>, tableCovers: bool, balance: nat, rentFloor: nat)

  predicate ValidPrepare(q: Request, policy: Policy) {
    ValidRequest(q.amount, q.legs) && ValidPolicy(policy)
  }

  /** The instruction carries the leg at `at`: weight, minimum output, route accounts and route data. */
  predicate OnWire(data: seq<byte>, at: nat, leg: PreparedLeg) {
    && at + 15 + |leg.routeData| <= |data|
    && Positional.ValueLE(256, data[at..at + 2]) == leg.bps
    && Positional.ValueLE(256, data[at + 2..at + 10]) == leg.minimumOutput
    && data[at + 10] == leg.routeAccounts
    && data[at + 15..at + 15 + |leg.routeData|] == leg.routeData
  }

  /** What the caller can rely on in a burn they are asked to sign. */
  ghost predicate SafeBurn(q: Request, policy: Policy, burn: Candidate)
    requires ValidPrepare(q, policy)
  {
    && |burn.legs| == |q.legs|
    // every leg spends exactly its share, all of the amount is spent, and the vault can fund it
    && (forall i :: 0 <= i < |q.legs| ==> burn.legs[i].amountIn == SplitAmounts.Shares(q.amount, Weights(q.legs))[i])
    && SplitAmounts.Sum(SplitAmounts.Shares(q.amount, Weights(q.legs))) == q.amount <= policy.maxAmountPerBurn
    && (q.balance == q.amount || q.balance >= q.amount + q.rentFloor)
    // no leg may fill below its own reference's floor
    && (forall i :: 0 <= i < |q.legs| ==>
          && PriceFloor.FloorFor(q.legs[i].reference, burn.legs[i].amountIn).Floor?
          && 0 < PriceFloor.FloorFor(q.legs[i].reference, burn.legs[i].amountIn).amount <= burn.legs[i].minimumOutput)
    // and the minimums the caller signs are those, leg by leg, on the wire
    && (forall i: nat :: i < |q.legs| ==> OnWire(burn.data, 20 + SplitCodec.LegOffset(Wire(burn.legs), i), burn.legs[i]))
    // the instruction, read back through the RPC, is this amount over these weights
    && SplitCodec.DecodeInstruction(Base58.Encode(burn.data)) == Some(SplitCodec.Split(q.amount, Weights(q.legs)))
  }

  /** There is at most one first refusal, and none once every leg is admitted. */
  lemma OneRefusal(amount: nat, legs: seq<RequestedLeg>)
    requires ValidRequest(amount, legs)
    ensures forall i, why, k, other :: FirstRefused(amount, legs, i, why) && FirstRefused(amount, legs, k, other) ==> why == other
    ensures forall i, why, admitted :: FirstRefused(amount, legs, i, why) ==> !Admitted(amount, legs, admitted)
  {
    hide ValidRequest; hide PriceFloor.FloorFor; hide SplitAmounts.Shares;
    forall i, why, admitted | FirstRefused(amount, legs, i, why) ensures !Admitted(amount, legs, admitted) {
      if Admitted(amount, legs, admitted) { AdmittedPasses(amount, legs, admitted, i); }
    }
  }

  lemma AdmittedPasses(amount: nat, legs: seq<RequestedLeg>, admitted: seq<AdmittedLeg>, i: int)
    requires ValidRequest(amount, legs) && Admitted(amount, legs, admitted) && 0 <= i < |legs|
    ensures AdmitLeg(legs[i], SplitAmounts.Shares(amount, Weights(legs))[i]) == Ok(admitted[i])
  {
    hide PriceFloor.FloorFor;
  }

  /** From a request to an unsigned burn: the local refusals, the vault checks, the machine. */
  method PrepareBurn(q: Request, burner: string, policy: Policy, world: World) returns (r: Result, trace: seq<Simulated>)
    requires ValidPrepare(q, policy)
    ensures r.Built? ==> SafeBurn(q, policy, r.chosen)
    ensures r.Built? ==> r.chosen.size.bytes <= 1232 && r.chosen.size.locks <= 64
    ensures |trace| <= policy.retryLimit + 1 <= 6
    ensures q.amount > policy.maxAmountPerBurn ==> r == Refused(NotionalLimit) && trace == []
    ensures forall i, why :: FirstRefused(q.amount, q.legs, i, why) ==>
      trace == [] && r == Refused(if q.amount > policy.maxAmountPerBurn then NotionalLimit else why)
    ensures r == Refused(TransactionTooLarge) && trace == [] <==> exists legs :: FirstLadderFails(q, legs, burner, policy, world)
    ensures q.amount <= policy.maxAmountPerBurn && q.balance < q.amount ==> r.Refused? && trace == []
    ensures q.amount < q.balance < q.amount + q.rentFloor ==> r.Refused? && trace == []
  {
    if q.amount > policy.maxAmountPerBurn { return Refused(NotionalLimit), []; }
    OneRefusal(q.amount, q.legs);
    var admitted := AdmitLegs(q.amount, q.legs);
    if admitted.No? { return Refused(admitted.refusal), []; }
    var refusal := VaultRefusal(q.balance, q.amount, q.rentFloor);
    if refusal.Some? { return Refused(refusal.value), []; }
    var c := Call(q.amount, admitted.value, q.tableCovers, burner, policy, world);
    assert c == CallFor(q, admitted.value, burner, policy, world);
    r, trace := BuildAndSimulate(c);
    FirstLadder(q, c, r, trace);
    RetryDiscipline(c, trace);
    if r.Built? { BuiltIsSafe(q, c, r, trace); }
  }

  lemma FirstLadder(q: Request, c: Call, r: Result, trace: seq<Simulated>)
    requires ValidPrepare(q, c.policy) && ValidCall(c) && Lawful(c, r, trace)
    requires q.amount <= c.policy.maxAmountPerBurn && (q.balance == q.amount || q.balance >= q.amount + q.rentFloor)
    requires c == CallFor(q, c.legs, c.burner, c.policy, c.world) && Admitted(q.amount, q.legs, c.legs)
    ensures r == Refused(TransactionTooLarge) && trace == [] <==>
            exists legs :: FirstLadderFails(q, legs, c.burner, c.policy, c.world)
  {
    hide TooLarge; hide Lawful;
    RunTooLarge(c, r, trace);
    if r == Refused(TransactionTooLarge) && trace == [] {
      assert FirstLadderFails(q, c.legs, c.burner, c.policy, c.world);
    }
    if exists legs :: FirstLadderFails(q, legs, c.burner, c.policy, c.world) {
      var legs :| FirstLadderFails(q, legs, c.burner, c.policy, c.world);
      OneAdmission(q.amount, q.legs, legs, c.legs);
    }
  }

  lemma OneAdmission(amount: nat, legs: seq<RequestedLeg>, a: seq<AdmittedLeg>, b: seq<AdmittedLeg>)
    requires ValidRequest(amount, legs) && Admitted(amount, legs, a) && Admitted(amount, legs, b)
    ensures a == b
  {
    hide AdmitLeg; hide ValidRequest;
    forall i | 0 <= i < |legs| ensures a[i] == b[i] {
      AdmittedPasses(amount, legs, a, i);
      AdmittedPasses(amount, legs, b, i);
    }
  }

  /** The end-to-end theorem behind PrepareBurn. */
  lemma BuiltIsSafe(q: Request, c: Call, r: Result, trace: seq<Simulated>)
    requires ValidPrepare(q, c.policy) && Admitted(q.amount, q.legs, c.legs) && c.amount == q.amount <= c.policy.maxAmountPerBurn
    requires ValidCall(c) && Lawful(c, r, trace) && r.Built?
    requires VaultRefusal(q.balance, q.amount, q.rentFloor) == None
    ensures SafeBurn(q, c.policy, r.chosen)
    ensures r.chosen.size.bytes <= 1232 && r.chosen.size.locks <= 64
  {
    hide Ladder; hide Lawful; hide PriceFloor.FloorFor; hide SplitAmounts.Shares; hide SplitCodec.Encodable;
    hide SplitCodec.Encode; hide SplitCodec.DecodeInstruction; hide PrepareLeg; hide OnWire; hide SplitCodec.LegOffset;
    BuiltIsChecked(c, r, trace);
    AdmittedSpendsAll(q.amount, q.legs, c.legs);
    forall i: nat | i < |q.legs|
      ensures r.chosen.legs[i].amountIn == c.legs[i].amountIn && r.chosen.legs[i].bps == q.legs[i].bps
      ensures r.chosen.legs[i].minimumOutput >= c.legs[i].floor
    {
      LegKept(c, |trace| - 1, r.chosen.rung, trace[|trace| - 1].excluded, i);
    }
    assert Inputs(c.legs) == SplitAmounts.Shares(q.amount, Weights(q.legs));
    assert SplitCodec.Weights(Wire(r.chosen.legs)) == Weights(q.legs);
    SplitCodec.InstructionRoundTrip(q.amount, Wire(r.chosen.legs));
    forall i: nat | i < |q.legs|
      ensures OnWire(r.chosen.data, 20 + SplitCodec.LegOffset(Wire(r.chosen.legs), i), r.chosen.legs[i])
    {
      LegOnWire(q.amount, r.chosen.legs, i);
    }
  }

  lemma LegOnWire(amount: nat, legs: seq<PreparedLeg>, i: nat)
    requires SplitCodec.Encodable(amount, Wire(legs)) && i < |legs|
    ensures OnWire(SplitCodec.Encode(amount, Wire(legs)), 20 + SplitCodec.LegOffset(Wire(legs), i), legs[i])
  {
    hide SplitCodec.Encode; hide SplitCodec.LegOffset; hide Positional.ValueLE; hide SplitCodec.Encodable;
    SplitCodec.WireLayout(amount, Wire(legs), i);
  }

  /** However a leg is prepared, it keeps its input and weight and its minimum covers its floor. */
  lemma LegKept(c: Call, attempt: nat, rung: nat, excluded: set<nat>, i: nat)
    requires ValidCall(c) && i < |c.legs| && PrepareLeg(c, attempt, rung, excluded, i).Ok?
    ensures var p := PrepareLeg(c, attempt, rung, excluded, i).value;
      p.amountIn == c.legs[i].amountIn && p.bps == c.legs[i].bps && p.minimumOutput >= c.legs[i].floor
  {
  }
}
