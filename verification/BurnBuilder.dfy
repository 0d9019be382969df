/** The build-and-simulate machine (quote-service/core.ts:1705-2224): a fitting ladder of account
    caps inside a retry loop, run against any quotes, message sizes and simulation answers. */
module BurnBuilder {
  import opened Basics
  import opened BurnLegs
  import opened SimulationFailure
  import SplitCodec

  const MAX_TRANSACTION_BYTES: nat := 1232
  const MAX_ACCOUNT_LOCKS: nat := 64
  const WSOL_NOT_FULLY_CONSUMED: nat := 6018
  const SLIPPAGE_EXCEEDED: nat := 6021

  datatype Size = Size(bytes: nat, locks: nat)

  datatype Simulation = Simulation(failed: bool, errorMentionsCompute: bool, logs: seq<Line>, units: Option<nat>)

  /** Everything the builder does not decide. Each answer may depend on when it is asked for. */
  datatype World = World(
    quote: (nat, nat, nat, bool) -> Quote,     // attempt, rung, leg, Pump venues excluded
    curve: (nat, nat, nat) -> CurveBuild,      // attempt, rung, leg
    size: (nat, nat) -> Size,                  // of the message compiled at attempt, rung
    simulate: nat -> Simulation,               // of the message chosen at attempt
    blocksLeft: nat -> int)                    // blockhash lifetime left after attempt

  /** One call: its admitted legs, whether a lookup table covers the vault's own accounts, the
      policy, and the world. */
  datatype Call = Call(
    amount: nat, legs: seq<AdmittedLeg>, tableCovers: bool, burner: string, policy: Policy, world: World)

  predicate ValidCall(c: Call) {
    c.legs != [] && ValidPolicy(c.policy)
  }

  /** Rung 0 asks for uncapped routes, the others for the policy's caps in order. */
  function Rungs(c: Call): nat { 1 + |c.policy.fittingMaxAccounts| }

  // ---------------------------------------------------------------- one rung

  function PrepareLeg(c: Call, attempt: nat, rung: nat, excluded: set<nat>, i: nat): Checked<PreparedLeg>
    requires ValidCall(c) && i < |c.legs|
  {
    if c.legs[i].direct then PrepareDirect(c.legs[i], c.world.curve(attempt, rung, i))
    else PrepareRouted(c.legs[i], c.world.quote(attempt, rung, i, i in excluded), c.policy)
  }

  /** The first n legs prepared, or the first refusal among them. */
  function PrepareLegs(c: Call, attempt: nat, rung: nat, excluded: set<nat>, n: nat): (r: Checked<seq<PreparedLeg>>)
    requires ValidCall(c) && n <= |c.legs|
    ensures r.Ok? ==> |r.value| == n
    ensures r.Ok? ==> forall i :: 0 <= i < n ==> PrepareLeg(c, attempt, rung, excluded, i) == Ok(r.value[i])
  {
    if n == 0 then Ok([])
    else match PrepareLegs(c, attempt, rung, excluded, n - 1)
      case No(refusal) => No(refusal)
      case Ok(front) =>
        match PrepareLeg(c, attempt, rung, excluded, n - 1) {
          case No(refusal) => No(refusal)
          case Ok(leg) => Ok(front + [leg])
        }
  }

  function Wire(legs: seq<PreparedLeg>): (r: seq<SplitCodec.Leg>)
    ensures |r| == |legs|
  {
    seq(|legs|, i requires 0 <= i < |legs| =>
      SplitCodec.Leg(legs[i].bps, legs[i].minimumOutput, legs[i].routeAccounts, legs[i].routeData))
  }

  predicate Fits(size: Size) {
    size.bytes <= MAX_TRANSACTION_BYTES && size.locks <= MAX_ACCOUNT_LOCKS
  }

  datatype Candidate = Candidate(rung: nat, legs: seq<PreparedLeg>, data: seq<byte>, size: Size)

  /** What the ladder yields from a rung on: the first candidate that fits, or a refusal. */
  function Ladder(c: Call, attempt: nat, excluded: set<nat>, rung: nat): Checked<Candidate>
    requires ValidCall(c)
    decreases Rungs(c) - rung
  {
    if rung >= Rungs(c) then No(TransactionTooLarge)
    else match PrepareLegs(c, attempt, rung, excluded, |c.legs|)
      case No(refusal) => No(refusal)
      case Ok(legs) =>
        if !SplitCodec.Encodable(c.amount, Wire(legs)) then No(Unencodable)
        else if Fits(c.world.size(attempt, rung)) then
          Ok(Candidate(rung, legs, SplitCodec.Encode(c.amount, Wire(legs)), c.world.size(attempt, rung)))
        else if rung == 0 && |c.legs| >= 3 && !c.tableCovers then No(TransactionTooLarge)
        else Ladder(c, attempt, excluded, rung + 1)
  }

  /** The ladder takes the widest rung that fits, and never looks past it. */
  lemma {:induction false} LadderTakesFirst(c: Call, attempt: nat, excluded: set<nat>, start: nat)
    requires ValidCall(c) && Ladder(c, attempt, excluded, start).Ok?
    ensures var f := Ladder(c, attempt, excluded, start).value;
      && start <= f.rung < Rungs(c)
      && f.size == c.world.size(attempt, f.rung) && Fits(f.size)
      && (forall rung :: start <= rung < f.rung ==> !Fits(c.world.size(attempt, rung)))
      && PrepareLegs(c, attempt, f.rung, excluded, |c.legs|) == Ok(f.legs)
      && SplitCodec.Encodable(c.amount, Wire(f.legs)) && f.data == SplitCodec.Encode(c.amount, Wire(f.legs))
    decreases Rungs(c) - start
  {
    if Fits(c.world.size(attempt, start)) {
    } else {
      LadderTakesFirst(c, attempt, excluded, start + 1);
    }
  }

  // ---------------------------------------------------------------- one run

  /** A simulation that was run: the candidate, how it was chosen, and what broke it if anything. */
  datatype Simulated = Simulated(start: nat, excluded: set<nat>, chosen: Candidate, failure: Option<Attribution>)

  function Observe(c: Call, s: Simulation): Option<Attribution> {
    if s.failed then Some(Attribute(s.errorMentionsCompute, s.logs, c.burner))
    else if s.units.Some? && s.units.value > c.policy.computeUnitLimit then Some(Compute)
    else None
  }

  predicate AnyPump(legs: seq<PreparedLeg>) {
    exists i :: 0 <= i < |legs| && legs[i].pump
  }

  /** The legs whose route touches a Pump venue, or every leg if none does. */
  function Offending(legs: seq<PreparedLeg>): set<nat> {
    set i: nat | i < |legs| && (legs[i].pump || !AnyPump(legs))
  }

  /** Where the next attempt starts, given the last one. */
  function NextStart(past: seq<Simulated>): nat {
    if past == [] then 0
    else
      var last := past[|past| - 1];
      if last.failure == Some(Compute) then last.chosen.rung + 1 else last.start
  }

  function NextExcluded(past: seq<Simulated>): set<nat> {
    if past == [] then {}
    else
      var last := past[|past| - 1];
      if last.failure == Some(Burner(WSOL_NOT_FULLY_CONSUMED)) then last.excluded + Offending(last.chosen.legs)
      else last.excluded
  }

  predicate CashbackUsed(past: seq<Simulated>) {
    exists k :: 0 <= k < |past| && past[k].failure == Some(Burner(WSOL_NOT_FULLY_CONSUMED))
  }

  /** Whether attempt number `attempt`, having gone as `e` says, is followed by another. */
  predicate MayRetry(c: Call, attempt: nat, cashbackUsed: bool, e: Simulated) {
    e.failure.Some? && attempt < c.policy.retryLimit &&
    match e.failure.value
    case Burner(code) => (code == WSOL_NOT_FULLY_CONSUMED && !cashbackUsed) || code == SLIPPAGE_EXCEEDED
    case Compute => e.chosen.rung + 1 < Rungs(c)
    case _ => true
  }

  /** Whether the run goes on after its last attempt. */
  predicate Retries(c: Call, trace: seq<Simulated>)
    requires trace != []
  {
    MayRetry(c, |trace| - 1, CashbackUsed(trace[..|trace| - 1]), trace[|trace| - 1])
  }

  datatype Result = Built(chosen: Candidate, units: Option<nat>) | Refused(refusal: Refusal)

  /** How a run that does not go on ends. */
  function Verdict(c: Call, trace: seq<Simulated>): Result
    requires trace != []
  {
    var last := trace[|trace| - 1];
    match last.failure
    case None =>
      if c.world.blocksLeft(|trace| - 1) < c.policy.minRemainingBlockHeights then Refused(BlockhashTooOld)
      else Built(last.chosen, c.world.simulate(|trace| - 1).units)
    case Some(Burner(code)) => Refused(SimulationFailed(code))
    case Some(Compute) => Refused(ComputeLimit)
    case Some(_) => Refused(ExternalSimulationFailure)
  }

  /** Attempt e comes right after the attempts in `past`. */
  predicate Follows(c: Call, past: seq<Simulated>, e: Simulated)
    requires ValidCall(c)
  {
    && e.start == NextStart(past) && e.excluded == NextExcluded(past)
    && Ladder(c, |past|, e.excluded, e.start) == Ok(e.chosen)
    && e.failure == Observe(c, c.world.simulate(|past|))
  }

  /** The attempts were made one after the other, and the run went on after each but the last. */
  predicate Consistent(c: Call, trace: seq<Simulated>)
    requires ValidCall(c)
  {
    && (forall k :: 0 <= k < |trace| ==> Follows(c, trace[..k], trace[k]))
    && (forall k :: 0 < k < |trace| ==> Retries(c, trace[..k]))
  }

  /** What a run must do and return: it ends at the first attempt that is not retried, or when an
      attempt cannot be prepared. */
  predicate Lawful(c: Call, r: Result, trace: seq<Simulated>)
    requires ValidCall(c)
  {
    && Consistent(c, trace)
    && if trace != [] && !Retries(c, trace) then r == Verdict(c, trace)
       else
         var stuck := Ladder(c, |trace|, NextExcluded(trace), NextStart(trace));
         stuck.No? && r == Refused(stuck.refusal)
  }

  // ---------------------------------------------------------------- the machine

  method PrepareAll(c: Call, attempt: nat, rung: nat, excluded: set<nat>) returns (r: Checked<seq<PreparedLeg>>)
    requires ValidCall(c)
    ensures r == PrepareLegs(c, attempt, rung, excluded, |c.legs|)
  {
    var legs: seq<PreparedLeg> := [];
    for i := 0 to |c.legs|
      invariant PrepareLegs(c, attempt, rung, excluded, i) == Ok(legs)
    {
      var leg := PrepareLeg(c, attempt, rung, excluded, i);
      if leg.No? {
        RefusalStays(c, attempt, rung, excluded, i + 1, |c.legs|);
        return No(leg.refusal);
      }
      legs := legs + [leg.value];
    }
    return Ok(legs);
  }

  lemma {:induction false} RefusalStays(c: Call, attempt: nat, rung: nat, excluded: set<nat>, i: nat, n: nat)
    requires ValidCall(c) && i <= n <= |c.legs| && PrepareLegs(c, attempt, rung, excluded, i).No?
    ensures PrepareLegs(c, attempt, rung, excluded, n) == PrepareLegs(c, attempt, rung, excluded, i)
  {
    if i == n {
    } else {
      RefusalStays(c, attempt, rung, excluded, i, n - 1);
    }
  }

  method Fit(c: Call, attempt: nat, excluded: set<nat>, capStartIndex: nat) returns (r: Checked<Candidate>)
    requires ValidCall(c)
    ensures r == Ladder(c, attempt, excluded, capStartIndex)
  {
    hide PrepareLegs; hide SplitCodec.Encode; hide SplitCodec.Encodable;
    var capIndex := capStartIndex;
    while capIndex < Rungs(c)
      invariant Ladder(c, attempt, excluded, capIndex) == Ladder(c, attempt, excluded, capStartIndex)
    {
      var prepared := PrepareAll(c, attempt, capIndex, excluded);
      if prepared.No? { return No(prepared.refusal); }
      var data := SplitCodec.SplitData(c.amount, Wire(prepared.value));
      if data == None { return No(Unencodable); }
      var size := c.world.size(attempt, capIndex);
      if Fits(size) { return Ok(Candidate(capIndex, prepared.value, data.value, size)); }
      if capIndex == 0 && |c.legs| >= 3 && !c.tableCovers { return No(TransactionTooLarge); }
      capIndex := capIndex + 1;
    }
    return No(TransactionTooLarge);
  }

  method Judge(c: Call, simulation: Simulation) returns (failure: Option<Attribution>)
    ensures failure == Observe(c, simulation)
  {
    var overComputeLimit := !simulation.failed && simulation.units.Some? && simulation.units.value > c.policy.computeUnitLimit;
    if !simulation.failed && !overComputeLimit { return None; }
    if !simulation.failed { return Some(Compute); }
    var attribution := ClassifySimulationFailure(simulation.errorMentionsCompute, simulation.logs, c.burner);
    return Some(attribution);
  }

  method BuildAndSimulate(c: Call) returns (r: Result, trace: seq<Simulated>)
    requires ValidCall(c)
    ensures Lawful(c, r, trace)
  {
    hide Ladder; hide Follows; hide Consistent; hide Attribute; hide CashbackUsed; hide Offending; hide Retries; hide NextStart;
    hide NextExcluded; hide Observe;
    BeforeFirst(c);
    var pumpExcludedLegs: set<nat> := {};
    var capStartIndex, cashbackRetryUsed, attempt := 0, false, 0;
    trace := [];
    while true
      invariant attempt == |trace| <= c.policy.retryLimit
      invariant Consistent(c, trace) && (trace != [] ==> Retries(c, trace))
      invariant capStartIndex == NextStart(trace) && pumpExcludedLegs == NextExcluded(trace)
      invariant cashbackRetryUsed == CashbackUsed(trace)
      decreases c.policy.retryLimit - attempt
    {
      var final := Fit(c, attempt, pumpExcludedLegs, capStartIndex);
      if final.No? { return Refused(final.refusal), trace; }
      var simulation := c.world.simulate(attempt);
      var failure := Judge(c, simulation);
      var step := Simulated(capStartIndex, pumpExcludedLegs, final.value, failure);
      ConsistentSnoc(c, trace, step);
      CashbackSnoc(trace, step);
      AfterSnoc(c, trace, step);
      trace := trace + [step];
      if failure == None {
        if c.world.blocksLeft(attempt) < c.policy.minRemainingBlockHeights { return Refused(BlockhashTooOld), trace; }
        return Built(final.value, simulation.units), trace;
      }
      match failure.value {
        case Burner(code) =>
          if code == WSOL_NOT_FULLY_CONSUMED && !cashbackRetryUsed && attempt < c.policy.retryLimit {
            cashbackRetryUsed := true;
            pumpExcludedLegs := pumpExcludedLegs + Offending(final.value.legs);
          } else if !(code == SLIPPAGE_EXCEEDED && attempt < c.policy.retryLimit) {
            return Refused(SimulationFailed(code)), trace;
          }
        case Compute =>
          if !(attempt < c.policy.retryLimit && final.value.rung + 1 < Rungs(c)) { return Refused(ComputeLimit), trace; }
          capStartIndex := final.value.rung + 1;
        case _ =>
          if !(attempt < c.policy.retryLimit) { return Refused(ExternalSimulationFailure), trace; }
      }
      attempt := attempt + 1;
    }
  }

  lemma BeforeFirst(c: Call)
    requires ValidCall(c)
    ensures Consistent(c, []) && !CashbackUsed([]) && NextStart([]) == 0 && NextExcluded([]) == {}
  {
  }

  lemma CashbackSnoc(past: seq<Simulated>, e: Simulated)
    ensures CashbackUsed(past + [e]) <==> CashbackUsed(past) || e.failure == Some(Burner(WSOL_NOT_FULLY_CONSUMED))
  {
    if CashbackUsed(past) {
      var k :| 0 <= k < |past| && past[k].failure == Some(Burner(WSOL_NOT_FULLY_CONSUMED));
      assert (past + [e])[k] == past[k];
    }
    assert (past + [e])[|past|] == e;
  }

  lemma AfterSnoc(c: Call, past: seq<Simulated>, e: Simulated)
    ensures var t := past + [e];
      && Retries(c, t) == MayRetry(c, |past|, CashbackUsed(past), e)
      && NextStart(t) == (if e.failure == Some(Compute) then e.chosen.rung + 1 else e.start)
      && NextExcluded(t) == (if e.failure == Some(Burner(WSOL_NOT_FULLY_CONSUMED))
                             then e.excluded + Offending(e.chosen.legs) else e.excluded)
  {
    assert (past + [e])[..|past|] == past;
  }

  lemma ConsistentSnoc(c: Call, trace: seq<Simulated>, e: Simulated)
    requires ValidCall(c) && Consistent(c, trace) && (trace != [] ==> Retries(c, trace))
    requires e.start == NextStart(trace) && e.excluded == NextExcluded(trace)
    requires Ladder(c, |trace|, e.excluded, e.start) == Ok(e.chosen)
    requires e.failure == Observe(c, c.world.simulate(|trace|))
    ensures Consistent(c, trace + [e])
  {
    hide Ladder; hide Retries; hide Observe; hide NextStart; hide NextExcluded;
    var longer := trace + [e];
    forall k | 0 <= k < |longer| ensures Follows(c, longer[..k], longer[k]) {
      assert longer[..k] == trace[..k];
      if k == |trace| { assert trace[..k] == trace; }
    }
    forall k | 0 < k < |longer| ensures Retries(c, longer[..k]) {
      assert longer[..k] == trace[..k];
      if k == |trace| { assert trace[..k] == trace; }
    }
  }
}
