/** Exactly when the fitting ladder answers what, over the legs' preparation, the encoding and the
    measured sizes of its rungs. */
module LadderExact {
  import opened Basics
  import opened BurnLegs
  import opened BurnBuilder
  import opened SimulationFailure
  import SplitCodec

  /** All legs of the rung prepared and the instruction encoded. */
  predicate Assembled(c: Call, attempt: nat, excluded: set<nat>, rung: nat)
    requires ValidCall(c)
  {
    var legs := PrepareLegs(c, attempt, rung, excluded, |c.legs|);
    legs.Ok? && SplitCodec.Encodable(c.amount, Wire(legs.value))
  }

  /** The rung was assembled and did not fit. */
  predicate TooBig(c: Call, attempt: nat, excluded: set<nat>, rung: nat)
    requires ValidCall(c)
  {
    Assembled(c, attempt, excluded, rung) &&
    (c.world.size(attempt, rung).bytes > 1232 || c.world.size(attempt, rung).locks > 64)
  }

  /** Three or more legs, no table over the vault's accounts, and uncapped routes too big: the one
      case in which narrower caps are not tried. */
  predicate FailsFast(c: Call, attempt: nat, excluded: set<nat>)
    requires ValidCall(c)
  {
    |c.legs| >= 3 && !c.tableCovers && TooBig(c, attempt, excluded, 0)
  }

  predicate TooLarge(c: Call, attempt: nat, excluded: set<nat>, start: nat)
    requires ValidCall(c)
  {
    || (forall rung :: start <= rung < 1 + |c.policy.fittingMaxAccounts| ==> TooBig(c, attempt, excluded, rung))
    || (start == 0 && FailsFast(c, attempt, excluded))
  }

  /** What a rung answers by itself. */
  ghost predicate Decides(c: Call, attempt: nat, excluded: set<nat>, rung: nat, answer: Checked<Candidate>)
    requires ValidCall(c)
  {
    var legs := PrepareLegs(c, attempt, rung, excluded, |c.legs|);
    var size := c.world.size(attempt, rung);
    if legs.No? then answer == No(legs.refusal)
    else if !SplitCodec.Encodable(c.amount, Wire(legs.value)) then answer == No(Unencodable)
    else
      && size.bytes <= 1232 && size.locks <= 64
      && answer == Ok(Candidate(rung, legs.value, SplitCodec.Encode(c.amount, Wire(legs.value)), size))
  }

  // ---------------------------------------------------------------- one leg's refusal

  lemma RefusalOfLeg(c: Call, attempt: nat, rung: nat, excluded: set<nat>, i: nat)
    requires ValidCall(c) && i < |c.legs| && PrepareLeg(c, attempt, rung, excluded, i).No?
    ensures PrepareLeg(c, attempt, rung, excluded, i).refusal != TransactionTooLarge
  {
  }

  /** The legs are refused exactly when one is, and for the reason of the first that is. */
  lemma {:induction false} FirstRefusedLeg(c: Call, attempt: nat, rung: nat, excluded: set<nat>, n: nat)
    requires ValidCall(c) && n <= |c.legs|
    ensures PrepareLegs(c, attempt, rung, excluded, n).Ok? <==>
            forall i :: 0 <= i < n ==> PrepareLeg(c, attempt, rung, excluded, i).Ok?
    ensures PrepareLegs(c, attempt, rung, excluded, n).No? ==>
            exists i :: 0 <= i < n && PrepareLeg(c, attempt, rung, excluded, i) == No(PrepareLegs(c, attempt, rung, excluded, n).refusal)
              && forall k :: 0 <= k < i ==> PrepareLeg(c, attempt, rung, excluded, k).Ok?
    ensures PrepareLegs(c, attempt, rung, excluded, n) != No(TransactionTooLarge)
  {
    if n == 0 {
    } else {
      hide PrepareLeg;
      FirstRefusedLeg(c, attempt, rung, excluded, n - 1);
      if PrepareLeg(c, attempt, rung, excluded, n - 1).No? { RefusalOfLeg(c, attempt, rung, excluded, n - 1); }
    }
  }

  // ---------------------------------------------------------------- the ladder

  /** The ladder answers too large exactly in the two cases above; otherwise the first rung that is
      not too big decides. */
  lemma {:induction false} LadderAnswers(c: Call, attempt: nat, excluded: set<nat>, start: nat)
    returns (rung: nat)
    requires ValidCall(c)
    ensures Ladder(c, attempt, excluded, start) == No(TransactionTooLarge) <==> TooLarge(c, attempt, excluded, start)
    ensures !TooLarge(c, attempt, excluded, start) ==>
      && start <= rung < 1 + |c.policy.fittingMaxAccounts|
      && (forall k :: start <= k < rung ==> TooBig(c, attempt, excluded, k))
      && !TooBig(c, attempt, excluded, rung)
      && Decides(c, attempt, excluded, rung, Ladder(c, attempt, excluded, start))
    decreases Rungs(c) - start
  {
    hide PrepareLegs; hide SplitCodec.Encodable; hide SplitCodec.Encode; hide Wire;
    FirstRefusedLeg(c, attempt, start, excluded, |c.legs|);
    rung := start;
    if start < Rungs(c) && TooBig(c, attempt, excluded, start) && !(start == 0 && FailsFast(c, attempt, excluded)) {
      rung := LadderAnswers(c, attempt, excluded, start + 1);
    }
  }

  // ---------------------------------------------------------------- the run

  /** A run reports too large exactly when the next attempt it owes meets one of the two cases. The
      first attempt starts at uncapped routes with nothing excluded. */
  lemma RunTooLarge(c: Call, r: Result, trace: seq<Simulated>)
    requires ValidCall(c) && Lawful(c, r, trace)
    ensures r == Refused(TransactionTooLarge) <==>
            (trace == [] || Retries(c, trace)) && TooLarge(c, |trace|, NextExcluded(trace), NextStart(trace))
    ensures trace == [] && r == Refused(TransactionTooLarge) <==> TooLarge(c, 0, {}, 0)
  {
    hide Ladder; hide TooLarge; hide Follows; hide Observe;
    var _ := LadderAnswers(c, |trace|, NextExcluded(trace), NextStart(trace));
    var _ := LadderAnswers(c, 0, {}, 0);
    if trace != [] { FirstAttempt(c, trace); }
  }

  lemma FirstAttempt(c: Call, trace: seq<Simulated>)
    requires ValidCall(c) && Consistent(c, trace) && trace != []
    ensures Ladder(c, 0, {}, 0) == Ok(trace[0].chosen)
  {
    hide Ladder; hide Observe;
    assert trace[..0] == [];
    assert Follows(c, trace[..0], trace[0]);
  }

  /** If some rung is assembled and fits before any is refused, and the run does not fail fast, the
      burn is simulated at that rung: narrower caps are tried. */
  lemma FittingRungIsSimulated(c: Call, r: Result, trace: seq<Simulated>, rung: nat)
    requires ValidCall(c) && Lawful(c, r, trace)
    requires rung < 1 + |c.policy.fittingMaxAccounts| && !FailsFast(c, 0, {})
    requires Assembled(c, 0, {}, rung) && !TooBig(c, 0, {}, rung)
    requires forall k :: 0 <= k < rung ==> TooBig(c, 0, {}, k)
    ensures trace != [] && trace[0].chosen.rung == rung
  {
    hide Ladder; hide Observe; hide PrepareLegs; hide SplitCodec.Encodable; hide SplitCodec.Encode; hide Retries; hide Follows;
    var first := LadderAnswers(c, 0, {}, 0);
    assert !TooBig(c, 0, {}, rung);
    assert first == rung;
    if trace != [] { FirstAttempt(c, trace); }
  }
}
