/** From the instruction the builder assembles (quote-service/core.ts:968-1008) to the rows the
    indexer reads back: accounts, weights and logged burns all return to their own legs. */
module BurnInstruction {
  import opened Basics
  import opened BurnDecoder
  import Base58
  import BurnLogs
  import SplitAmounts
  import SplitCodec

  // ---------------------------------------------------------------- the builder's account list

  datatype BuiltLeg = BuiltLeg(
    targetMint: string, targetAta: string, targetTokenProgram: string,
    pool: string, vaultA: string, vaultB: string, feeSource: string,
    bps: nat, minimumOutput: nat, route: seq<string>, routeData: seq<byte>)

  /** Everything the instruction names; the last three keys are the system, token and aggregator
      programs. */
  datatype Burn = Burn(
    feePayer: string, burner: string, vault: string, wsolAta: string, launchMint: string,
    system: string, token: string, aggregator: string, amount: nat, legs: seq<BuiltLeg>)

  function LegKeys(leg: BuiltLeg): seq<string> {
    [leg.targetMint, leg.targetAta, leg.targetTokenProgram, leg.pool, leg.vaultA, leg.vaultB, leg.feeSource]
  }

  function AllLegKeys(legs: seq<BuiltLeg>): (r: seq<string>)
    ensures |r| == 7 * |legs|
  {
    if legs == [] then [] else LegKeys(legs[0]) + AllLegKeys(legs[1..])
  }

  function RouteKeys(legs: seq<BuiltLeg>): seq<string> {
    if legs == [] then [] else legs[0].route + RouteKeys(legs[1..])
  }

  /** Eight fixed accounts, seven per leg, then every leg's route. */
  function BurnKeys(b: Burn): seq<string> {
    [b.feePayer, b.burner, b.vault, b.wsolAta, b.launchMint, b.system, b.token, b.aggregator]
    + AllLegKeys(b.legs) + RouteKeys(b.legs)
  }

  function Wire(legs: seq<BuiltLeg>): (r: seq<SplitCodec.Leg>)
    ensures |r| == |legs|
  {
    seq(|legs|, i requires 0 <= i < |legs| =>
      SplitCodec.Leg(legs[i].bps, legs[i].minimumOutput, |legs[i].route|, legs[i].routeData))
  }

  lemma {:induction false} LegKeyAt(legs: seq<BuiltLeg>, l: nat, k: nat)
    requires l < |legs| && k < 7
    ensures AllLegKeys(legs)[7 * l + k] == LegKeys(legs[l])[k]
  {
    if l == 0 {
    } else {
      LegKeyAt(legs[1..], l - 1, k);
    }
  }

  // ---------------------------------------------------------------- the instruction on the ledger

  /** Instruction i of the transaction is this burn: the encoded data, and account indexes that
      resolve to the builder's keys in order. */
  ghost predicate Carries(tx: Transaction, i: nat, b: Burn) {
    && i < |tx.instructions|
    && IsBurnerCall(tx, tx.instructions[i])
    && SplitCodec.ValidSplit(b.amount, Wire(b.legs))
    && tx.instructions[i].data == Base58.Encode(SplitCodec.Encode(b.amount, Wire(b.legs)))
    && |tx.instructions[i].accounts| == |BurnKeys(b)|
    && forall k :: 0 <= k < |BurnKeys(b)| ==>
         BurnKeys(b)[k] != "" && Key(AccountKeys(tx), tx.instructions[i].accounts[k]) == Some(BurnKeys(b)[k])
  }

  function Bps(b: Burn): (w: seq<nat>)
    ensures |w| == |b.legs|
  {
    seq(|b.legs|, l requires 0 <= l < |b.legs| => b.legs[l].bps)
  }

  /** The program logged, leg by leg, the leg's share of the amount and a positive burn. */
  predicate LogsBurns(b: Burn, burned: seq<nat>, log: seq<nat>) {
    && |burned| == |b.legs| && |log| == 2 * |b.legs|
    && forall l :: 0 <= l < |b.legs| ==>
         log[2 * l] == SplitAmounts.Shares(b.amount, Bps(b))[l] && log[2 * l + 1] == burned[l] > 0
  }

  /** The row of leg l, in the builder's own terms. */
  function LegAsBuilt(signature: string, tx: Transaction, i: nat, b: Burn, burned: seq<nat>, l: nat): Row
    requires l < |b.legs| == |burned|
  {
    Row(signature, i, l, tx.slot, tx.blockTime, b.launchMint, b.vault, b.legs[l].targetMint, b.legs[l].pool,
        b.legs[l].bps, SplitAmounts.Shares(b.amount, Bps(b))[l], burned[l])
  }

  function AsBuilt(signature: string, tx: Transaction, i: nat, b: Burn, burned: seq<nat>): seq<Row>
    requires |b.legs| == |burned|
  {
    seq(|b.legs|, l requires 0 <= l < |b.legs| => LegAsBuilt(signature, tx, i, b, burned, l))
  }

  lemma SplitOfCall(tx: Transaction, i: nat, b: Burn)
    requires Carries(tx, i, b)
    ensures CallSplit(tx, i) == Some(SplitCodec.Split(b.amount, Bps(b)))
  {
    SplitCodec.InstructionRoundTrip(b.amount, Wire(b.legs));
    assert SplitCodec.Weights(Wire(b.legs)) == Bps(b);
  }

  lemma AccountsOfCall(tx: Transaction, i: nat, b: Burn, l: nat)
    requires Carries(tx, i, b) && l < |b.legs|
    ensures var keys, accounts := AccountKeys(tx), tx.instructions[i].accounts;
            && |accounts| >= 8 + 7 * |b.legs|
            && Key(keys, accounts[2]) == Some(b.vault) && Key(keys, accounts[4]) == Some(b.launchMint)
            && Key(keys, accounts[8 + l * 7]) == Some(b.legs[l].targetMint)
            && Key(keys, accounts[11 + l * 7]) == Some(b.legs[l].pool)
  {
    hide AccountKeys; hide Key; hide AllLegKeys;
    LegKeyAt(b.legs, l, 0);
    LegKeyAt(b.legs, l, 3);
    assert BurnKeys(b)[2] == b.vault && BurnKeys(b)[4] == b.launchMint;
    assert BurnKeys(b)[8 + 7 * l] == AllLegKeys(b.legs)[7 * l] && BurnKeys(b)[8 + (7 * l + 3)] == AllLegKeys(b.legs)[7 * l + 3];
  }

  /** The call decodes to one row per leg with exactly the builder's accounts, weights and shares. */
  lemma CallAsBuilt(signature: string, tx: Transaction, i: nat, b: Burn, burned: seq<nat>, log: seq<nat>)
    requires Carries(tx, i, b) && LogsBurns(b, burned, log)
    ensures CallRows(signature, tx, i, SplitCodec.Split(b.amount, Bps(b)), Some(log)) == AsBuilt(signature, tx, i, b, burned)
  {
    hide Carries; hide Key; hide AccountKeys; hide SplitAmounts.Shares;
    CarriesLegs(tx, i, b);
    var split := SplitCodec.Split(b.amount, Bps(b));
    var keys, accounts := AccountKeys(tx), tx.instructions[i].accounts;
    AccountsOfCall(tx, i, b, 0);
    forall l: nat | l < |b.legs|
      ensures LegMatches(keys, accounts, SplitAmounts.Shares(b.amount, Bps(b)), log, l)
    {
      AccountsOfCall(tx, i, b, l);
      assert log[2 * l] == SplitAmounts.Shares(b.amount, Bps(b))[l] && log[2 * l + 1] == burned[l] > 0;
      assert l * 2 == 2 * l;
    }
    assert CallMatches(tx, i, split, Some(log));
    var rows := CallRows(signature, tx, i, split, Some(log));
    forall l: nat | l < |b.legs| ensures rows[l] == LegAsBuilt(signature, tx, i, b, burned, l) {
      AccountsOfCall(tx, i, b, l);
      assert Bps(b)[l] == b.legs[l].bps && l * 2 + 1 == 2 * l + 1;
      assert rows[l] == LegRow(signature, tx, i, split, Some(log), l);
      assert log[l * 2 + 1] == burned[l];
    }
  }

  lemma CarriesLegs(tx: Transaction, i: nat, b: Burn)
    requires Carries(tx, i, b)
    ensures i < |tx.instructions| && b.legs != []
  {
  }

  // ---------------------------------------------------------------- the whole transaction

  /** The rows a transaction leaves for one of its instructions. */
  function AtInstruction(rows: seq<Row>, i: nat): seq<Row> {
    if rows == [] then []
    else (if rows[0].instructionIndex == i then [rows[0]] else []) + AtInstruction(rows[1..], i)
  }

  lemma {:induction false} AtInstructionAppend(a: seq<Row>, b: seq<Row>, i: nat)
    ensures AtInstruction(a + b, i) == AtInstruction(a, i) + AtInstruction(b, i)
  {
    if a == [] {
      assert a + b == b;
    } else {
      assert (a + b)[1..] == a[1..] + b;
      AtInstructionAppend(a[1..], b, i);
    }
  }

  lemma {:induction false} AllOrNoneAt(rows: seq<Row>, i: nat, j: nat)
    requires forall a :: 0 <= a < |rows| ==> rows[a].instructionIndex == j
    ensures AtInstruction(rows, i) == if i == j then rows else []
  {
    if rows == [] {
    } else {
      AllOrNoneAt(rows[1..], i, j);
    }
  }

  lemma {:induction false} OwnRowsAt(signature: string, tx: Transaction, frames: seq<Option<BurnLogs.Frame>>, i: nat, from: nat)
    requires from <= |frames| == |tx.instructions| && i < |frames|
    ensures AtInstruction(OwnRows(signature, tx, frames, from), i)
            == if from <= i then OwnCallRows(signature, tx, frames, i) else []
    decreases |frames| - from
  {
    hide *;
    OwnRowsStep(signature, tx, frames, i, from);
    if from < |frames| {
      OwnRowsAt(signature, tx, frames, i, from + 1);
      var own, rest := OwnCallRows(signature, tx, frames, from), OwnRows(signature, tx, frames, from + 1);
      AtInstructionAppend(own, rest, i);
      OwnIndex(signature, tx, frames, from);
      AllOrNoneAt(own, i, from);
      assert own + [] == own && [] + AtInstruction(rest, i) == AtInstruction(rest, i);
    }
  }

  lemma OwnRowsStep(signature: string, tx: Transaction, frames: seq<Option<BurnLogs.Frame>>, i: nat, from: nat)
    requires from <= |frames| == |tx.instructions|
    ensures from == |frames| ==> AtInstruction(OwnRows(signature, tx, frames, from), i) == []
    ensures from < |frames| ==>
      OwnRows(signature, tx, frames, from) == OwnCallRows(signature, tx, frames, from) + OwnRows(signature, tx, frames, from + 1)
  {
    hide OwnCallRows;
  }

  lemma OwnIndex(signature: string, tx: Transaction, frames: seq<Option<BurnLogs.Frame>>, i: nat)
    requires i < |frames| == |tx.instructions|
    ensures var own := OwnCallRows(signature, tx, frames, i); forall a :: 0 <= a < |own| ==> own[a].instructionIndex == i
  {
    hide CallRows;
    if CallSplit(tx, i).Some? { CallRowKeys(signature, tx, i, CallSplit(tx, i).value, OwnLog(frames[i])); }
  }

  /** Built, landed, printed and decoded: whatever else the transaction runs, the rows it leaves for
      the burn are one per leg, with exactly the builder's launch mint, vault, target mint, pool,
      weight and share, and the atoms the program logged for that leg. */
  lemma RoundTrip(signature: string, tx: Transaction, frames: seq<Option<BurnLogs.Frame>>, i: nat, b: Burn, burned: seq<nat>)
    requires tx.succeeded && Printed(tx, frames) && Carries(tx, i, b)
    requires frames[i].Some? && LogsBurns(b, burned, BurnLogs.FrameValues(frames[i].value))
    ensures AtInstruction(Decode(signature, tx), i) == AsBuilt(signature, tx, i, b, burned)
  {
    hide Printed; hide Carries; hide AtInstruction; hide AsBuilt;
    FramesFit(tx, frames);
    CarriesLegs(tx, i, b);
    SplitsMatchTheirOwnLogs(signature, tx, frames);
    OwnRowsAt(signature, tx, frames, i, 0);
    SplitOfCall(tx, i, b);
    CallAsBuilt(signature, tx, i, b, burned, BurnLogs.FrameValues(frames[i].value));
  }

  lemma FramesFit(tx: Transaction, frames: seq<Option<BurnLogs.Frame>>)
    requires Printed(tx, frames)
    ensures |frames| == |tx.instructions|
  {
  }
}
