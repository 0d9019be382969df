/** Decoding a finalized transaction into ledger rows (decodeBurnTransaction of
    app/community-indexer.ts): instruction data, account list and log groups must agree. */
module BurnDecoder {
  import opened Arith
  import opened Basics
  import BurnLogs
  import SplitAmounts
  import SplitCodec

  datatype Instruction = Instruction(programIdIndex: nat, accounts: seq<nat>, data: string)

  datatype Transaction = Transaction(
    slot: nat,
    blockTime: Option<int>,
    succeeded: bool,                    // meta present and its err null
    staticKeys: seq<string>,
    loadedWritable: seq<string>,
    loadedReadonly: seq<string>,
    instructions: seq<Instruction>,
    logs: seq<BurnLogs.Line>)

  datatype Row = Row(
    signature: string, instructionIndex: nat, legIndex: nat, slot: nat, blockTime: Option<int>,
    launchMint: string, vault: string, targetMint: string, referencePool: string,
    bps: nat, solLamports: int, burnedAtoms: nat)

  function AccountKeys(tx: Transaction): seq<string> {
    tx.staticKeys + tx.loadedWritable + tx.loadedReadonly
  }

  /** `accountKeys[i]`, where a missing or empty key is falsy. */
  function Key(keys: seq<string>, i: nat): Option<string> {
    if i < |keys| && keys[i] != "" then Some(keys[i]) else None
  }

  predicate IsBurnerCall(tx: Transaction, instruction: Instruction) {
    var keys := AccountKeys(tx);
    instruction.programIdIndex < |keys| && keys[instruction.programIdIndex] == BurnLogs.BURNER
  }

  /** The split an instruction carries, if it is a burner call that decodes as one. */
  function CallSplit(tx: Transaction, i: nat): Option<SplitCodec.Split>
    requires i < |tx.instructions|
  {
    var instruction := tx.instructions[i];
    if IsBurnerCall(tx, instruction) then SplitCodec.DecodeInstruction(instruction.data) else None
  }

  /** Everything one leg of a call needs before it may become a row. */
  predicate LegMatches(keys: seq<string>, accounts: seq<nat>, amounts: seq<int>, log: seq<nat>, leg: nat)
    requires |accounts| >= 8 + |amounts| * 7 && |log| == |amounts| * 2 && leg < |amounts|
  {
    && Key(keys, accounts[8 + leg * 7]).Some?
    && Key(keys, accounts[11 + leg * 7]).Some?
    && log[leg * 2] == amounts[leg]
    && log[leg * 2 + 1] > 0
  }

  predicate CallMatches(tx: Transaction, i: nat, split: SplitCodec.Split, log: Option<seq<nat>>)
    requires i < |tx.instructions|
  {
    var keys, accounts := AccountKeys(tx), tx.instructions[i].accounts;
    var amounts := SplitAmounts.Shares(split.total, split.weights);
    && log.Some? && |log.value| == |split.weights| * 2
    && |accounts| >= 8 + |split.weights| * 7
    && Key(keys, accounts[4]).Some? && Key(keys, accounts[2]).Some?
    && forall leg :: 0 <= leg < |split.weights| ==> LegMatches(keys, accounts, amounts, log.value, leg)
  }

  function LegRow(signature: string, tx: Transaction, i: nat, split: SplitCodec.Split, log: Option<seq<nat>>, leg: nat): Row
    requires i < |tx.instructions| && CallMatches(tx, i, split, log) && leg < |split.weights|
  {
    var keys, accounts := AccountKeys(tx), tx.instructions[i].accounts;
    assert LegMatches(keys, accounts, SplitAmounts.Shares(split.total, split.weights), log.value, leg);
    Row(signature, i, leg, tx.slot, tx.blockTime,
        Key(keys, accounts[4]).value, Key(keys, accounts[2]).value,
        Key(keys, accounts[8 + leg * 7]).value, Key(keys, accounts[11 + leg * 7]).value,
        split.weights[leg], SplitAmounts.Shares(split.total, split.weights)[leg], log.value[leg * 2 + 1])
  }

  /** The rows of one split call against one log group: all of them or none. */
  function CallRows(signature: string, tx: Transaction, i: nat, split: SplitCodec.Split, log: Option<seq<nat>>): seq<Row>
    requires i < |tx.instructions|
  {
    if CallMatches(tx, i, split, log)
    then seq(|split.weights|, leg requires 0 <= leg < |split.weights| => LegRow(signature, tx, i, split, log, leg))
    else []
  }

  function Group(groups: seq<seq<nat>>, k: nat): Option<seq<nat>> {
    if k < |groups| then Some(groups[k]) else None
  }

  /** The scan from instruction i on, with the k-th log group next in line. */
  function RowsFrom(signature: string, tx: Transaction, groups: seq<seq<nat>>, i: nat, k: nat): seq<Row>
    requires i <= |tx.instructions|
    decreases |tx.instructions| - i
  {
    if i == |tx.instructions| then []
    else match CallSplit(tx, i)
      case None => RowsFrom(signature, tx, groups, i + 1, k)
      case Some(split) =>
        CallRows(signature, tx, i, split, Group(groups, k)) + RowsFrom(signature, tx, groups, i + 1, k + 1)
  }

  function LogGroups(tx: Transaction): seq<seq<nat>> {
    BurnLogs.Groups(tx.logs)
  }

  function Decode(signature: string, tx: Transaction): seq<Row> {
    if !tx.succeeded then [] else RowsFrom(signature, tx, LogGroups(tx), 0, 0)
  }

  method DecodeBurnTransaction(signature: string, tx: Transaction) returns (rows: seq<Row>)
    ensures rows == Decode(signature, tx)
  {
    hide CallRows; hide Group; hide AccountKeys; hide SplitCodec.DecodeInstruction; hide BurnLogs.Groups;
    if !tx.succeeded { return []; }
    var accountKeys := AccountKeys(tx);
    var logGroups := BurnLogs.BurnLogGroups(tx.logs);
    rows := [];
    var burnCall := 0;
    for i := 0 to |tx.instructions|
      invariant rows + RowsFrom(signature, tx, logGroups, i, burnCall) == RowsFrom(signature, tx, logGroups, 0, 0)
    {
      var instruction := tx.instructions[i];
      if !IsBurnerCall(tx, instruction) { continue; }
      var split := SplitCodec.DecodeSplit(instruction.data);
      if split == None { continue; }
      var candidate := DecodeCall(signature, tx, i, split.value, Group(logGroups, burnCall));
      assert rows + (candidate + RowsFrom(signature, tx, logGroups, i + 1, burnCall + 1))
          == rows + candidate + RowsFrom(signature, tx, logGroups, i + 1, burnCall + 1);
      burnCall := burnCall + 1;
      rows := rows + candidate;
    }
  }

  method DecodeCall(signature: string, tx: Transaction, i: nat, split: SplitCodec.Split, log: Option<seq<nat>>)
    returns (candidate: seq<Row>)
    requires i < |tx.instructions|
    ensures candidate == CallRows(signature, tx, i, split, log)
  {
    var keys, accounts := AccountKeys(tx), tx.instructions[i].accounts;
    var amounts := SplitAmounts.SplitAmounts(split.total, split.weights);
    if log == None || |log.value| != |split.weights| * 2 { return []; }
    if |accounts| < 8 + |split.weights| * 7 { return []; }
    var launchMint, vault := Key(keys, accounts[4]), Key(keys, accounts[2]);
    if launchMint == None || vault == None { return []; }
    candidate := [];
    for leg := 0 to |split.weights|
      invariant |candidate| == leg
      invariant forall l :: 0 <= l < leg ==>
        LegMatches(keys, accounts, amounts, log.value, l) &&
        candidate[l] == Row(signature, i, l, tx.slot, tx.blockTime, launchMint.value, vault.value,
                            Key(keys, accounts[8 + l * 7]).value, Key(keys, accounts[11 + l * 7]).value,
                            split.weights[l], amounts[l], log.value[l * 2 + 1])
    {
      var targetMint := Key(keys, accounts[8 + leg * 7]);
      var referencePool := Key(keys, accounts[11 + leg * 7]);
      if targetMint == None || referencePool == None || log.value[leg * 2] != amounts[leg] || log.value[leg * 2 + 1] <= 0 {
        assert !LegMatches(keys, accounts, amounts, log.value, leg);
        return [];
      }
      candidate := candidate + [Row(signature, i, leg, tx.slot, tx.blockTime, launchMint.value, vault.value,
                                    targetMint.value, referencePool.value,
                                    split.weights[leg], amounts[leg], log.value[leg * 2 + 1])];
    }
  }

  // ---------------------------------------------------------------- all or nothing

  function Lamports(rows: seq<Row>): seq<int> {
    seq(|rows|, i requires 0 <= i < |rows| => rows[i].solLamports)
  }

  /** A call leaves all of its legs, in order, with lamports that sum to the instruction's
      total, each with a positive burn; or it leaves nothing. */
  lemma CallAllOrNothing(signature: string, tx: Transaction, i: nat, log: Option<seq<nat>>)
    requires i < |tx.instructions| && CallSplit(tx, i).Some?
    ensures var split := CallSplit(tx, i).value;
            var rows := CallRows(signature, tx, i, split, log);
            rows == [] ||
            (&& |rows| == |split.weights|
             && SplitAmounts.Sum(Lamports(rows)) == split.total
             && forall l :: 0 <= l < |rows| ==>
                  rows[l].instructionIndex == i && rows[l].legIndex == l && rows[l].burnedAtoms > 0
                  && rows[l].vault == rows[0].vault && rows[l].solLamports >= 0)
  {
    var split := CallSplit(tx, i).value;
    var rows := CallRows(signature, tx, i, split, log);
    SplitCodec.DecodedIsValid(tx.instructions[i].data);
    if rows != [] {
      assert Lamports(rows) == SplitAmounts.Shares(split.total, split.weights);
      SplitAmounts.SharesSumToTotal(split.total, split.weights);
      forall l | 0 <= l < |rows| ensures rows[l].burnedAtoms > 0 && rows[l].solLamports >= 0 {
        assert LegMatches(AccountKeys(tx), tx.instructions[i].accounts, SplitAmounts.Shares(split.total, split.weights), log.value, l);
      }
    }
  }

  /** Rows say what was logged: the log of a call that left rows is, leg by leg, the row's lamports and
      its burned atoms, and nothing else. */
  lemma RowsAreLogged(signature: string, tx: Transaction, i: nat, split: SplitCodec.Split, log: Option<seq<nat>>)
    requires i < |tx.instructions|
    ensures var rows := CallRows(signature, tx, i, split, log);
            rows == [] ||
            (&& log.Some? && |log.value| == 2 * |rows|
             && forall l :: 0 <= l < |rows| ==>
                  log.value[l * 2] == rows[l].solLamports && log.value[l * 2 + 1] == rows[l].burnedAtoms > 0)
  {
    hide Key;
    var rows := CallRows(signature, tx, i, split, log);
    if rows != [] {
      forall l: nat | l < |rows|
        ensures log.value[l * 2] == rows[l].solLamports && log.value[l * 2 + 1] == rows[l].burnedAtoms > 0
      {
        assert LegMatches(AccountKeys(tx), tx.instructions[i].accounts, SplitAmounts.Shares(split.total, split.weights), log.value, l);
      }
    }
  }

  predicate DistinctKeys(rows: seq<Row>) {
    forall a, b :: 0 <= a < b < |rows| ==>
      rows[a].instructionIndex != rows[b].instructionIndex || rows[a].legIndex != rows[b].legIndex
  }

  predicate FromInstruction(rows: seq<Row>, signature: string, i: nat) {
    forall a :: 0 <= a < |rows| ==> rows[a].signature == signature && rows[a].instructionIndex >= i
  }

  lemma NoKeys(signature: string, i: nat)
    ensures FromInstruction([], signature, i) && DistinctKeys([])
  {
  }

  lemma PrependCall(signature: string, own: seq<Row>, rest: seq<Row>, i: nat)
    requires forall a :: 0 <= a < |own| ==>
      own[a].signature == signature && own[a].instructionIndex == i && own[a].legIndex == a
    requires FromInstruction(rest, signature, i + 1) && DistinctKeys(rest)
    ensures FromInstruction(own + rest, signature, i) && DistinctKeys(own + rest)
  {
  }

  lemma CallRowKeys(signature: string, tx: Transaction, i: nat, split: SplitCodec.Split, log: Option<seq<nat>>)
    requires i < |tx.instructions|
    ensures var rows := CallRows(signature, tx, i, split, log);
            forall a :: 0 <= a < |rows| ==>
              rows[a].signature == signature && rows[a].instructionIndex == i && rows[a].legIndex == a
  {
    hide CallMatches; hide LegMatches; hide Key; hide SplitAmounts.Shares;
  }

  /** Rows never repeat a (transaction, instruction, leg) key. */
  lemma {:induction false} RowKeysDistinct(signature: string, tx: Transaction, groups: seq<seq<nat>>, i: nat, k: nat)
    requires i <= |tx.instructions|
    ensures var rows := RowsFrom(signature, tx, groups, i, k); FromInstruction(rows, signature, i) && DistinctKeys(rows)
    decreases |tx.instructions| - i
  {
    hide CallSplit; hide CallRows; hide Group; hide DistinctKeys;
    if i == |tx.instructions| {
      NoKeys(signature, i);
    } else {
      match CallSplit(tx, i)
      case None => RowKeysDistinct(signature, tx, groups, i + 1, k);
      case Some(split) =>
        RowKeysDistinct(signature, tx, groups, i + 1, k + 1);
        CallRowKeys(signature, tx, i, split, Group(groups, k));
        PrependCall(signature, CallRows(signature, tx, i, split, Group(groups, k)),
                    RowsFrom(signature, tx, groups, i + 1, k + 1), i);
    }
  }

  // ---------------------------------------------------------------- alignment with the log

  /** The transaction printed its log while running its instructions in order: each prints one
      frame of its own program, except that an instruction of another program may print nothing
      (a precompile does); a split call logs something, and any other burner call no burn. */
  ghost predicate Printed(tx: Transaction, frames: seq<Option<BurnLogs.Frame>>) {
    && |frames| == |tx.instructions|
    && tx.logs == BurnLogs.Print(Calls(frames), 0)
    && forall i :: 0 <= i < |frames| ==>
         && (IsBurnerCall(tx, tx.instructions[i]) <==> frames[i].Some? && frames[i].value.program == BurnLogs.BURNER)
         && (IsBurnerCall(tx, tx.instructions[i]) ==>
               (CallSplit(tx, i).Some? <==> BurnLogs.FrameValues(frames[i].value) != []))
  }

  function Calls(frames: seq<Option<BurnLogs.Frame>>): seq<BurnLogs.Item> {
    if frames == [] then []
    else (if frames[0].Some? then [BurnLogs.Call(frames[0].value)] else []) + Calls(frames[1..])
  }

  /** What an instruction's own frame logged. */
  function OwnLog(frame: Option<BurnLogs.Frame>): Option<seq<nat>> {
    if frame.Some? then Some(BurnLogs.FrameValues(frame.value)) else None
  }

  /** What the rows should be: every split call against the log of its own frame. */
  function OwnRows(signature: string, tx: Transaction, frames: seq<Option<BurnLogs.Frame>>, i: nat): seq<Row>
    requires i <= |frames| == |tx.instructions|
    decreases |frames| - i
  {
    if i == |frames| then [] else OwnCallRows(signature, tx, frames, i) + OwnRows(signature, tx, frames, i + 1)
  }

  function OwnCallRows(signature: string, tx: Transaction, frames: seq<Option<BurnLogs.Frame>>, i: nat): seq<Row>
    requires i < |frames| == |tx.instructions|
  {
    match CallSplit(tx, i)
    case None => []
    case Some(split) => CallRows(signature, tx, i, split, OwnLog(frames[i]))
  }

  /** The k-th decoded split is matched with the log of its own call, whatever other programs,
      silent instructions and read-only burner calls surround it. */
  lemma SplitsMatchTheirOwnLogs(signature: string, tx: Transaction, frames: seq<Option<BurnLogs.Frame>>)
    requires tx.succeeded && Printed(tx, frames)
    ensures Decode(signature, tx) == OwnRows(signature, tx, frames, 0)
  {
    BurnLogs.ParsePrinted(Calls(frames));
    assert frames[0..] == frames;
    AlignedFrom(signature, tx, frames, BurnLogs.Groups(tx.logs), 0, 0);
  }

  lemma {:induction false} AlignedFrom(signature: string, tx: Transaction, frames: seq<Option<BurnLogs.Frame>>,
                                       groups: seq<seq<nat>>, i: nat, k: nat)
    requires Printed(tx, frames) && i <= |frames| && k <= |groups|
    requires groups[k..] == BurnLogs.NonEmpty(BurnLogs.TopLevelGroups(Calls(frames[i..])))
    ensures RowsFrom(signature, tx, groups, i, k) == OwnRows(signature, tx, frames, i)
    decreases |frames| - i
  {
    if i == |frames| {
    } else {
      var rest := BurnLogs.NonEmpty(BurnLogs.TopLevelGroups(Calls(frames[i + 1..])));
      FirstGroup(frames[i..]);
      assert frames[i..][1..] == frames[i + 1..];
      if CallSplit(tx, i).Some? {
        assert groups[k..] == [BurnLogs.FrameValues(frames[i].value)] + rest;
        assert groups[k] == groups[k..][0] && groups[k + 1..] == groups[k..][1..];
        AlignedFrom(signature, tx, frames, groups, i + 1, k + 1);
      } else {
        AlignedFrom(signature, tx, frames, groups, i + 1, k);
        assert [] + OwnRows(signature, tx, frames, i + 1) == OwnRows(signature, tx, frames, i + 1);
      }
    }
  }

  lemma FirstGroup(frames: seq<Option<BurnLogs.Frame>>)
    requires frames != []
    ensures var rest := BurnLogs.NonEmpty(BurnLogs.TopLevelGroups(Calls(frames[1..])));
            BurnLogs.NonEmpty(BurnLogs.TopLevelGroups(Calls(frames)))
            == if frames[0].Some? && frames[0].value.program == BurnLogs.BURNER && BurnLogs.FrameValues(frames[0].value) != []
               then [BurnLogs.FrameValues(frames[0].value)] + rest else rest
  {
    var calls := Calls(frames[1..]);
    var tail := BurnLogs.TopLevelGroups(calls);
    if frames[0].None? {
      assert Calls(frames) == calls;
    } else {
      assert Calls(frames)[1..] == calls;
      if frames[0].value.program == BurnLogs.BURNER {
        assert ([BurnLogs.FrameValues(frames[0].value)] + tail)[1..] == tail;
      } else {
        assert [] + tail == tail;
      }
    }
  }

  // ---------------------------------------------------------------- conservation

  function VaultLamports(rows: seq<Row>, vault: string): int {
    if rows == [] then 0
    else (if rows[0].vault == vault then rows[0].solLamports else 0) + VaultLamports(rows[1..], vault)
  }

  /** The totals of the instructions that were indexed, for one vault. */
  function CallTotals(signature: string, tx: Transaction, groups: seq<seq<nat>>, vault: string, i: nat, k: nat): int
    requires i <= |tx.instructions|
    decreases |tx.instructions| - i
  {
    if i == |tx.instructions| then 0
    else match CallSplit(tx, i)
      case None => CallTotals(signature, tx, groups, vault, i + 1, k)
      case Some(split) =>
        var rows := CallRows(signature, tx, i, split, Group(groups, k));
        (if rows != [] && rows[0].vault == vault then split.total else 0)
        + CallTotals(signature, tx, groups, vault, i + 1, k + 1)
  }

  function IndexedTotal(signature: string, tx: Transaction, vault: string): int {
    if !tx.succeeded then 0 else CallTotals(signature, tx, BurnLogs.Groups(tx.logs), vault, 0, 0)
  }

  lemma {:induction false} VaultLamportsAppend(a: seq<Row>, b: seq<Row>, vault: string)
    ensures VaultLamports(a + b, vault) == VaultLamports(a, vault) + VaultLamports(b, vault)
  {
    if a == [] {
      assert a + b == b;
    } else {
      assert (a + b)[1..] == a[1..] + b;
      VaultLamportsAppend(a[1..], b, vault);
    }
  }

  lemma {:induction false} VaultLamportsOfOneVault(rows: seq<Row>, vault: string)
    requires forall l :: 0 <= l < |rows| ==> rows[l].vault == rows[0].vault
    ensures VaultLamports(rows, vault)
         == if rows != [] && rows[0].vault == vault then SplitAmounts.Sum(Lamports(rows)) else 0
    decreases |rows|
  {
    if rows == [] {
    } else {
      var front, last := rows[..|rows| - 1], rows[|rows| - 1];
      VaultLamportsOfOneVault(front, vault);
      VaultLamportsAppend(front, [last], vault);
      assert front + [last] == rows;
      SplitAmounts.SumSnoc(Lamports(front), last.solLamports);
      assert Lamports(rows) == Lamports(front) + [last.solLamports];
      if front == [] { assert VaultLamports([last], vault) == if last.vault == vault then last.solLamports else 0; }
    }
  }

  /** Per transaction, a vault's row lamports are exactly the totals of its indexed calls. */
  lemma TransactionConserves(signature: string, tx: Transaction, vault: string)
    ensures VaultLamports(Decode(signature, tx), vault) == IndexedTotal(signature, tx, vault)
  {
    if tx.succeeded { ConservedFrom(signature, tx, BurnLogs.Groups(tx.logs), vault, 0, 0); }
  }

  lemma {:induction false} ConservedFrom(signature: string, tx: Transaction, groups: seq<seq<nat>>, vault: string, i: nat, k: nat)
    requires i <= |tx.instructions|
    ensures VaultLamports(RowsFrom(signature, tx, groups, i, k), vault) == CallTotals(signature, tx, groups, vault, i, k)
    decreases |tx.instructions| - i
  {
    hide *;
    OneInstruction(signature, tx, groups, vault, i, k);
    if i < |tx.instructions| {
      match CallSplit(tx, i)
      case None => ConservedFrom(signature, tx, groups, vault, i + 1, k);
      case Some(split) =>
        ConservedFrom(signature, tx, groups, vault, i + 1, k + 1);
        CallAllOrNothing(signature, tx, i, Group(groups, k));
        var own := CallRows(signature, tx, i, split, Group(groups, k));
        VaultLamportsOfOneVault(own, vault);
        VaultLamportsAppend(own, RowsFrom(signature, tx, groups, i + 1, k + 1), vault);
    }
  }

  lemma OneInstruction(signature: string, tx: Transaction, groups: seq<seq<nat>>, vault: string, i: nat, k: nat)
    requires i <= |tx.instructions|
    ensures i == |tx.instructions| ==>
      VaultLamports(RowsFrom(signature, tx, groups, i, k), vault) == 0 == CallTotals(signature, tx, groups, vault, i, k)
    ensures i < |tx.instructions| ==>
      match CallSplit(tx, i)
      case None =>
        && RowsFrom(signature, tx, groups, i, k) == RowsFrom(signature, tx, groups, i + 1, k)
        && CallTotals(signature, tx, groups, vault, i, k) == CallTotals(signature, tx, groups, vault, i + 1, k)
      case Some(split) =>
        var own := CallRows(signature, tx, i, split, Group(groups, k));
        && RowsFrom(signature, tx, groups, i, k) == own + RowsFrom(signature, tx, groups, i + 1, k + 1)
        && CallTotals(signature, tx, groups, vault, i, k)
           == (if own != [] && own[0].vault == vault then split.total else 0) + CallTotals(signature, tx, groups, vault, i + 1, k + 1)
  {
    hide CallRows; hide CallSplit; hide Group;
  }

  /** Instruction i is a split call on the vault whose own frame logged the matching pairs. */
  predicate OwnCall(tx: Transaction, frames: seq<Option<BurnLogs.Frame>>, vault: string, i: nat)
    requires i < |frames| == |tx.instructions|
  {
    CallSplit(tx, i).Some? && CallMatches(tx, i, CallSplit(tx, i).value, OwnLog(frames[i])) &&
    Key(AccountKeys(tx), tx.instructions[i].accounts[2]) == Some(vault)
  }

  function OwnTotal(tx: Transaction, frames: seq<Option<BurnLogs.Frame>>, vault: string, i: nat): int
    requires i < |frames| == |tx.instructions|
  {
    if OwnCall(tx, frames, vault, i) then CallSplit(tx, i).value.total else 0
  }

  /** The totals of those calls. */
  function OwnTotals(tx: Transaction, frames: seq<Option<BurnLogs.Frame>>, vault: string, i: nat): int
    requires i <= |frames| == |tx.instructions|
    decreases |frames| - i
  {
    if i == |frames| then 0
    else OwnTotal(tx, frames, vault, i) + OwnTotals(tx, frames, vault, i + 1)
  }

  /** For a printed transaction the indexed totals are those of the calls that logged them. */
  lemma IndexedIsOwn(signature: string, tx: Transaction, frames: seq<Option<BurnLogs.Frame>>, vault: string)
    requires tx.succeeded && Printed(tx, frames)
    ensures IndexedTotal(signature, tx, vault) == OwnTotals(tx, frames, vault, 0)
  {
    TransactionConserves(signature, tx, vault);
    SplitsMatchTheirOwnLogs(signature, tx, frames);
    OwnRowsTotal(signature, tx, frames, vault, 0);
  }

  lemma {:induction false} OwnRowsTotal(signature: string, tx: Transaction, frames: seq<Option<BurnLogs.Frame>>, vault: string, i: nat)
    requires i <= |frames| == |tx.instructions|
    ensures VaultLamports(OwnRows(signature, tx, frames, i), vault) == OwnTotals(tx, frames, vault, i)
    decreases |frames| - i
  {
    hide *;
    OwnStep(signature, tx, frames, vault, i);
    if i == |frames| {
    } else {
      OwnRowsTotal(signature, tx, frames, vault, i + 1);
      OwnCallTotal(signature, tx, frames, vault, i);
      VaultLamportsAppend(OwnCallRows(signature, tx, frames, i), OwnRows(signature, tx, frames, i + 1), vault);
    }
  }

  lemma OwnStep(signature: string, tx: Transaction, frames: seq<Option<BurnLogs.Frame>>, vault: string, i: nat)
    requires i <= |frames| == |tx.instructions|
    ensures i == |frames| ==>
      VaultLamports(OwnRows(signature, tx, frames, i), vault) == 0 && OwnTotals(tx, frames, vault, i) == 0
    ensures i < |frames| ==>
      && OwnRows(signature, tx, frames, i) == OwnCallRows(signature, tx, frames, i) + OwnRows(signature, tx, frames, i + 1)
      && OwnTotals(tx, frames, vault, i) == OwnTotal(tx, frames, vault, i) + OwnTotals(tx, frames, vault, i + 1)
  {
    hide OwnCallRows; hide OwnTotal;
  }

  lemma OwnCallTotal(signature: string, tx: Transaction, frames: seq<Option<BurnLogs.Frame>>, vault: string, i: nat)
    requires i < |frames| == |tx.instructions|
    ensures VaultLamports(OwnCallRows(signature, tx, frames, i), vault) == OwnTotal(tx, frames, vault, i)
  {
    hide CallRows; hide CallMatches; hide CallSplit; hide Key; hide OwnLog;
    if CallSplit(tx, i).Some? { CallTotal(signature, tx, i, OwnLog(frames[i]), vault); }
  }

  lemma CallTotal(signature: string, tx: Transaction, i: nat, log: Option<seq<nat>>, vault: string)
    requires i < |tx.instructions| && CallSplit(tx, i).Some?
    ensures var split := CallSplit(tx, i).value;
            VaultLamports(CallRows(signature, tx, i, split, log), vault)
            == if CallMatches(tx, i, split, log) && Key(AccountKeys(tx), tx.instructions[i].accounts[2]) == Some(vault)
               then split.total else 0
  {
    var split := CallSplit(tx, i).value;
    SplitCodec.DecodedIsValid(tx.instructions[i].data);
    CallAllOrNothing(signature, tx, i, log);
    VaultLamportsOfOneVault(CallRows(signature, tx, i, split, log), vault);
  }
}
