/** End to end: once the backfill is complete, what the leaderboard adds up for a vault is what
    the ledger's indexed burn instructions spent, however often runs crashed and repeated. */
module Conservation {
  import opened Basics
  import opened Indexer
  import opened IndexerSafety
  import Aggregation
  import BurnDecoder
  import BurnLogs

  /** The rows every finalized successful transaction should leave. */
  function LedgerRows(l: Ledger): seq<Row> {
    if l == [] then []
    else LedgerRows(l[..|l| - 1]) + if l[|l| - 1].failed then [] else RowsOf(l[|l| - 1])
  }

  /** What the ledger's indexed instructions spent on a vault. */
  function LedgerTotal(l: Ledger, vault: string): int {
    if l == [] then 0
    else LedgerTotal(l[..|l| - 1], vault)
         + if l[|l| - 1].failed then 0
           else BurnDecoder.IndexedTotal(l[|l| - 1].signature, l[|l| - 1].tx, vault)
  }

  /** The vault query: every stored row of the vault, once. */
  ghost predicate Lists(rows: seq<Row>, legs: Legs, vault: string) {
    && NoDuplicates(rows)
    && (forall r :: r in rows <==> r.vault == vault && KeyOf(r) in legs && legs[KeyOf(r)] == r)
  }

  function OfVault(rows: seq<Row>, vault: string): seq<Row> {
    if rows == [] then []
    else (if rows[0].vault == vault then [rows[0]] else []) + OfVault(rows[1..], vault)
  }

  lemma {:induction false} InOfVault(rows: seq<Row>, vault: string)
    ensures forall r :: r in OfVault(rows, vault) <==> r in rows && r.vault == vault
    ensures NoDuplicates(rows) ==> NoDuplicates(OfVault(rows, vault))
  {
    if rows == [] {
    } else {
      InOfVault(rows[1..], vault);
      assert rows == [rows[0]] + rows[1..];
      if NoDuplicates(rows) {
        assert forall i :: 0 <= i < |rows[1..]| ==> rows[1..][i] == rows[i + 1];
        DistinctConcat(if rows[0].vault == vault then [rows[0]] else [], OfVault(rows[1..], vault));
      }
    }
  }

  lemma {:induction false} SolOfVault(rows: seq<Row>, vault: string)
    ensures Aggregation.Sol(OfVault(rows, vault)) == BurnDecoder.VaultLamports(rows, vault)
  {
    if rows == [] {
    } else {
      SolOfVault(rows[1..], vault);
      var own := if rows[0].vault == vault then [rows[0]] else [];
      Aggregation.FieldsOfConcat(own, OfVault(rows[1..], vault));
      Aggregation.SnocFields([], rows[0]);
      assert [] + [rows[0]] == [rows[0]];
    }
  }

  lemma {:induction false} LedgerTotalIsRows(l: Ledger, vault: string)
    ensures BurnDecoder.VaultLamports(LedgerRows(l), vault) == LedgerTotal(l, vault)
  {
    if l == [] {
    } else {
      var e := l[|l| - 1];
      LedgerTotalIsRows(l[..|l| - 1], vault);
      BurnDecoder.TransactionConserves(e.signature, e.tx, vault);
      BurnDecoder.VaultLamportsAppend(LedgerRows(l[..|l| - 1]), if e.failed then [] else RowsOf(e), vault);
    }
  }

  lemma {:induction false} InLedgerRows(l: Ledger, row: Row)
    ensures row in LedgerRows(l) <==> FromLedger(l, row)
  {
    hide RowsOf;
    if l == [] {
    } else {
      var front, e := l[..|l| - 1], l[|l| - 1];
      InLedgerRows(front, row);
      if FromLedger(l, row) {
        var i :| 0 <= i < |l| && !l[i].failed && row in RowsOf(l[i]);
        if i < |front| { assert front[i] == l[i]; }
      }
      if FromLedger(front, row) {
        var i :| 0 <= i < |front| && !front[i].failed && row in RowsOf(front[i]);
        assert l[i] == front[i];
      }
    }
  }

  predicate NoDuplicates(rows: seq<Row>) {
    forall i, j :: 0 <= i < j < |rows| ==> rows[i] != rows[j]
  }

  lemma KeyedRowsDistinct(rows: seq<Row>)
    requires BurnDecoder.DistinctKeys(rows)
    ensures NoDuplicates(rows)
  {
  }

  lemma DecodedKeys(e: Entry)
    ensures BurnDecoder.DistinctKeys(RowsOf(e))
  {
    hide BurnDecoder.RowsFrom;
    if e.tx.succeeded { BurnDecoder.RowKeysDistinct(e.signature, e.tx, BurnDecoder.LogGroups(e.tx), 0, 0); }
  }

  lemma {:induction false} LedgerRowsDistinct(l: Ledger)
    requires ValidLedger(l)
    ensures NoDuplicates(LedgerRows(l))
  {
    if l == [] {
    } else {
      var front, e := l[..|l| - 1], l[|l| - 1];
      LedgerRowsDistinct(front);
      DecodedKeys(e);
      hide RowsOf; hide LedgerRows;
      KeyedRowsDistinct(RowsOf(e));
      var a := LedgerRows(front);
      forall r | r in a ensures r !in RowsOf(e) {
        InLedgerRows(front, r);
        var i :| 0 <= i < |front| && !front[i].failed && r in RowsOf(front[i]);
        RowSignature(front[i], r);
        assert front[i] == l[i] && l[i].signature != e.signature;
        if r in RowsOf(e) { RowSignature(e, r); }
      }
      DistinctConcat(a, if e.failed then [] else RowsOf(e));
      LedgerRowsOf(l);
    }
  }

  lemma LedgerRowsOf(l: Ledger)
    requires l != []
    ensures LedgerRows(l) == LedgerRows(l[..|l| - 1]) + if l[|l| - 1].failed then [] else RowsOf(l[|l| - 1])
  {
  }

  lemma DistinctConcat(a: seq<Row>, b: seq<Row>)
    requires NoDuplicates(a) && NoDuplicates(b) && forall r :: r in a ==> r !in b
    ensures NoDuplicates(a + b)
  {
    forall i, j | 0 <= i < j < |a + b| ensures (a + b)[i] != (a + b)[j] {
      if i < |a| && j >= |a| { assert (a + b)[i] in a && (a + b)[j] in b; }
    }
  }

  lemma {:induction false} CountOfDistinct(rows: seq<Row>, row: Row)
    requires NoDuplicates(rows)
    ensures multiset(rows)[row] == if row in rows then 1 else 0
  {
    if rows == [] {
    } else {
      var front, last := rows[..|rows| - 1], rows[|rows| - 1];
      assert rows == front + [last];
      assert forall i :: 0 <= i < |front| ==> front[i] == rows[i];
      CountOfDistinct(front, row);
    }
  }

  lemma SameElementsSameMultiset(a: seq<Row>, b: seq<Row>)
    requires NoDuplicates(a) && NoDuplicates(b)
    requires forall r :: r in a <==> r in b
    ensures multiset(a) == multiset(b)
  {
    forall r ensures multiset(a)[r] == multiset(b)[r] {
      CountOfDistinct(a, r);
      CountOfDistinct(b, r);
    }
  }

  /** Right after a successful run that leaves the backfill complete, the table holds exactly
      the rows of the ledger that run saw: partial batches of crashed runs have been filled,
      and nothing was counted twice. */
  lemma TableIsLedger(l: Ledger, db: Db, rows: seq<Row>, vault: string)
    requires Inv(l, db) && KeepsUp(l, db, NoFault)
    requires var db' := Commit(db, l); db'.backfillComplete && Lists(rows, db'.legs, vault)
    ensures multiset(rows) == multiset(OfVault(LedgerRows(l), vault))
  {
    var db' := Commit(db, l);
    CommitKeepsInv(db, l);
    CommitHead(db, l);
    LedgerRowsDistinct(l);
    InOfVault(LedgerRows(l), vault);
    forall r ensures r in rows <==> r in LedgerRows(l) && r.vault == vault {
      InLedgerRows(l, r);
      if FromLedger(l, r) {
        var i :| 0 <= i < |l| && !l[i].failed && r in RowsOf(l[i]);
        assert Stored(db'.legs, l[i]);
      }
    }
    SameElementsSameMultiset(rows, OfVault(LedgerRows(l), vault));
  }

  lemma EmptyKept()
    ensures Inv([], EMPTY)
  {
  }

  /** The vault totals of a complete index are the totals of the ledger's indexed calls. */
  lemma VaultTotalsConserved(runs: seq<Run>, rows: seq<Row>, vault: string)
    requires runs != [] && runs[|runs| - 1].fault == NoFault && Schedule([], EMPTY, runs)
    requires var db := AfterRuns([], EMPTY, runs); db.backfillComplete && Lists(rows, db.legs, vault)
    ensures Aggregation.Summarize(rows).solLamports == LedgerTotal(LastLedger([], runs), vault)
  {
    hide Schedule; hide Growth; hide Lists; hide Commit; hide LedgerRows; hide OfVault; hide LedgerTotal; hide KeepsUp;
    hide Inv; hide Known;
    EmptyKept();
    var front, last := runs[..|runs| - 1], runs[|runs| - 1];
    ScheduleSplit([], EMPTY, runs);
    RunsKeepInv([], EMPTY, front);
    var db := AfterRuns([], EMPTY, front);
    InvInExtension(LastLedger([], front), last.ledger, db);
    TableIsLedger(last.ledger, db, rows, vault);
    Aggregation.FieldsOfPermutation(rows, OfVault(LedgerRows(last.ledger), vault));
    SolOfVault(LedgerRows(last.ledger), vault);
    LedgerTotalIsRows(last.ledger, vault);
  }

  // ---------------------------------------------------------------- down to the printed calls

  /** Every transaction the ledger indexes printed its log with the given frames. */
  ghost predicate AllPrinted(l: Ledger, frames: seq<seq<Option<BurnLogs.Frame>>>) {
    |frames| == |l| && forall k :: 0 <= k < |l| && Indexed(l[k]) ==> BurnDecoder.Printed(l[k].tx, frames[k])
  }

  predicate Indexed(e: Entry) { !e.failed && e.tx.succeeded }

  /** The totals of all split calls on the vault whose own frame logged the matching pairs. */
  function PrintedTotal(l: Ledger, frames: seq<seq<Option<BurnLogs.Frame>>>, vault: string): int
    requires |frames| == |l| && forall k :: 0 <= k < |l| && Indexed(l[k]) ==> |frames[k]| == |l[k].tx.instructions|
  {
    if l == [] then 0
    else
      var n := |l| - 1;
      PrintedTotal(l[..n], frames[..n], vault)
      + if Indexed(l[n]) then BurnDecoder.OwnTotals(l[n].tx, frames[n], vault, 0) else 0
  }

  lemma {:induction false} LedgerTotalIsPrinted(l: Ledger, frames: seq<seq<Option<BurnLogs.Frame>>>, vault: string)
    requires AllPrinted(l, frames)
    ensures LedgerTotal(l, vault) == PrintedTotal(l, frames, vault)
  {
    if l == [] {
    } else {
      var n := |l| - 1;
      LedgerTotalIsPrinted(l[..n], frames[..n], vault);
      if Indexed(l[n]) { BurnDecoder.IndexedIsOwn(l[n].signature, l[n].tx, frames[n], vault); }
    }
  }

  /** End to end for printed transactions: the leaderboard's vault total is what the vault's split
      calls spent, each counted once and only if its own frame logged its burn. */
  lemma VaultTotalsArePrinted(runs: seq<Run>, rows: seq<Row>, vault: string, frames: seq<seq<Option<BurnLogs.Frame>>>)
    requires runs != [] && runs[|runs| - 1].fault == NoFault && Schedule([], EMPTY, runs)
    requires var db := AfterRuns([], EMPTY, runs); db.backfillComplete && Lists(rows, db.legs, vault)
    requires AllPrinted(LastLedger([], runs), frames)
    ensures Aggregation.Summarize(rows).solLamports == PrintedTotal(LastLedger([], runs), frames, vault)
  {
    hide Schedule; hide AfterRuns; hide Lists; hide AllPrinted;
    VaultTotalsConserved(runs, rows, vault);
    LedgerTotalIsPrinted(LastLedger([], runs), frames, vault);
  }

  /** A schedule is a shorter schedule and one more run. */
  lemma {:induction false} ScheduleSplit(l: Ledger, db: Db, runs: seq<Run>)
    requires runs != [] && Schedule(l, db, runs)
    ensures var front, last := runs[..|runs| - 1], runs[|runs| - 1];
            && Schedule(l, db, front)
            && var before := AfterRuns(l, db, front);
               && LastLedger(l, front) <= last.ledger && ValidLedger(last.ledger)
               && Known(last.ledger, before.latest) && Known(last.ledger, before.backfillBefore)
               && KeepsUp(last.ledger, before, last.fault)
               && AfterRuns(l, db, runs) == RunResult(before, last.ledger, last.fault)
    decreases |runs|
  {
    hide RunResult; hide ValidLedger; hide Known; hide KeepsUp;
    if |runs| == 1 {
    } else {
      var run := runs[0];
      var tail := runs[1..];
      ScheduleSplit(run.ledger, RunResult(db, run.ledger, run.fault), tail);
      assert runs[..|runs| - 1][1..] == tail[..|tail| - 1];
    }
  }
}
