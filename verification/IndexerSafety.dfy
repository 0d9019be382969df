/** Safety of the indexing protocol over whole runs: which burns are stored, for every
    sequence of runs, crashes and ledger growth. */
module IndexerSafety {
  import opened Basics
  import opened Indexer
  import BurnDecoder

  // ---------------------------------------------------------------- the invariant

  predicate Stored(legs: Legs, e: Entry) {
    forall r :: r in RowsOf(e) ==> KeyOf(r) in legs && legs[KeyOf(r)] == r
  }

  /** Every successful entry at positions lo..hi has all of its legs stored. */
  predicate Covered(l: Ledger, legs: Legs, lo: nat, hi: nat)
    requires hi <= |l|
  {
    forall i :: lo <= i < hi && !l[i].failed ==> Stored(legs, l[i])
  }

  predicate FromLedger(l: Ledger, row: Row) {
    exists i :: 0 <= i < |l| && !l[i].failed && row in RowsOf(l[i])
  }

  /** Nothing is stored that the ledger does not say. */
  predicate Sound(l: Ledger, legs: Legs) {
    forall k :: k in legs ==> KeyOf(legs[k]) == k && FromLedger(l, legs[k])
  }

  /** Where coverage starts: the ledger's start once the backfill is complete. */
  function BackfillPos(l: Ledger, db: Db): nat {
    if db.backfillComplete || db.backfillBefore == "" then 0 else Pos(l, db.backfillBefore)
  }

  predicate Inv(l: Ledger, db: Db) {
    && ValidLedger(l)
    && Known(l, db.latest) && Known(l, db.backfillBefore)
    && Sound(l, db.legs)
    && (db.latest == "" ==> db.backfillBefore == "")
    && (db.latest != "" && !db.backfillComplete ==>
          db.backfillBefore != "" && Pos(l, db.backfillBefore) < Head(l, db.latest))
    && Covered(l, db.legs, BackfillPos(l, db), Head(l, db.latest))
  }

  /** The hypothesis of the protocol: once something was indexed (or an empty ledger was found
      complete), at most five pages of signatures are newer than the head at each success. */
  predicate KeepsUp(l: Ledger, db: Db, fault: Fault)
    requires Known(l, db.latest)
  {
    fault == NoFault && (db.latest != "" || db.backfillComplete) ==>
      |l| - Head(l, db.latest) <= 500
  }

  // ---------------------------------------------------------------- rows and the table

  lemma {:induction false} InRowsOfAll(entries: seq<Entry>, row: Row)
    ensures row in RowsOfAll(entries) <==> exists e :: e in entries && row in RowsOf(e)
  {
    if entries == [] {
    } else {
      InRowsOfAll(entries[1..], row);
      assert entries == [entries[0]] + entries[1..];
    }
  }

  lemma {:induction false} DedupComplete(l: Ledger, entries: seq<Entry>)
    requires ValidLedger(l) && forall e :: e in entries ==> e in l
    ensures forall e :: e in Dedup(entries) <==> e in entries
    decreases |entries|
  {
    if entries == [] {
    } else {
      var front, last := entries[..|entries| - 1], entries[|entries| - 1];
      assert entries == front + [last];
      DedupComplete(l, front);
      var r := Dedup(front);
      if Seen(r, last.signature) {
        var k :| 0 <= k < |r| && r[k].signature == last.signature;
        assert r[k] in l && last in l;
        assert r[k] == last;
      }
    }
  }

  /** Of entries of one ledger, exactly the successful ones survive. */
  lemma UniqueComplete(l: Ledger, entries: seq<Entry>)
    requires ValidLedger(l) && forall e :: e in entries ==> e in l
    ensures forall e :: e in Unique(entries) <==> e in entries && !e.failed
  {
    DedupComplete(l, entries);
  }

  lemma {:induction false} InsertSpec(legs: Legs, rows: seq<Row>)
    ensures forall k :: k in legs ==> k in Insert(legs, rows) && Insert(legs, rows)[k] == legs[k]
    ensures forall r :: r in rows ==> KeyOf(r) in Insert(legs, rows)
    ensures forall k :: k in Insert(legs, rows) && k !in legs ==>
              Insert(legs, rows)[k] in rows && KeyOf(Insert(legs, rows)[k]) == k
    decreases |rows|
  {
    if rows == [] {
    } else {
      var front := rows[..|rows| - 1];
      assert rows == front + [rows[|rows| - 1]];
      InsertSpec(legs, front);
    }
  }

  lemma RowSignature(e: Entry, row: Row)
    requires row in RowsOf(e)
    ensures row.signature == e.signature
  {
    if e.tx.succeeded {
      BurnDecoder.RowKeysDistinct(e.signature, e.tx, BurnDecoder.LogGroups(e.tx), 0, 0);
    }
  }

  lemma SameKeySameRow(e: Entry, row: Row, row': Row)
    requires row in RowsOf(e) && row' in RowsOf(e) && KeyOf(row) == KeyOf(row')
    ensures row == row'
  {
    if e.tx.succeeded {
      BurnDecoder.RowKeysDistinct(e.signature, e.tx, BurnDecoder.LogGroups(e.tx), 0, 0);
    }
  }

  /** In a sound table a row's key can hold no other row. */
  lemma SoundLookup(l: Ledger, legs: Legs, i: nat, row: Row)
    requires ValidLedger(l) && Sound(l, legs) && i < |l| && row in RowsOf(l[i]) && KeyOf(row) in legs
    ensures legs[KeyOf(row)] == row
  {
    var other := legs[KeyOf(row)];
    var j :| 0 <= j < |l| && !l[j].failed && other in RowsOf(l[j]);
    RowSignature(l[i], row);
    RowSignature(l[j], other);
    assert l[i].signature == l[j].signature;
    assert i == j;
    SameKeySameRow(l[i], row, other);
  }

  /** Inserting rows of ledger entries keeps the table sound and stores those entries. */
  lemma InsertEntries(l: Ledger, legs: Legs, entries: seq<Entry>)
    requires ValidLedger(l) && Sound(l, legs) && forall e :: e in entries ==> e in l
    ensures var legs' := Insert(legs, RowsOfAll(Unique(entries)));
            && Sound(l, legs')
            && (forall e :: e in entries && !e.failed ==> Stored(legs', e))
  {
    var rows := RowsOfAll(Unique(entries));
    UniqueComplete(l, entries);
    InsertPartSound(l, legs, entries, rows);
    var legs' := Insert(legs, rows);
    InsertSpec(legs, rows);
    forall e, r | e in entries && !e.failed && r in RowsOf(e)
      ensures KeyOf(r) in legs' && legs'[KeyOf(r)] == r
    {
      InRowsOfAll(Unique(entries), r);
      var i :| 0 <= i < |l| && l[i] == e;
      SoundLookup(l, legs', i, r);
    }
  }

  lemma InsertPartSound(l: Ledger, legs: Legs, entries: seq<Entry>, part: seq<Row>)
    requires ValidLedger(l) && Sound(l, legs) && forall e :: e in entries ==> e in l
    requires forall r :: r in part ==> r in RowsOfAll(Unique(entries))
    ensures Sound(l, Insert(legs, part))
  {
    InsertSpec(legs, part);
    UniqueComplete(l, entries);
    var legs' := Insert(legs, part);
    forall k | k in legs' ensures KeyOf(legs'[k]) == k && FromLedger(l, legs'[k]) {
      if k !in legs {
        InRowsOfAll(Unique(entries), legs'[k]);
        var e :| e in Unique(entries) && legs'[k] in RowsOf(e);
        assert e in l && !e.failed;
        var i :| 0 <= i < |l| && l[i] == e;
      }
    }
  }

  /** A table only grows, so what was stored stays stored. */
  lemma InsertKeepsStored(legs: Legs, rows: seq<Row>, e: Entry)
    requires Stored(legs, e)
    ensures Stored(Insert(legs, rows), e)
  {
    InsertSpec(legs, rows);
  }

  // ---------------------------------------------------------------- one run

  lemma InNewest(l: Ledger, lo: nat, hi: nat)
    requires lo <= hi <= |l|
    ensures forall e :: e in Newest(l, lo, hi) ==> e in l
    ensures forall i :: lo <= i < hi ==> l[i] in Newest(l, lo, hi)
  {
    var r := Newest(l, lo, hi);
    forall i | lo <= i < hi ensures l[i] in r { assert r[hi - 1 - i] == l[i]; }
  }

  lemma FetchedEntries(db: Db, l: Ledger)
    requires Known(l, db.latest) && Known(l, db.backfillBefore)
    ensures forall e :: e in Fetched(db, l) ==> e in l
    ensures forall i :: IncrementalFrom(db, l) <= i < |l| ==> l[i] in Fetched(db, l)
    ensures Backfilling(db) ==>
              forall i :: BackfillFrom(db, l) <= i < Pos(l, db.backfillBefore) ==> l[i] in Fetched(db, l)
  {
    InNewest(l, IncrementalFrom(db, l), |l|);
    if Backfilling(db) { InNewest(l, BackfillFrom(db, l), Pos(l, db.backfillBefore)); }
  }

  /** The newest entry seen first becomes the head: nothing older ever does. */
  lemma CommitHead(db: Db, l: Ledger)
    requires ValidLedger(l) && Known(l, db.latest) && Known(l, db.backfillBefore)
    ensures Known(l, Commit(db, l).latest) && Head(l, Commit(db, l).latest) == |l|
  {
    if IncrementalFrom(db, l) < |l| { PosOfEntry(l, |l| - 1); }
  }

  /** Backfill positions after a commit. */
  lemma CommitBackfill(db: Db, l: Ledger)
    requires Inv(l, db)
    ensures var db' := Commit(db, l);
            && Known(l, db'.backfillBefore)
            && (db'.latest == "" ==> db'.backfillBefore == "")
            && (db'.latest != "" && !db'.backfillComplete ==>
                  db'.backfillBefore != "" && Pos(l, db'.backfillBefore) < |l|)
            && (Backfilling(db) ==> BackfillPos(l, db') == BackfillFrom(db, l))
            && (db.latest == "" && !db.backfillComplete ==> BackfillPos(l, db') == IncrementalFrom(db, l))
            && (db.latest != "" && db.backfillComplete ==> db'.backfillComplete)
  {
    var from := IncrementalFrom(db, l);
    if db.latest == "" {
      if |l| - from >= SIGNATURE_PAGE { PosOfEntry(l, from); }
    } else if Backfilling(db) {
      var lo := BackfillFrom(db, l);
      if lo < Pos(l, db.backfillBefore) { PosOfEntry(l, lo); }
    }
  }

  lemma CommitKeepsInv(db: Db, l: Ledger)
    requires Inv(l, db) && KeepsUp(l, db, NoFault)
    ensures Inv(l, Commit(db, l))
  {
    var db' := Commit(db, l);
    CommitHead(db, l);
    CommitBackfill(db, l);
    FetchedEntries(db, l);
    InsertEntries(l, db.legs, Fetched(db, l));
    forall i | BackfillPos(l, db') <= i < |l| && !l[i].failed
      ensures Stored(db'.legs, l[i])
    {
      if l[i] !in Fetched(db, l) {
        assert BackfillPos(l, db) <= i < Head(l, db.latest);
        InsertKeepsStored(db.legs, NewRows(db, l), l[i]);
      }
    }
  }

  lemma FaultKeepsInv(db: Db, l: Ledger, fault: Fault)
    requires Inv(l, db) && fault != NoFault
    ensures Inv(l, RunResult(db, l, fault))
  {
    if fault.DuringStore? {
      var rows := NewRows(db, l);
      var part := if fault.batches * STORE_BATCH < |rows| then rows[..fault.batches * STORE_BATCH] else rows;
      FetchedEntries(db, l);
      InsertPartSound(l, db.legs, Fetched(db, l), part);
      forall i | BackfillPos(l, db) <= i < Head(l, db.latest) && !l[i].failed
        ensures Stored(Insert(db.legs, part), l[i])
      {
        InsertKeepsStored(db.legs, part, l[i]);
      }
    }
  }

  /** Growth of the ledger alone breaks nothing. */
  lemma InvInExtension(l: Ledger, l': Ledger, db: Db)
    requires Inv(l, db) && l <= l' && ValidLedger(l')
    ensures Inv(l', db)
  {
    KnownInExtension(l, l', db.latest);
    KnownInExtension(l, l', db.backfillBefore);
    if db.backfillBefore != "" { PosInExtension(l, l', db.backfillBefore); }
    forall row | FromLedger(l, row) ensures FromLedger(l', row) {
      var i :| 0 <= i < |l| && !l[i].failed && row in RowsOf(l[i]);
      assert l'[i] == l[i];
    }
    forall i | BackfillPos(l', db) <= i < Head(l', db.latest) && !l'[i].failed
      ensures Stored(db.legs, l'[i])
    {
      assert l'[i] == l[i];
    }
  }

  /** A run that keeps the invariant: any fault, any growth since the previous run. */
  lemma RunKeepsInv(l: Ledger, l': Ledger, db: Db, fault: Fault)
    requires Inv(l, db) && l <= l' && ValidLedger(l')
    requires Known(l', db.latest) && KeepsUp(l', db, fault)
    ensures Inv(l', db)
    ensures Inv(l', RunResult(db, l', fault))
  {
    InvInExtension(l, l', db);
    if fault == NoFault { CommitKeepsInv(db, l'); } else { FaultKeepsInv(db, l', fault); }
  }

  /** Each successful run moves an incomplete backfill strictly older, or completes it; a
      faulty run moves no cursor. */
  lemma BackfillProgress(l: Ledger, db: Db, fault: Fault)
    requires Inv(l, db) && Backfilling(db)
    ensures var db' := RunResult(db, l, fault);
            if fault == NoFault then
              db'.backfillComplete ||
              (&& db'.backfillBefore != ""
               && Pos(l, db'.backfillBefore) == Pos(l, db.backfillBefore) - 100)
            else
              db'.latest == db.latest && db'.backfillBefore == db.backfillBefore
              && db'.backfillComplete == db.backfillComplete
  {
    if fault == NoFault {
      var lo, p := BackfillFrom(db, l), Pos(l, db.backfillBefore);
      if lo < p { PosOfEntry(l, lo); }
    }
  }

  /** The indexed slot is the highest of the slots fetched and the slot before; a failed run keeps it. */
  lemma SlotIsHighest(l: Ledger, db: Db, fault: Fault)
    requires Known(l, db.latest) && Known(l, db.backfillBefore)
    ensures var slot := RunResult(db, l, fault).lastSlot;
            if fault == NoFault then
              && slot >= db.lastSlot && (forall e :: e in Fetched(db, l) ==> slot >= e.slot)
              && (slot == db.lastSlot || exists e :: e in Fetched(db, l) && slot == e.slot)
            else slot == db.lastSlot
  {
    HighestSlot(Fetched(db, l), db.lastSlot);
  }

  lemma {:induction false} HighestSlot(entries: seq<Entry>, floor: nat)
    ensures var slot := NewestSlot(entries, floor);
            && slot >= floor && (forall e :: e in entries ==> slot >= e.slot)
            && (slot == floor || exists e :: e in entries && slot == e.slot)
  {
    if entries == [] {
    } else {
      var front := entries[..|entries| - 1];
      HighestSlot(front, floor);
      assert entries == front + [entries[|entries| - 1]];
    }
  }

  // ---------------------------------------------------------------- exactly when coverage survives

  /** The entries newer than the head that five pages do not reach. */
  predicate GapStored(l: Ledger, db: Db)
    requires Known(l, db.latest)
  {
    Covered(l, db.legs, Head(l, db.latest), IncrementalFrom(db, l))
  }

  /** New rows carry the signatures of the entries they were fetched with. */
  lemma NewRowSignatures(db: Db, l: Ledger, i: nat)
    requires ValidLedger(l) && Known(l, db.latest) && Known(l, db.backfillBefore) && i < |l| && l[i] !in Fetched(db, l)
    ensures forall r :: r in NewRows(db, l) ==> r.signature != l[i].signature
  {
    FetchedEntries(db, l);
    UniqueComplete(l, Fetched(db, l));
    forall r | r in NewRows(db, l) ensures r.signature != l[i].signature {
      InRowsOfAll(Unique(Fetched(db, l)), r);
      var e :| e in Unique(Fetched(db, l)) && r in RowsOf(e);
      var j :| 0 <= j < |l| && l[j] == e;
      RowSignature(e, r);
      assert j != i;
    }
  }

  /** A run stores nothing of an entry it did not fetch, however far it gets. */
  lemma StoredBefore(db: Db, l: Ledger, i: nat, part: seq<Row>)
    requires ValidLedger(l) && Known(l, db.latest) && Known(l, db.backfillBefore) && i < |l| && l[i] !in Fetched(db, l)
    requires forall r :: r in part ==> r in NewRows(db, l)
    requires Stored(Insert(db.legs, part), l[i])
    ensures Stored(db.legs, l[i])
  {
    InsertSpec(db.legs, part);
    NewRowSignatures(db, l, i);
    forall r | r in RowsOf(l[i]) ensures KeyOf(r) in db.legs { RowSignature(l[i], r); }
  }

  lemma NewestHas(l: Ledger, lo: nat, hi: nat, i: nat)
    requires ValidLedger(l) && lo <= hi <= |l| && i < |l|
    ensures l[i] in Newest(l, lo, hi) <==> lo <= i < hi
  {
    var r := Newest(l, lo, hi);
    if lo <= i < hi { assert r[hi - 1 - i] == l[i]; }
    if l[i] in r {
      var k :| 0 <= k < |r| && r[k] == l[i];
      assert l[hi - 1 - k].signature == l[i].signature;
    }
  }

  lemma NotFetched(db: Db, l: Ledger, i: nat)
    requires Inv(l, db) && (db.latest != "" || db.backfillComplete)
    requires Head(l, db.latest) <= i < IncrementalFrom(db, l)
    ensures l[i] !in Fetched(db, l)
  {
    hide ValidLedger; hide Newest; hide Stored; hide Sound; hide Covered;
    NewestHas(l, IncrementalFrom(db, l), |l|, i);
    if Backfilling(db) { NewestHas(l, BackfillFrom(db, l), Pos(l, db.backfillBefore), i); }
  }

  /** A successful run of an established index keeps coverage exactly when every entry it
      skipped over was already stored; with at most 500 new signatures it skips none. */
  lemma CoverageExact(l: Ledger, db: Db)
    requires Inv(l, db) && (db.latest != "" || db.backfillComplete)
    ensures Inv(l, Commit(db, l)) <==> GapStored(l, db)
    ensures KeepsUp(l, db, NoFault) ==> GapStored(l, db)
  {
    var db' := Commit(db, l);
    CommitHead(db, l);
    CommitBackfill(db, l);
    FetchedEntries(db, l);
    InsertEntries(l, db.legs, Fetched(db, l));
    if GapStored(l, db) {
      forall i | BackfillPos(l, db') <= i < |l| && !l[i].failed
        ensures Stored(db'.legs, l[i])
      {
        if l[i] !in Fetched(db, l) { InsertKeepsStored(db.legs, NewRows(db, l), l[i]); }
      }
    }
    if Inv(l, db') {
      forall i | Head(l, db.latest) <= i < IncrementalFrom(db, l) && !l[i].failed
        ensures Stored(db.legs, l[i])
      {
        NotFetched(db, l, i);
        StoredBefore(db, l, i, NewRows(db, l));
      }
    }
  }

  // ---------------------------------------------------------------- every run sequence

  datatype Run = Run(ledger: Ledger, fault: Fault)

  /** Runs against a ledger that only grows, whether or not the index keeps up. */
  predicate Growth(l: Ledger, db: Db, runs: seq<Run>)
    decreases |runs|
  {
    runs == [] ||
    var run := runs[0];
    && l <= run.ledger && ValidLedger(run.ledger)
    && Known(run.ledger, db.latest) && Known(run.ledger, db.backfillBefore)
    && Growth(run.ledger, RunResult(db, run.ledger, run.fault), runs[1..])
  }

  /** A schedule the environment may produce: the ledger only grows and the index keeps up. */
  predicate Schedule(l: Ledger, db: Db, runs: seq<Run>): (possible: bool)
    ensures possible ==> Growth(l, db, runs)
    decreases |runs|
  {
    runs == [] ||
    var run := runs[0];
    && l <= run.ledger && ValidLedger(run.ledger)
    && Known(run.ledger, db.latest) && Known(run.ledger, db.backfillBefore)
    && KeepsUp(run.ledger, db, run.fault)
    && Schedule(run.ledger, RunResult(db, run.ledger, run.fault), runs[1..])
  }

  function LastLedger(l: Ledger, runs: seq<Run>): Ledger {
    if runs == [] then l else runs[|runs| - 1].ledger
  }

  function AfterRuns(l: Ledger, db: Db, runs: seq<Run>): Db
    requires Growth(l, db, runs)
    decreases |runs|
  {
    if runs == [] then db
    else AfterRuns(runs[0].ledger, RunResult(db, runs[0].ledger, runs[0].fault), runs[1..])
  }

  lemma {:induction false} RunsKeepInv(l: Ledger, db: Db, runs: seq<Run>)
    requires Inv(l, db) && Schedule(l, db, runs)
    ensures Inv(LastLedger(l, runs), AfterRuns(l, db, runs))
    decreases |runs|
  {
    if runs == [] {
    } else {
      var run := runs[0];
      RunKeepsInv(l, run.ledger, db, run.fault);
      RunsKeepInv(run.ledger, RunResult(db, run.ledger, run.fault), runs[1..]);
    }
  }

  /** From an empty database, after any schedule: all successful burns from the backfill
      position up to the stored head are stored, nothing else is, and an incomplete backfill
      has a cursor below the head. */
  lemma EverySchedule(runs: seq<Run>)
    requires Schedule([], EMPTY, runs)
    ensures Inv(LastLedger([], runs), AfterRuns([], EMPTY, runs))
  {
    RunsKeepInv([], EMPTY, runs);
  }

  // ---------------------------------------------------------------- what is skipped is lost

  /** An entry that no cursor will reach again: below the head, not older than a running
      backfill, and not stored. */
  predicate Lost(l: Ledger, db: Db, i: nat) {
    && ValidLedger(l) && Known(l, db.latest) && Known(l, db.backfillBefore)
    && db.latest != "" && i < Head(l, db.latest)
    && (Backfilling(db) ==> Pos(l, db.backfillBefore) <= i)
    && !Stored(db.legs, l[i])
  }

  lemma LostNotFetched(l: Ledger, db: Db, i: nat)
    requires Lost(l, db, i)
    ensures l[i] !in Fetched(db, l)
  {
    hide ValidLedger; hide Newest; hide Stored;
    NewestHas(l, IncrementalFrom(db, l), |l|, i);
    if Backfilling(db) { NewestHas(l, BackfillFrom(db, l), Pos(l, db.backfillBefore), i); }
  }

  /** No later run brings it back: any fault, any growth of the ledger, any number of new
      signatures. */
  lemma RunKeepsLost(l: Ledger, l': Ledger, db: Db, fault: Fault, i: nat)
    requires Lost(l, db, i) && l <= l' && ValidLedger(l')
    ensures Lost(l', db, i) && Lost(l', RunResult(db, l', fault), i)
  {
    hide Stored; hide Insert; hide NewestSlot;
    KnownInExtension(l, l', db.latest);
    KnownInExtension(l, l', db.backfillBefore);
    if db.backfillBefore != "" { PosInExtension(l, l', db.backfillBefore); }
    assert l'[i] == l[i];
    LostNotFetched(l', db, i);
    var rows := NewRows(db, l');
    var part := match fault
      case NoFault => rows
      case BeforeStore => []
      case DuringStore(batches) => if batches * STORE_BATCH < |rows| then rows[..batches * STORE_BATCH] else rows;
    if Stored(Insert(db.legs, part), l'[i]) { StoredBefore(db, l', i, part); }
    if fault == NoFault {
      CommitHead(db, l');
      BackfillStaysOlder(l', db);
    } else if fault == BeforeStore {
      assert RunResult(db, l', fault) == db;
    }
  }

  /** A running backfill only moves to older entries. */
  lemma BackfillStaysOlder(l: Ledger, db: Db)
    requires ValidLedger(l) && Known(l, db.latest) && Known(l, db.backfillBefore) && db.latest != ""
    ensures var db' := Commit(db, l);
            && db'.latest != "" && Known(l, db'.backfillBefore)
            && (Backfilling(db') ==> Backfilling(db) && Pos(l, db'.backfillBefore) <= Pos(l, db.backfillBefore))
  {
    hide Insert; hide NewestSlot; hide NewRows;
    if Backfilling(db) {
      var lo := BackfillFrom(db, l);
      if lo < Pos(l, db.backfillBefore) { PosOfEntry(l, lo); }
    }
  }

  predicate LedgerGrows(l: Ledger, runs: seq<Run>)
    decreases |runs|
  {
    runs == [] || (l <= runs[0].ledger && ValidLedger(runs[0].ledger) && LedgerGrows(runs[0].ledger, runs[1..]))
  }

  /** After every later sequence of runs, faults and growth the entry is still not stored. */
  lemma {:induction false} LostForGood(l: Ledger, db: Db, i: nat, runs: seq<Run>)
    requires Lost(l, db, i) && LedgerGrows(l, runs)
    ensures Growth(l, db, runs) && Lost(LastLedger(l, runs), AfterRuns(l, db, runs), i)
    decreases |runs|
  {
    hide *;
    if runs == [] {
      NoRuns(l, db);
    } else {
      var run := runs[0];
      FirstGrowth(l, runs);
      RunKeepsLost(l, run.ledger, db, run.fault, i);
      LostIsKnown(run.ledger, db, i);
      LostForGood(run.ledger, RunResult(db, run.ledger, run.fault), i, runs[1..]);
      FirstRun(l, db, runs);
    }
  }

  lemma NoRuns(l: Ledger, db: Db)
    ensures Growth(l, db, []) && LastLedger(l, []) == l && AfterRuns(l, db, []) == db
  {
  }

  lemma FirstGrowth(l: Ledger, runs: seq<Run>)
    requires LedgerGrows(l, runs) && runs != []
    ensures l <= runs[0].ledger && ValidLedger(runs[0].ledger) && LedgerGrows(runs[0].ledger, runs[1..])
  {
    hide ValidLedger;
  }

  /** A sequence of runs is its first run and the rest. */
  lemma FirstRun(l: Ledger, db: Db, runs: seq<Run>)
    requires runs != [] && l <= runs[0].ledger && ValidLedger(runs[0].ledger)
    requires Known(runs[0].ledger, db.latest) && Known(runs[0].ledger, db.backfillBefore)
    requires Growth(runs[0].ledger, RunResult(db, runs[0].ledger, runs[0].fault), runs[1..])
    ensures Growth(l, db, runs)
    ensures LastLedger(l, runs) == LastLedger(runs[0].ledger, runs[1..])
    ensures AfterRuns(l, db, runs)
         == AfterRuns(runs[0].ledger, RunResult(db, runs[0].ledger, runs[0].fault), runs[1..])
  {
    hide RunResult; hide ValidLedger; hide Known;
  }

  lemma LostIsKnown(l: Ledger, db: Db, i: nat)
    requires Lost(l, db, i)
    ensures Known(l, db.latest) && Known(l, db.backfillBefore)
  {
  }

  /** A successful run of an established index loses exactly what it skips unstored. */
  lemma SkippedIsLost(l: Ledger, db: Db, i: nat)
    requires Inv(l, db) && (db.latest != "" || db.backfillComplete)
    requires Head(l, db.latest) <= i < IncrementalFrom(db, l)
    ensures Lost(l, Commit(db, l), i) <==> !Stored(db.legs, l[i])
  {
    hide Stored; hide Insert; hide NewestSlot; hide Covered; hide Sound;
    var db' := Commit(db, l);
    CommitHead(db, l);
    CommitBackfill(db, l);
    NotFetched(db, l, i);
    if Stored(db'.legs, l[i]) { StoredBefore(db, l, i, NewRows(db, l)); }
    if Stored(db.legs, l[i]) { InsertKeepsStored(db.legs, NewRows(db, l), l[i]); }
    if Backfilling(db) { assert Pos(l, db.backfillBefore) <= i; }
    if Backfilling(db') && Backfilling(db) { BackfillStaysOlder(l, db); }
  }

  /** The bound of 500 cannot be dropped, even for a fresh index: after a first run on an empty
      ledger, a burn that is the oldest of 501 signatures at the next successful run is never
      stored by it or any later run, although the index reports a complete backfill. */
  lemma OldestOf501IsLost(l: Ledger, runs: seq<Run>)
    requires ValidLedger(l) && |l| == 501 && !l[0].failed && RowsOf(l[0]) != [] && LedgerGrows(l, runs)
    ensures var first := RunResult(EMPTY, [], NoFault);
            var second := RunResult(first, l, NoFault);
            && second.backfillComplete && Head(l, second.latest) == |l|
            && Growth(l, second, runs) && !Stored(AfterRuns(l, second, runs).legs, l[0])
  {
    var first := RunResult(EMPTY, [], NoFault);
    assert first.backfillComplete && first.latest == "" && first.legs == map[];
    assert Inv(l, first);
    CommitHead(first, l);
    assert RowsOf(l[0])[0] in RowsOf(l[0]);
    assert !Stored(first.legs, l[0]);
    SkippedIsLost(l, first, 0);
    LostForGood(l, RunResult(first, l, NoFault), 0, runs);
    SameFirst(l, runs);
  }

  lemma {:induction false} SameFirst(l: Ledger, runs: seq<Run>)
    requires l != [] && LedgerGrows(l, runs)
    ensures LastLedger(l, runs) != [] && LastLedger(l, runs)[0] == l[0]
    decreases |runs|
  {
    if runs == [] {
    } else {
      SameFirst(runs[0].ledger, runs[1..]);
    }
  }
}
