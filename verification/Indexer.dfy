/** The cron-driven indexer of app/community-indexer.ts: an incremental scan from the newest
    finalized signature down to the stored head, one page of historical backfill per run,
    idempotent row writes, and cursor state written last. The ledger is append-only; a run may
    stop at any await. */
module Indexer {
  import opened Basics
  import BurnDecoder

  const SIGNATURE_PAGE: nat := 100
  const MAX_INCREMENTAL_PAGES: nat := 5
  const STORE_BATCH: nat := 50

  type Row = BurnDecoder.Row

  /** One finalized transaction that mentions the burner program. */
  datatype Entry = Entry(signature: string, slot: nat, failed: bool, tx: BurnDecoder.Transaction)

  /** Oldest first. */
  type Ledger = seq<Entry>

  predicate ValidLedger(l: Ledger) {
    && (forall i :: 0 <= i < |l| ==> l[i].signature != "")
    && (forall i, j :: 0 <= i < j < |l| ==> l[i].signature != l[j].signature)
  }

  /** The index of a signature, or |l| if it is absent. */
  function Pos(l: Ledger, signature: string): (i: nat)
    ensures i <= |l|
    ensures i < |l| ==> l[i].signature == signature
    ensures forall k :: 0 <= k < i ==> l[k].signature != signature
  {
    if l == [] || l[0].signature == signature then 0 else 1 + Pos(l[1..], signature)
  }

  predicate Has(l: Ledger, signature: string) {
    Pos(l, signature) < |l|
  }

  /** An absent cursor is the empty string. */
  predicate Known(l: Ledger, cursor: string) {
    cursor == "" || Has(l, cursor)
  }

  /** The entries at positions lo..hi, newest first. */
  function Newest(l: Ledger, lo: nat, hi: nat): (r: seq<Entry>)
    requires lo <= hi <= |l|
    ensures |r| == hi - lo
  {
    seq(hi - lo, k requires 0 <= k < hi - lo => l[hi - 1 - k])
  }

  function Max(a: int, b: int): int { if a > b then a else b }

  /** One `getSignaturesForAddress` answer: the newest entries strictly older than `before`
      and strictly newer than `until`, at most a page of them. */
  function Page(l: Ledger, before: string, until: string): seq<Entry>
    requires Known(l, before) && Known(l, until)
  {
    var hi := if before == "" then |l| else Pos(l, before);
    var lo := Max(Head(l, until), hi - SIGNATURE_PAGE);
    if lo >= hi then [] else Newest(l, lo, hi)
  }

  /** How many entries there are up to and including the cursor. */
  function Head(l: Ledger, latest: string): (h: nat)
    requires Known(l, latest)
    ensures h <= |l|
  {
    if latest == "" then 0 else Pos(l, latest) + 1
  }

  lemma SignatureNonEmpty(l: Ledger, i: nat)
    requires ValidLedger(l) && i < |l|
    ensures l[i].signature != ""
  {
  }

  lemma PosOfEntry(l: Ledger, i: nat)
    requires ValidLedger(l) && i < |l|
    ensures Pos(l, l[i].signature) == i
  {
    assert Pos(l, l[i].signature) <= i;
  }

  lemma NewestOfPrefix(l: Ledger, l': Ledger, lo: nat, hi: nat)
    requires l <= l' && lo <= hi <= |l|
    ensures Newest(l', lo, hi) == Newest(l, lo, hi)
  {
    var a, b := Newest(l', lo, hi), Newest(l, lo, hi);
    forall k | 0 <= k < hi - lo ensures a[k] == b[k] { assert l'[hi - 1 - k] == l[hi - 1 - k]; }
  }

  lemma NewestSplit(l: Ledger, lo: nat, mid: nat, hi: nat)
    requires lo <= mid <= hi <= |l|
    ensures Newest(l, mid, hi) + Newest(l, lo, mid) == Newest(l, lo, hi)
  {
  }

  /** Appending entries moves no cursor. */
  lemma PosInExtension(l: Ledger, l': Ledger, signature: string)
    requires l <= l' && Has(l, signature)
    ensures Has(l', signature) && Pos(l', signature) == Pos(l, signature)
  {
    var p, p' := Pos(l, signature), Pos(l', signature);
    assert l'[p] == l[p];
    assert p' <= p;
    assert l'[p'] == l[p'];
  }

  lemma KnownInExtension(l: Ledger, l': Ledger, cursor: string)
    requires l <= l' && Known(l, cursor)
    ensures Known(l', cursor) && Head(l', cursor) == Head(l, cursor)
  {
    if cursor != "" { PosInExtension(l, l', cursor); }
  }

  // ---------------------------------------------------------------- rows

  datatype RowKey = RowKey(signature: string, instructionIndex: nat, legIndex: nat)

  type Legs = map<RowKey, Row>

  function KeyOf(row: Row): RowKey { RowKey(row.signature, row.instructionIndex, row.legIndex) }

  /** INSERT OR IGNORE. */
  function Insert(legs: Legs, rows: seq<Row>): Legs
    decreases |rows|
  {
    if rows == [] then legs
    else
      var row := rows[|rows| - 1];
      var before := Insert(legs, rows[..|rows| - 1]);
      if KeyOf(row) in before then before else before[KeyOf(row) := row]
  }

  function RowsOf(e: Entry): seq<Row> {
    BurnDecoder.Decode(e.signature, e.tx)
  }

  function RowsOfAll(entries: seq<Entry>): seq<Row> {
    if entries == [] then [] else RowsOf(entries[0]) + RowsOfAll(entries[1..])
  }

  /** One entry per signature, failed transactions dropped. */
  function Unique(entries: seq<Entry>): seq<Entry> {
    Succeeded(Dedup(entries))
  }

  predicate Seen(entries: seq<Entry>, signature: string) {
    exists k :: 0 <= k < |entries| && entries[k].signature == signature
  }

  function Dedup(entries: seq<Entry>): seq<Entry>
    decreases |entries|
  {
    if entries == [] then []
    else
      var r := Dedup(entries[..|entries| - 1]);
      var last := entries[|entries| - 1];
      if Seen(r, last.signature) then r else r + [last]
  }

  function Succeeded(entries: seq<Entry>): (r: seq<Entry>)
    ensures forall e :: e in r <==> e in entries && !e.failed
  {
    if entries == [] then []
    else
      assert entries == [entries[0]] + entries[1..];
      (if entries[0].failed then [] else [entries[0]]) + Succeeded(entries[1..])
  }

  // ---------------------------------------------------------------- one run

  /** The persisted state: three cursors, the newest slot, and the burn_legs table. */
  datatype Db = Db(latest: string, backfillBefore: string, backfillComplete: bool, lastSlot: nat, legs: Legs)

  const EMPTY := Db("", "", false, 0, map[])

  /** Where a run stops. Nothing is written before the rows are. */
  datatype Fault = NoFault | BeforeStore | DuringStore(batches: nat)

  /** The RPC's ledger at the first signature call, and at the backfill call. */
  predicate ViewsFit(db: Db, views: seq<Ledger>) {
    && |views| == MAX_INCREMENTAL_PAGES + 1
    && (forall k :: 0 <= k < |views| ==> ValidLedger(views[k]) && views[0] <= views[k])
    && Known(views[0], db.latest) && Known(views[0], db.backfillBefore)
  }

  predicate Backfilling(db: Db) {
    db.latest != "" && !db.backfillComplete && db.backfillBefore != ""
  }

  function IncrementalFrom(db: Db, l: Ledger): (lo: nat)
    requires Known(l, db.latest)
    ensures lo <= |l|
  {
    Max(Head(l, db.latest), |l| - MAX_INCREMENTAL_PAGES * SIGNATURE_PAGE)
  }

  function BackfillFrom(db: Db, l: Ledger): (lo: nat)
    requires Known(l, db.backfillBefore)
    ensures lo <= Pos(l, db.backfillBefore)
  {
    Max(0, Pos(l, db.backfillBefore) - SIGNATURE_PAGE)
  }

  /** What a run fetches, in positions of the ledger it saw first. */
  function Fetched(db: Db, l: Ledger): seq<Entry>
    requires Known(l, db.latest) && Known(l, db.backfillBefore)
  {
    Newest(l, IncrementalFrom(db, l), |l|)
    + if Backfilling(db) then Newest(l, BackfillFrom(db, l), Pos(l, db.backfillBefore)) else []
  }

  function NewRows(db: Db, l: Ledger): seq<Row>
    requires Known(l, db.latest) && Known(l, db.backfillBefore)
  {
    RowsOfAll(Unique(Fetched(db, l)))
  }

  function NewestSlot(entries: seq<Entry>, floor: nat): nat {
    if entries == [] then floor else Max(NewestSlot(entries[..|entries| - 1], floor), entries[|entries| - 1].slot)
  }

  function NextLatest(prior: string, l: Ledger, from: nat): string
    requires from <= |l|
  {
    if from < |l| then l[|l| - 1].signature else prior
  }

  /** The backfill cursor and flag after a run. */
  function NextBackfill(db: Db, l: Ledger): (string, bool)
    requires Known(l, db.latest) && Known(l, db.backfillBefore)
  {
    var from := IncrementalFrom(db, l);
    if db.latest == "" then
      if |l| - from >= SIGNATURE_PAGE then (l[from].signature, db.backfillComplete)
      else (db.backfillBefore, true)
    else if Backfilling(db) then
      var p, lo := Pos(l, db.backfillBefore), BackfillFrom(db, l);
      (if lo < p then l[lo].signature else "", p - lo < SIGNATURE_PAGE)
    else (db.backfillBefore, db.backfillComplete)
  }

  /** The state a run that meets no fault commits. */
  function Commit(db: Db, l: Ledger): Db
    requires Known(l, db.latest) && Known(l, db.backfillBefore)
  {
    Db(NextLatest(db.latest, l, IncrementalFrom(db, l)), NextBackfill(db, l).0, NextBackfill(db, l).1,
       NewestSlot(Fetched(db, l), db.lastSlot), Insert(db.legs, NewRows(db, l)))
  }

  function RunResult(db: Db, l: Ledger, fault: Fault): Db
    requires Known(l, db.latest) && Known(l, db.backfillBefore)
  {
    match fault
    case NoFault => Commit(db, l)
    case BeforeStore => db
    case DuringStore(batches) =>
      var rows := NewRows(db, l);
      db.(legs := Insert(db.legs, if batches * STORE_BATCH < |rows| then rows[..batches * STORE_BATCH] else rows))
  }

  class CommunityIndex {
    var latestSignature: string
    var backfillBefore: string
    var backfillComplete: bool
    var lastIndexedSlot: nat
    var legs: Legs

    function State(): Db
      reads this
    {
      Db(latestSignature, backfillBefore, backfillComplete, lastIndexedSlot, legs)
    }

    constructor ()
      ensures State() == EMPTY
    {
      latestSignature, backfillBefore, backfillComplete, lastIndexedSlot, legs := "", "", false, 0, map[];
    }

    method StoreRows(rows: seq<Row>, fault: Fault) returns (ok: bool)
      modifies this`legs
      ensures ok <==> !fault.DuringStore?
      ensures legs == Insert(old(legs), if fault.DuringStore? && fault.batches * STORE_BATCH < |rows|
                                        then rows[..fault.batches * STORE_BATCH] else rows)
    {
      var offset := 0;
      var batch := 0;
      while offset < |rows|
        invariant offset == batch * STORE_BATCH
        invariant fault.DuringStore? ==> batch <= fault.batches
        invariant legs == Insert(old(legs), if offset < |rows| then rows[..offset] else rows)
      {
        if fault.DuringStore? && batch == fault.batches { return false; }
        var upTo := if offset + STORE_BATCH < |rows| then offset + STORE_BATCH else |rows|;
        for k := offset to upTo
          invariant legs == Insert(old(legs), rows[..k])
        {
          assert rows[..k + 1][..k] == rows[..k];
          if KeyOf(rows[k]) !in legs { legs := legs[KeyOf(rows[k]) := rows[k]]; }
        }
        assert upTo == |rows| ==> rows[..upTo] == rows;
        offset := offset + STORE_BATCH;
        batch := batch + 1;
      }
      ok := !fault.DuringStore?;
    }

    /** Up to five pages from the newest signature down to the stored head. The ledger may
        grow between two calls; the positions fetched are those of the first. */
    method IncrementalPages(views: seq<Ledger>) returns (signatures: seq<Entry>)
      requires ViewsFit(State(), views)
      ensures signatures == Newest(views[0], IncrementalFrom(State(), views[0]), |views[0]|)
    {
      hide Page; hide Pos; hide ValidLedger;
      signatures := [];
      var before := "";
      ghost var l := views[0];
      ghost var head := Head(l, latestSignature);
      ghost var at: nat := |l|;
      for page := 0 to MAX_INCREMENTAL_PAGES
        invariant head <= at == |l| - page * SIGNATURE_PAGE
        invariant signatures == Newest(l, at, |l|)
        invariant if page == 0 then before == "" else at < |l| && before == l[at].signature
      {
        if page > 0 { SignatureNonEmpty(l, at); }
        PageOfView(l, views[page], before, latestSignature, at);
        var next := Page(views[page], before, latestSignature);
        ghost var lo := Max(head, at - SIGNATURE_PAGE);
        NewestSplit(l, lo, at, |l|);
        signatures := signatures + next;
        if |next| < SIGNATURE_PAGE { break; }
        before := next[|next| - 1].signature;
        at := lo;
      }
    }

    /** The reading half of a run: all that is fetched and where the cursors will go. */
    method Scan(views: seq<Ledger>) returns (signatures: seq<Entry>, newest: string, before: string, complete: bool)
      requires ViewsFit(State(), views)
      ensures signatures == Fetched(State(), views[0])
      ensures newest == NextLatest("", views[0], IncrementalFrom(State(), views[0]))
      ensures (before, complete) == NextBackfill(State(), views[0])
    {
      hide Pos; hide Page; hide ValidLedger;
      ghost var l := views[0];
      var latest := latestSignature;
      signatures := IncrementalPages(views);
      newest := if signatures != [] then signatures[0].signature else "";
      before, complete := backfillBefore, backfillComplete;
      if latest == "" && |signatures| >= SIGNATURE_PAGE {
        before := signatures[|signatures| - 1].signature;
      } else if latest != "" && !complete && before != "" {
        OlderPage(l, views[MAX_INCREMENTAL_PAGES], before);
        var older := Page(views[MAX_INCREMENTAL_PAGES], before, "");
        signatures := signatures + older;
        before := if older != [] then older[|older| - 1].signature else "";
        complete := |older| < SIGNATURE_PAGE;
      } else if latest == "" && |signatures| < SIGNATURE_PAGE {
        complete := true;
      }
    }

    method IndexFinalizedBurns(views: seq<Ledger>, fault: Fault) returns (ok: bool)
      requires ViewsFit(State(), views)
      modifies this
      ensures State() == RunResult(old(State()), views[0], fault)
      ensures ok <==> fault == NoFault
    {
      hide Fetched; hide Pos; hide IncrementalFrom; hide NextBackfill; hide Insert; hide NewestSlot; hide RowsOfAll; hide Unique;
      ghost var l := views[0];
      assert forall i :: 0 <= i < |l| ==> l[i].signature != "";
      var signatures, newest, before, complete := Scan(views);
      if fault == BeforeStore { return false; }
      ok := StoreRows(RowsOfAll(Unique(signatures)), fault);
      if !ok { return; }
      lastIndexedSlot := NewestSlot(signatures, lastIndexedSlot);
      latestSignature := if newest != "" then newest else latestSignature;
      backfillBefore, backfillComplete := before, complete;
    }
  }

  lemma PageOfView(l: Ledger, view: Ledger, before: string, until: string, at: nat)
    requires ValidLedger(l) && ValidLedger(view) && l <= view && Known(l, until)
    requires Head(l, until) <= at <= |l|
    requires if before == "" then view == l && at == |l| else at < |l| && before == l[at].signature
    ensures Known(view, before) && Known(view, until)
    ensures var lo := Max(Head(l, until), at - SIGNATURE_PAGE);
            Page(view, before, until) == Newest(l, lo, at)
  {
    hide Pos; hide Newest;
    KnownInExtension(l, view, until);
    if before != "" {
      PosOfEntry(l, at);
      PosInExtension(l, view, before);
    }
    NewestOfPrefix(l, view, Max(Head(l, until), at - SIGNATURE_PAGE), at);
  }

  lemma OlderPage(l: Ledger, view: Ledger, before: string)
    requires ValidLedger(l) && ValidLedger(view) && l <= view && before != "" && Has(l, before)
    ensures Known(view, before)
    ensures var p := Pos(l, before);
            Page(view, before, "") == Newest(l, Max(0, p - SIGNATURE_PAGE), p)
  {
    hide Pos; hide Newest;
    PosInExtension(l, view, before);
    var p := Pos(l, before);
    NewestOfPrefix(l, view, Max(0, p - SIGNATURE_PAGE), p);
  }
}
