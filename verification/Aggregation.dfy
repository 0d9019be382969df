/** The leaderboard aggregations of app/community-indexer.ts over stored burn legs: per-vault
    totals and each vault's most recent configuration. */
module Aggregation {
  import opened Basics
  import opened BurnDecoder
  import Lexicographic

  // ---------------------------------------------------------------- totals

  type Call = (string, nat)

  function CallOf(row: Row): Call { (row.signature, row.instructionIndex) }

  datatype Target = Target(solLamports: int, burnedAtoms: nat, calls: set<Call>, lastBurnAt: Option<int>)

  datatype Summary = Summary(
    solLamports: int, calls: set<Call>, launchMints: set<string>, lastBurnAt: Option<int>, targets: map<string, Target>)

  function Sol(rows: seq<Row>): int {
    if rows == [] then 0 else Sol(rows[..|rows| - 1]) + rows[|rows| - 1].solLamports
  }

  function Burned(rows: seq<Row>): nat {
    if rows == [] then 0 else Burned(rows[..|rows| - 1]) + rows[|rows| - 1].burnedAtoms
  }

  function Later(a: Option<int>, b: Option<int>): Option<int> {
    if b.Some? && (a == None || b.value > a.value) then b else a
  }

  function LastBurnAt(rows: seq<Row>): Option<int> {
    if rows == [] then None else Later(LastBurnAt(rows[..|rows| - 1]), rows[|rows| - 1].blockTime)
  }

  function Calls(rows: seq<Row>): set<Call> {
    set row | row in rows :: CallOf(row)
  }

  function LaunchMints(rows: seq<Row>): set<string> {
    set row | row in rows :: row.launchMint
  }

  function Mints(rows: seq<Row>): set<string> {
    set row | row in rows :: row.targetMint
  }

  /** The rows that burn one target. */
  function OfTarget(rows: seq<Row>, mint: string): seq<Row> {
    if rows == [] then []
    else
      var front := OfTarget(rows[..|rows| - 1], mint);
      if rows[|rows| - 1].targetMint == mint then front + [rows[|rows| - 1]] else front
  }

  function TargetOf(rows: seq<Row>): Target {
    Target(Sol(rows), Burned(rows), Calls(rows), LastBurnAt(rows))
  }

  /** The summary, each field by its own definition over all the rows. */
  function Summarize(rows: seq<Row>): Summary {
    Summary(Sol(rows), Calls(rows), LaunchMints(rows), LastBurnAt(rows),
            map mint | mint in Mints(rows) :: TargetOf(OfTarget(rows, mint)))
  }

  lemma SnocFields(front: seq<Row>, row: Row)
    ensures Sol(front + [row]) == Sol(front) + row.solLamports
    ensures Burned(front + [row]) == Burned(front) + row.burnedAtoms
    ensures LastBurnAt(front + [row]) == Later(LastBurnAt(front), row.blockTime)
    ensures Calls(front + [row]) == Calls(front) + {CallOf(row)}
    ensures LaunchMints(front + [row]) == LaunchMints(front) + {row.launchMint}
    ensures Mints(front + [row]) == Mints(front) + {row.targetMint}
  {
    assert (front + [row])[..|front|] == front;
  }

  lemma SnocTarget(front: seq<Row>, row: Row, mint: string)
    ensures OfTarget(front + [row], mint)
         == if row.targetMint == mint then OfTarget(front, mint) + [row] else OfTarget(front, mint)
  {
    assert (front + [row])[..|front|] == front;
  }

  lemma {:induction false} NoRowsOfTarget(rows: seq<Row>, mint: string)
    ensures OfTarget(rows, mint) == [] <==> mint !in Mints(rows)
    ensures forall row :: row in OfTarget(rows, mint) <==> row in rows && row.targetMint == mint
  {
    if rows == [] {
    } else {
      var front, row := rows[..|rows| - 1], rows[|rows| - 1];
      assert rows == front + [row];
      NoRowsOfTarget(front, mint);
      SnocFields(front, row);
    }
  }

  method AggregateVaultBurnRows(rows: seq<Row>) returns (summary: Summary)
    ensures summary == Summarize(rows)
  {
    hide Summarize; hide Later;
    var calls: set<Call> := {};
    var launches: set<string> := {};
    var targets: map<string, Target> := map[];
    var solLamports := 0;
    var lastBurnAt: Option<int> := None;
    EmptySummary();
    for k := 0 to |rows|
      invariant Summary(solLamports, calls, launches, lastBurnAt, targets) == Summarize(rows[..k])
    {
      var row := rows[k];
      var call := CallOf(row);
      calls := calls + {call};
      launches := launches + {row.launchMint};
      solLamports := solLamports + row.solLamports;
      lastBurnAt := Later(lastBurnAt, row.blockTime);
      var target := if row.targetMint in targets then targets[row.targetMint] else Target(0, 0, {}, None);
      target := Target(target.solLamports + row.solLamports, target.burnedAtoms + row.burnedAtoms,
                       target.calls + {call}, Later(target.lastBurnAt, row.blockTime));
      targets := targets[row.targetMint := target];
      SummaryStep(rows[..k], row);
      assert rows[..k + 1] == rows[..k] + [row];
    }
    assert rows[..|rows|] == rows;
    summary := Summary(solLamports, calls, launches, lastBurnAt, targets);
  }

  lemma EmptySummary()
    ensures Summarize([]) == Summary(0, {}, {}, None, map[])
  {
  }

  lemma SummaryStep(front: seq<Row>, row: Row)
    ensures var s := Summarize(front);
            var t := if row.targetMint in s.targets then s.targets[row.targetMint] else Target(0, 0, {}, None);
            Summarize(front + [row])
            == Summary(s.solLamports + row.solLamports, s.calls + {CallOf(row)}, s.launchMints + {row.launchMint},
                       Later(s.lastBurnAt, row.blockTime),
                       s.targets[row.targetMint := Target(t.solLamports + row.solLamports, t.burnedAtoms + row.burnedAtoms,
                                                          t.calls + {CallOf(row)}, Later(t.lastBurnAt, row.blockTime))])
  {
    hide Sol; hide Burned; hide LastBurnAt; hide Calls; hide LaunchMints; hide Mints; hide OfTarget; hide Later;
    SnocFields(front, row);
    TargetStep(front, row);
    var s, s' := Summarize(front), Summarize(front + [row]);
    assert s'.targets.Keys == s.targets.Keys + {row.targetMint};
    forall mint | mint in s'.targets && mint != row.targetMint ensures s'.targets[mint] == s.targets[mint] { }
  }

  lemma EmptyTarget()
    ensures TargetOf([]) == Target(0, 0, {}, None)
  {
  }

  lemma TargetStep(front: seq<Row>, row: Row)
    ensures var own := OfTarget(front, row.targetMint);
            TargetOf(OfTarget(front + [row], row.targetMint))
            == Target(Sol(own) + row.solLamports, Burned(own) + row.burnedAtoms, Calls(own) + {CallOf(row)},
                      Later(LastBurnAt(own), row.blockTime))
    ensures row.targetMint !in Mints(front) ==> TargetOf(OfTarget(front, row.targetMint)) == Target(0, 0, {}, None)
    ensures forall mint :: mint != row.targetMint ==> OfTarget(front + [row], mint) == OfTarget(front, mint)
  {
    hide Sol; hide Burned; hide LastBurnAt; hide OfTarget; hide Later;
    var own := OfTarget(front, row.targetMint);
    SnocTarget(front, row, row.targetMint);
    SnocFields(own, row);
    NoRowsOfTarget(front, row.targetMint);
    EmptyTarget();
    forall mint | mint != row.targetMint ensures OfTarget(front + [row], mint) == OfTarget(front, mint) {
      SnocTarget(front, row, mint);
    }
  }

  // ---------------------------------------------------------------- conservation over targets

  /** The per-target totals of a list of mints. */
  function TargetTotals(mints: seq<string>, rows: seq<Row>): int {
    if mints == [] then 0 else Sol(OfTarget(rows, mints[0])) + TargetTotals(mints[1..], rows)
  }

  lemma {:induction false} TargetTotalsSnoc(mints: seq<string>, front: seq<Row>, row: Row)
    requires forall i, j :: 0 <= i < j < |mints| ==> mints[i] != mints[j]
    ensures TargetTotals(mints, front + [row])
         == TargetTotals(mints, front) + if row.targetMint in mints then row.solLamports else 0
    decreases |mints|
  {
    if mints == [] {
    } else {
      SnocTarget(front, row, mints[0]);
      SnocFields(OfTarget(front, mints[0]), row);
      TargetTotalsSnoc(mints[1..], front, row);
    }
  }

  lemma {:induction false} TargetTotalsEmpty(mints: seq<string>)
    ensures TargetTotals(mints, []) == 0
  {
    if mints == [] {
    } else {
      TargetTotalsEmpty(mints[1..]);
    }
  }

  /** However the targets are listed, their lamports sum to the vault's. */
  lemma {:induction false} TargetsSumToVault(mints: seq<string>, rows: seq<Row>)
    requires forall i, j :: 0 <= i < j < |mints| ==> mints[i] != mints[j]
    requires forall row :: row in rows ==> row.targetMint in mints
    ensures TargetTotals(mints, rows) == Summarize(rows).solLamports
    decreases |rows|
  {
    if rows == [] {
      TargetTotalsEmpty(mints);
    } else {
      var front, row := rows[..|rows| - 1], rows[|rows| - 1];
      assert rows == front + [row];
      TargetsSumToVault(mints, front);
      TargetTotalsSnoc(mints, front, row);
    }
  }

  // ---------------------------------------------------------------- order independence

  /** Splits a sequence around an element it holds. */
  lemma Around<T>(s: seq<T>, x: T) returns (j: nat)
    requires x in multiset(s)
    ensures j < |s| && s[j] == x && s == s[..j] + [x] + s[j + 1..]
    ensures multiset(s[..j] + s[j + 1..]) == multiset(s) - multiset{x}
  {
    assert x in s;
    j :| 0 <= j < |s| && s[j] == x;
    assert s == s[..j] + [x] + s[j + 1..];
    assert multiset(s) == multiset(s[..j]) + multiset{x} + multiset(s[j + 1..]);
    assert multiset(s[..j] + s[j + 1..]) == multiset(s[..j]) + multiset(s[j + 1..]);
  }

  lemma {:induction false} FieldsOfConcat(a: seq<Row>, b: seq<Row>)
    ensures Sol(a + b) == Sol(a) + Sol(b)
    ensures Burned(a + b) == Burned(a) + Burned(b)
    ensures LastBurnAt(a + b) == Later(LastBurnAt(a), LastBurnAt(b))
    decreases |b|
  {
    if b == [] {
      assert a + b == a;
    } else {
      var front, row := b[..|b| - 1], b[|b| - 1];
      assert a + b == (a + front) + [row] && b == front + [row];
      FieldsOfConcat(a, front);
      SnocFields(a + front, row);
      SnocFields(front, row);
    }
  }

  /** Totals and latest times do not depend on the order of the rows. */
  lemma {:induction false} FieldsOfPermutation(rows: seq<Row>, rows': seq<Row>)
    requires multiset(rows) == multiset(rows')
    ensures Sol(rows) == Sol(rows') && Burned(rows) == Burned(rows') && LastBurnAt(rows) == LastBurnAt(rows')
    decreases |rows|
  {
    if rows == [] {
      assert |multiset(rows')| == |rows'|;
    } else {
      var front, row := rows[..|rows| - 1], rows[|rows| - 1];
      assert rows == front + [row];
      assert multiset(rows) == multiset(front) + multiset{row};
      var j := Around(rows', row);
      var a, b := rows'[..j], rows'[j + 1..];
      FieldsOfPermutation(front, a + b);
      MovedLast(a, row, b);
    }
  }

  lemma MovedLast(a: seq<Row>, row: Row, b: seq<Row>)
    ensures var s, t := a + [row] + b, a + b + [row];
            Sol(s) == Sol(t) && Burned(s) == Burned(t) && LastBurnAt(s) == LastBurnAt(t)
  {
    hide Sol; hide Burned; hide LastBurnAt;
    FieldsOfConcat(a + [row], b);
    FieldsOfConcat(a, b);
    SnocFields(a, row);
    SnocFields(a + b, row);
  }

  lemma {:induction false} OfTargetCounts(rows: seq<Row>, mint: string, row: Row)
    ensures multiset(OfTarget(rows, mint))[row] == if row.targetMint == mint then multiset(rows)[row] else 0
  {
    if rows == [] {
    } else {
      var front, last := rows[..|rows| - 1], rows[|rows| - 1];
      assert rows == front + [last];
      OfTargetCounts(front, mint, row);
      SnocTarget(front, last, mint);
    }
  }

  lemma SetsOfPermutation(rows: seq<Row>, rows': seq<Row>)
    requires multiset(rows) == multiset(rows')
    ensures Calls(rows) == Calls(rows') && LaunchMints(rows) == LaunchMints(rows') && Mints(rows) == Mints(rows')
  {
    assert forall row :: row in rows <==> row in multiset(rows);
    assert forall row :: row in rows' <==> row in multiset(rows');
  }

  lemma TargetOfPermutation(rows: seq<Row>, rows': seq<Row>, mint: string)
    requires multiset(rows) == multiset(rows')
    ensures TargetOf(OfTarget(rows, mint)) == TargetOf(OfTarget(rows', mint))
  {
    hide OfTarget;
    var a, b := OfTarget(rows, mint), OfTarget(rows', mint);
    forall row ensures multiset(a)[row] == multiset(b)[row] {
      OfTargetCounts(rows, mint, row);
      OfTargetCounts(rows', mint, row);
    }
    FieldsOfPermutation(a, b);
    SetsOfPermutation(a, b);
  }

  /** The whole summary is the same for every order in which the rows arrive. */
  lemma SummaryOfPermutation(rows: seq<Row>, rows': seq<Row>)
    requires multiset(rows) == multiset(rows')
    ensures Summarize(rows) == Summarize(rows')
  {
    hide TargetOf; hide OfTarget; hide Mints; hide Sol; hide LastBurnAt; hide Calls; hide LaunchMints;
    FieldsOfPermutation(rows, rows');
    SetsOfPermutation(rows, rows');
    forall mint | mint in Mints(rows)
      ensures TargetOf(OfTarget(rows, mint)) == TargetOf(OfTarget(rows', mint))
    {
      TargetOfPermutation(rows, rows', mint);
    }
  }

  /** The last burn is the latest block time there is, and absent only when every row's is. */
  lemma {:induction false} LastBurnIsLatest(rows: seq<Row>)
    ensures LastBurnAt(rows) == None <==> forall row :: row in rows ==> row.blockTime == None
    ensures LastBurnAt(rows).Some? ==>
      && (exists row :: row in rows && row.blockTime == LastBurnAt(rows))
      && forall row :: row in rows && row.blockTime.Some? ==> row.blockTime.value <= LastBurnAt(rows).value
  {
    if rows == [] {
    } else {
      var front, row := rows[..|rows| - 1], rows[|rows| - 1];
      assert rows == front + [row];
      LastBurnIsLatest(front);
      if LastBurnAt(rows).Some? && LastBurnAt(rows) != row.blockTime {
        var other :| other in front && other.blockTime == LastBurnAt(front);
        assert other in rows;
      }
    }
  }
}
