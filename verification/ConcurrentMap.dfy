/** A bounded concurrent map (quote-service/markets.ts:659-676): a few workers share one cursor
    over the values and one results array, and suspend only while awaiting a visit. */
module ConcurrentMap {
  import opened Basics

  /** How the visit of one value settles. */
  datatype Outcome<R> = Resolved(value: R) | Rejected

  /** Where a worker stands: not yet run, awaiting a visit, or out of its loop. */
  datatype Worker = Ready | Visiting(index: nat) | Failed(index: nat) | Finished

  /** The shared variables, every worker's position, and the visits made so far in order. */
  datatype State<R> = State(cursor: nat, workers: seq<Worker>, results: seq<Option<R>>, visits: seq<nat>)

  // ---------------------------------------------------------------- one step

  /** The loop head: take the next index and visit it, or leave. */
  function Advance<R>(s: State<R>, n: nat, w: nat): State<R>
    requires w < |s.workers|
  {
    if s.cursor < n then
      State(s.cursor + 1, s.workers[w := Visiting(s.cursor)], s.results, s.visits + [s.cursor])
    else s.(workers := s.workers[w := Finished])
  }

  /** Worker w can run: it has not started, or the visit it awaits settles. */
  predicate Enabled<R>(s: State<R>, n: nat, w: nat) {
    w < |s.workers| && |s.results| == n && match s.workers[w]
    case Ready => true
    case Visiting(index) => index < n
    case _ => false
  }

  /** The awaited visit settles, before the worker looks for more. */
  function Settle<R>(s: State<R>, outcomes: seq<Outcome<R>>, w: nat): State<R>
    requires w < |s.workers| && s.workers[w].Visiting? && s.workers[w].index < |outcomes| == |s.results|
  {
    var index := s.workers[w].index;
    match outcomes[index]
    case Resolved(v) => s.(results := s.results[index := Some(v)], workers := s.workers[w := Ready])
    case Rejected => s.(workers := s.workers[w := Failed(index)])
  }

  /** One worker runs from one suspension to the next; picking one that cannot run changes nothing. */
  function Step<R>(s: State<R>, outcomes: seq<Outcome<R>>, w: nat): State<R> {
    if !Enabled(s, |outcomes|, w) then s
    else if s.workers[w].Ready? then Advance(s, |outcomes|, w)
    else
      var t := Settle(s, outcomes, w);
      if t.workers[w].Ready? then Advance(t, |outcomes|, w) else t
  }

  function Min(a: nat, b: nat): nat { if a < b then a else b }

  function Initial<R>(n: nat, concurrency: nat): State<R> {
    State(0, seq(Min(concurrency, n), _ => Ready), seq(n, _ => None), [])
  }

  /** The state after any interleaving: the workers resumed in the given order. */
  function Execute<R>(outcomes: seq<Outcome<R>>, concurrency: nat, schedule: seq<nat>): State<R> {
    if schedule == [] then Initial(|outcomes|, concurrency)
    else Step(Execute(outcomes, concurrency, schedule[..|schedule| - 1]), outcomes, schedule[|schedule| - 1])
  }

  // ---------------------------------------------------------------- invariant

  predicate Holds(worker: Worker, i: nat) {
    worker == Visiting(i) || worker == Failed(i)
  }

  /** Worker w is the one that started visit i and has not delivered it. */
  predicate Holder<R>(s: State<R>, w: nat, i: nat) {
    w < |s.workers| && Holds(s.workers[w], i)
  }

  ghost predicate Inv<R>(s: State<R>, outcomes: seq<Outcome<R>>, concurrency: nat) {
    && |s.workers| == Min(concurrency, |outcomes|) && |s.results| == |outcomes| && s.cursor <= |outcomes|
    && (concurrency == 0 ==> s.cursor == 0)
    && |s.visits| == s.cursor && (forall k :: 0 <= k < |s.visits| ==> s.visits[k] == k)
    && (forall i :: 0 <= i < |s.results| && s.results[i].Some? ==> i < s.cursor && outcomes[i] == Resolved(s.results[i].value))
    && (forall i :: 0 <= i < s.cursor && s.results[i].None? ==> exists w: nat :: Holder(s, w, i))
    && (forall w: nat, i: nat :: Holder(s, w, i) ==> i < s.cursor && s.results[i].None?)
    && (forall w: nat, i: nat :: Holder(s, w, i) && s.workers[w].Failed? ==> outcomes[i].Rejected?)
    && (forall w: nat, w': nat, i: nat :: Holder(s, w, i) && Holder(s, w', i) ==> w == w')
    && (forall w :: 0 <= w < |s.workers| && s.workers[w].Finished? ==> s.cursor == |outcomes|)
  }

  lemma AdvanceKeepsInv<R>(s: State<R>, outcomes: seq<Outcome<R>>, concurrency: nat, w: nat)
    requires Inv(s, outcomes, concurrency) && w < |s.workers| && s.workers[w].Ready?
    ensures Inv(Advance(s, |outcomes|, w), outcomes, concurrency)
  {
    var t := Advance(s, |outcomes|, w);
    assert forall v: nat, i: nat :: v != w ==> (Holder(t, v, i) <==> Holder(s, v, i));
    assert forall i: nat :: Holder(t, w, i) <==> s.cursor < |outcomes| && i == s.cursor;
    forall i | 0 <= i < t.cursor && t.results[i].None? ensures exists v: nat :: Holder(t, v, i) {
      if i == s.cursor {
        assert Holder(t, w, i);
      } else {
        var v: nat :| Holder(s, v, i);
        assert Holder(t, v, i);
      }
    }
  }

  lemma SettleKeepsInv<R>(s: State<R>, outcomes: seq<Outcome<R>>, concurrency: nat, w: nat)
    requires Inv(s, outcomes, concurrency) && w < |s.workers| && s.workers[w].Visiting? && s.workers[w].index < |outcomes|
    ensures Inv(Settle(s, outcomes, w), outcomes, concurrency)
  {
    var t, index := Settle(s, outcomes, w), s.workers[w].index;
    assert Holder(s, w, index);
    assert forall v: nat, i: nat :: v != w ==> (Holder(t, v, i) <==> Holder(s, v, i));
    assert forall i: nat :: Holder(t, w, i) <==> outcomes[index].Rejected? && i == index;
    forall i | 0 <= i < t.cursor && t.results[i].None? ensures exists v: nat :: Holder(t, v, i) {
      var v: nat :| Holder(s, v, i);
      assert Holder(t, v, i);
    }
  }

  lemma StepKeepsInv<R>(s: State<R>, outcomes: seq<Outcome<R>>, concurrency: nat, w: nat)
    requires Inv(s, outcomes, concurrency)
    ensures Inv(Step(s, outcomes, w), outcomes, concurrency)
  {
    hide Inv;
    if Enabled(s, |outcomes|, w) {
      if s.workers[w].Ready? {
        AdvanceKeepsInv(s, outcomes, concurrency, w);
      } else {
        var t := Settle(s, outcomes, w);
        SettleKeepsInv(s, outcomes, concurrency, w);
        if t.workers[w].Ready? { AdvanceKeepsInv(t, outcomes, concurrency, w); }
      }
    }
  }

  /** Every interleaving keeps the invariant. */
  lemma {:induction false} AlwaysInv<R>(outcomes: seq<Outcome<R>>, concurrency: nat, schedule: seq<nat>)
    ensures Inv(Execute(outcomes, concurrency, schedule), outcomes, concurrency)
  {
    if schedule == [] {
    } else {
      AlwaysInv(outcomes, concurrency, schedule[..|schedule| - 1]);
      StepKeepsInv(Execute(outcomes, concurrency, schedule[..|schedule| - 1]), outcomes, concurrency, schedule[|schedule| - 1]);
    }
  }

  // ---------------------------------------------------------------- what every interleaving guarantees

  /** Visits start in input order and none is ever repeated; each one started is either
      delivered to its own slot or still owned by exactly one worker. */
  lemma VisitedOnce<R>(outcomes: seq<Outcome<R>>, concurrency: nat, schedule: seq<nat>)
    ensures var s := Execute(outcomes, concurrency, schedule);
      && (forall k :: 0 <= k < |s.visits| ==> s.visits[k] == k < |outcomes|)
      && |s.results| == |outcomes|
      && (forall i :: 0 <= i < |outcomes| && i in s.visits ==>
            if s.results[i].Some? then outcomes[i] == Resolved(s.results[i].value) && forall w: nat :: !Holder(s, w, i)
            else exists w: nat :: Holder(s, w, i) && forall v: nat :: Holder(s, v, i) ==> v == w)
      && (forall i :: 0 <= i < |outcomes| && i !in s.visits ==> s.results[i].None?)
  {
    AlwaysInv(outcomes, concurrency, schedule);
    var s := Execute(outcomes, concurrency, schedule);
    forall i | 0 <= i < s.cursor ensures i in s.visits { assert s.visits[i] == i; }
    forall i | 0 <= i < s.cursor && s.results[i].None?
      ensures exists w: nat :: Holder(s, w, i) && forall v: nat :: Holder(s, v, i) ==> v == w
    {
      var w: nat :| Holder(s, w, i);
      assert forall v: nat :: Holder(s, v, i) ==> v == w;
    }
  }

  /** The visits started whose outcome has not been observed. */
  function Outstanding<R>(s: State<R>): set<nat> {
    set i | i in s.visits && Visiting(i) in s.workers
  }

  function Awaited(workers: seq<Worker>): (r: set<nat>)
    ensures |r| <= |workers|
    ensures forall i :: Visiting(i) in workers ==> i in r
  {
    if workers == [] then {}
    else
      var rest := Awaited(workers[1..]);
      if workers[0].Visiting? then rest + {workers[0].index} else rest
  }

  lemma SubsetAtMost(a: set<nat>, b: set<nat>)
    requires a <= b
    ensures |a| <= |b|
  {
    assert b == a + (b - a);
  }

  /** At most `concurrency` visits are outstanding at any moment of any interleaving. */
  lemma AtMostConcurrency<R>(outcomes: seq<Outcome<R>>, concurrency: nat, schedule: seq<nat>)
    ensures |Outstanding(Execute(outcomes, concurrency, schedule))| <= Min(concurrency, |outcomes|)
  {
    AlwaysInv(outcomes, concurrency, schedule);
    var s := Execute(outcomes, concurrency, schedule);
    SubsetAtMost(Outstanding(s), Awaited(s.workers));
  }

  // ---------------------------------------------------------------- completion

  /** What awaiting all workers waits for: every worker has left its loop normally. */
  predicate Completed<R>(s: State<R>) {
    forall w :: 0 <= w < |s.workers| ==> s.workers[w].Finished?
  }

  predicate Quiescent<R>(s: State<R>, n: nat) {
    forall w :: 0 <= w < |s.workers| ==> !Enabled(s, n, w)
  }

  predicate AllResolved<R>(outcomes: seq<Outcome<R>>) {
    forall i :: 0 <= i < |outcomes| ==> outcomes[i].Resolved?
  }

  ghost predicate InInputOrder<R>(results: seq<Option<R>>, outcomes: seq<Outcome<R>>) {
    |results| == |outcomes| && forall i :: 0 <= i < |outcomes| ==> results[i].Some? && outcomes[i] == Resolved(results[i].value)
  }

  /** A completed map has every visit's value in its own slot, unless it was started with no
      workers on a nonempty input: then it completes at once with holes. */
  lemma CompletedInOrder<R>(outcomes: seq<Outcome<R>>, concurrency: nat, schedule: seq<nat>)
    requires Completed(Execute(outcomes, concurrency, schedule))
    ensures InInputOrder(Execute(outcomes, concurrency, schedule).results, outcomes) <==> concurrency > 0 || outcomes == []
    ensures concurrency > 0 ==> Execute(outcomes, concurrency, schedule).cursor == |outcomes|
  {
    AlwaysInv(outcomes, concurrency, schedule);
    var s := Execute(outcomes, concurrency, schedule);
    if concurrency > 0 && outcomes != [] {
      assert s.workers[0].Finished?;
      assert forall w: nat, i: nat :: !Holder(s, w, i);
    } else if outcomes != [] {
      assert s.results[0].None?;
    }
  }

  /** Once nothing can run, the map has completed exactly when no visit that started was
      rejected; with a rejection, all others were still visited unless every worker failed. */
  lemma QuiescentOutcome<R>(outcomes: seq<Outcome<R>>, concurrency: nat, schedule: seq<nat>)
    requires Quiescent(Execute(outcomes, concurrency, schedule), |outcomes|)
    ensures var s := Execute(outcomes, concurrency, schedule);
      && (Completed(s) <==> concurrency == 0 || AllResolved(outcomes))
      && (s.cursor < |outcomes| ==> forall w :: 0 <= w < |s.workers| ==> s.workers[w].Failed?)
  {
    AlwaysInv(outcomes, concurrency, schedule);
    var s := Execute(outcomes, concurrency, schedule);
    forall w | 0 <= w < |s.workers| ensures s.workers[w].Failed? || s.workers[w].Finished? {
      assert !Enabled(s, |outcomes|, w);
      assert s.workers[w].Visiting? ==> Holder(s, w, s.workers[w].index);
    }
    forall w | 0 <= w < |s.workers| && s.workers[w].Failed? ensures !AllResolved(outcomes) {
      assert Holder(s, w, s.workers[w].index);
    }
    if Completed(s) && concurrency > 0 { CompletedInOrder(outcomes, concurrency, schedule); }
  }

  lemma Concluded<R>(outcomes: seq<Outcome<R>>, concurrency: nat, schedule: seq<nat>)
    requires Quiescent(Execute(outcomes, concurrency, schedule), |outcomes|)
    ensures var s := Execute(outcomes, concurrency, schedule);
      && (Completed(s) <==> concurrency == 0 || AllResolved(outcomes))
      && (Completed(s) && concurrency > 0 ==> InInputOrder(s.results, outcomes) && |s.visits| == |outcomes|)
      && (forall k :: 0 <= k < |s.visits| ==> s.visits[k] == k < |outcomes|)
  {
    QuiescentOutcome(outcomes, concurrency, schedule);
    VisitedOnce(outcomes, concurrency, schedule);
    AlwaysInv(outcomes, concurrency, schedule);
    if Completed(Execute(outcomes, concurrency, schedule)) { CompletedInOrder(outcomes, concurrency, schedule); }
  }

  // ---------------------------------------------------------------- termination

  function Busy(workers: seq<Worker>): nat {
    if workers == [] then 0
    else Busy(workers[..|workers| - 1]) + (if workers[|workers| - 1].Ready? || workers[|workers| - 1].Visiting? then 1 else 0)
  }

  function Remaining<R>(s: State<R>, n: nat): nat
    requires s.cursor <= n
  {
    2 * (n - s.cursor) + Busy(s.workers)
  }

  lemma {:induction false} BusyUpdate(workers: seq<Worker>, w: nat, worker: Worker)
    requires w < |workers| && (workers[w].Ready? || workers[w].Visiting?)
    ensures Busy(workers[w := worker]) == Busy(workers) - (if worker.Ready? || worker.Visiting? then 0 else 1)
  {
    var front := workers[..|workers| - 1];
    if w < |workers| - 1 {
      assert workers[w := worker][..|workers| - 1] == front[w := worker];
      BusyUpdate(front, w, worker);
    } else {
      assert workers[w := worker][..|workers| - 1] == front;
    }
  }

  /** Every step that can run brings the end nearer, whoever runs it. */
  lemma StepDecreases<R>(s: State<R>, outcomes: seq<Outcome<R>>, concurrency: nat, w: nat)
    requires Inv(s, outcomes, concurrency) && Enabled(s, |outcomes|, w)
    ensures Step(s, outcomes, w).cursor <= |outcomes|
    ensures Remaining(Step(s, outcomes, w), |outcomes|) < Remaining(s, |outcomes|)
  {
    var t := Step(s, outcomes, w);
    assert t.workers == s.workers[w := t.workers[w]];
    BusyUpdate(s.workers, w, t.workers[w]);
  }

  /** The whole call under an arbitrary scheduler: `pick` names a worker that can run while one
      can. It always ends, and returns the values in input order or rejects. */
  method MapWithConcurrency<R>(outcomes: seq<Outcome<R>>, concurrency: nat, pick: State<R> -> nat)
    returns (r: Option<seq<Option<R>>>, visits: seq<nat>)
    requires forall s :: Quiescent(s, |outcomes|) || Enabled(s, |outcomes|, pick(s))
    ensures r.Some? <==> concurrency == 0 || AllResolved(outcomes)
    ensures r.Some? && concurrency > 0 ==> InInputOrder(r.value, outcomes) && |visits| == |outcomes|
    ensures forall k :: 0 <= k < |visits| ==> visits[k] == k < |outcomes|
  {
    hide Holder;
    hide Busy;
    hide AllResolved;
    var n := |outcomes|;
    var results := new Option<R>[n](_ => None);
    var cursor, workers: seq<Worker> := 0, seq(Min(concurrency, n), _ => Ready);
    visits := [];
    ghost var schedule: seq<nat> := [];
    assert results[..] == Initial<R>(n, concurrency).results;
    AlwaysInv(outcomes, concurrency, schedule);
    while exists w :: 0 <= w < |workers| && Enabled(State(cursor, workers, results[..], visits), n, w)
      invariant results.Length == n
      invariant State(cursor, workers, results[..], visits) == Execute(outcomes, concurrency, schedule)
      invariant Inv(State(cursor, workers, results[..], visits), outcomes, concurrency)
      decreases Remaining(State(cursor, workers, results[..], visits), n)
    {
      ghost var before := State(cursor, workers, results[..], visits);
      var w := pick(State(cursor, workers, results[..], visits));
      StepKeepsInv(before, outcomes, concurrency, w);
      StepDecreases(before, outcomes, concurrency, w);
      schedule := schedule + [w];
      assert schedule[..|schedule| - 1] + [w] == schedule;
      var running := true;
      if workers[w].Visiting? {
        var index := workers[w].index;
        if outcomes[index].Resolved? {
          results[index] := Some(outcomes[index].value);
          assert results[..] == before.results[index := Some(outcomes[index].value)];
        } else {
          workers := workers[w := Failed(index)];
          running := false;
        }
      }
      if running {
        if cursor < n {
          workers := workers[w := Visiting(cursor)];
          visits := visits + [cursor];
          cursor := cursor + 1;
        } else {
          workers := workers[w := Finished];
        }
      }
      assert State(cursor, workers, results[..], visits) == Step(before, outcomes, w);
    }
    ghost var end := State(cursor, workers, results[..], visits);
    Concluded(outcomes, concurrency, schedule);
    if forall w :: 0 <= w < |workers| ==> workers[w].Finished? {
      assert Completed(end);
      r := Some(results[..]);
    } else {
      r := None;
    }
  }
}
