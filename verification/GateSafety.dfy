/** What the upload gate promises over every sequence of calls: one paid write at a time,
    idempotent replay, a bound on the rate, harmless cleanup, and an alarm that never gets
    lost. */
module GateSafety {
  import opened Basics
  import opened UploadGate

  datatype Event =
    | Acquire(at: Time, client: string, id: string, hash: string, token: string)
    | Complete(at: Time, token: string, id: string, result: string)
    | Fail(at: Time, token: string, id: string)
    | Release(at: Time, token: string)
    | Alarm(at: Time)

  ghost function Step(g: Gate, e: Event): Gate {
    match e
    case Acquire(at, client, id, hash, token) => AfterAcquire(g, at, client, id, hash, token)
    case Complete(at, token, id, result) => AfterComplete(g, at, token, id, result)
    case Fail(at, token, id) => AfterFail(g, token, id)
    case Release(at, token) => AfterRelease(g, token)
    case Alarm(at) => AfterAlarm(g, at)
  }

  ghost function Run(g: Gate, es: seq<Event>): Gate {
    if es == [] then g else Step(Run(g, es[..|es| - 1]), es[|es| - 1])
  }

  /** The answer an acquisition gets after the events before it. */
  function AnswerOf(g: Gate, e: Event): Answer
    requires e.Acquire?
  {
    AcquireAnswer(g, e.at, e.client, e.id, e.hash, e.token)
  }

  predicate Succeeds(g: Gate, e: Event) {
    e.Acquire? && AnswerOf(g, e).Acquired?
  }

  predicate Monotone(es: seq<Event>) {
    forall i, j :: 0 <= i < j < |es| ==> es[i].at <= es[j].at
  }

  // ---------------------------------------------------------------- exclusion

  predicate Holds(g: Gate, id: string, token: string) {
    id in g.jobs && g.jobs[id].leaseToken == Some(token)
  }

  /** At most one lease; each lease has exactly one job with its token and expiry; a job is
      either complete with a receipt or held by a token of its own. */
  ghost predicate Exclusive(g: Gate, used: set<string>) {
    && (forall t, t' :: t in g.leases && t' in g.leases ==> t == t')
    && (forall t :: t in g.leases ==> exists id :: Holds(g, id, t) && g.jobs[id].expiresAt == g.leases[t])
    && (forall id, t :: Holds(g, id, t) ==> t in used)
    && (forall id, id', t :: Holds(g, id, t) && Holds(g, id', t) ==> id == id')
    && (forall id :: id in g.jobs ==>
          if g.jobs[id].complete then g.jobs[id].leaseToken == None && g.jobs[id].result.Some?
          else g.jobs[id].leaseToken.Some?)
  }

  function Used(used: set<string>, e: Event): set<string> {
    if e.Acquire? then used + {e.token} else used
  }

  predicate Fresh(used: set<string>, e: Event) {
    e.Acquire? ==> e.token !in used
  }

  lemma SweepExclusive(g: Gate, now: Time, used: set<string>)
    requires Exclusive(g, used)
    ensures Exclusive(g.(leases := LiveLeases(g.leases, now), jobs := LiveJobs(g.jobs, now)), used)
  {
    var g' := g.(leases := LiveLeases(g.leases, now), jobs := LiveJobs(g.jobs, now));
    assert forall id, t :: Holds(g', id, t) ==> Holds(g, id, t);
    forall t | t in g'.leases ensures exists id :: Holds(g', id, t) && g'.jobs[id].expiresAt == g'.leases[t] {
      var id :| Holds(g, id, t) && g.jobs[id].expiresAt == g.leases[t];
      assert Holds(g', id, t);
    }
  }

  lemma ReleaseExclusive(g: Gate, token: string, used: set<string>)
    requires Exclusive(g, used)
    ensures Exclusive(g.(leases := g.leases - {token}), used)
  {
    var g' := g.(leases := g.leases - {token});
    assert forall id, t :: Holds(g', id, t) <==> Holds(g, id, t);
  }

  /** Dropping or completing the job of a token whose lease is gone. */
  lemma EndJobExclusive(g: Gate, token: string, id: string, jobs: map<string, Job>, used: set<string>)
    requires Exclusive(g, used) && Holds(g, id, token) && token !in g.leases
    requires forall other :: other in jobs && other != id ==> other in g.jobs && jobs[other] == g.jobs[other]
    requires forall other :: other in g.jobs && other != id ==> other in jobs
    requires id in jobs ==> jobs[id].complete && jobs[id].leaseToken == None && jobs[id].result.Some?
    ensures Exclusive(g.(jobs := jobs), used)
  {
    var g' := g.(jobs := jobs);
    assert forall other, t :: Holds(g', other, t) ==> other != id && Holds(g, other, t);
    forall t | t in g'.leases ensures exists other :: Holds(g', other, t) && jobs[other].expiresAt == g'.leases[t] {
      var other :| Holds(g, other, t) && g.jobs[other].expiresAt == g.leases[t];
      assert Holds(g', other, t);
    }
  }

  lemma AcquireExclusive(g: Gate, at: Time, id: string, hash: string, token: string, used: set<string>)
    requires Exclusive(g, used) && g.leases == map[] && id !in g.jobs && token !in used
    ensures Exclusive(g.(leases := g.leases[token := at + LEASE],
                         jobs := g.jobs[id := Job(hash, false, Some(token), None, at + LEASE)]), used + {token})
  {
    var g' := g.(leases := g.leases[token := at + LEASE],
                 jobs := g.jobs[id := Job(hash, false, Some(token), None, at + LEASE)]);
    assert forall other, t :: Holds(g', other, t) <==> Holds(g, other, t) || (other == id && t == token);
    assert Holds(g', id, token);
  }

  /** Windows and alarm play no part in exclusion. */
  lemma ExclusiveFields(g: Gate, g': Gate, used: set<string>)
    requires Exclusive(g, used) && g'.leases == g.leases && g'.jobs == g.jobs
    ensures Exclusive(g', used)
  {
    assert forall id, t :: Holds(g', id, t) <==> Holds(g, id, t);
  }

  lemma StepExclusive(g: Gate, e: Event, used: set<string>)
    requires Exclusive(g, used) && Fresh(used, e)
    ensures Exclusive(Step(g, e), Used(used, e))
  {
    hide Exclusive; hide LiveLeases; hide LiveJobs;
    match e
    case Acquire(at, client, id, hash, token) =>
      var swept := g.(leases := LiveLeases(g.leases, at), jobs := LiveJobs(g.jobs, at));
      SweepExclusive(g, at, used);
      if Succeeds(g, e) {
        AcquireExclusive(swept, at, id, hash, token, used);
        ExclusiveFields(swept.(leases := swept.leases[token := at + LEASE],
                               jobs := swept.jobs[id := Job(hash, false, Some(token), None, at + LEASE)]),
                        Step(g, e), used + {token});
      } else {
        MoreUsed(g, used, token);
        MoreUsed(swept, used, token);
      }
    case Complete(at, token, id, result) =>
      if Completes(g, token, id, result) {
        ReleaseExclusive(g, token, used);
        var released := g.(leases := g.leases - {token});
        EndJobExclusive(released, token, id, Step(g, e).jobs, used);
        ExclusiveFields(released.(jobs := Step(g, e).jobs), Step(g, e), used);
      }
    case Fail(at, token, id) =>
      ReleaseExclusive(g, token, used);
      if Holds(g, id, token) {
        EndJobExclusive(g.(leases := g.leases - {token}), token, id, g.jobs - {id}, used);
      }
    case Release(at, token) => ReleaseExclusive(g, token, used);
    case Alarm(at) =>
      SweepExclusive(g, at, used);
      ExclusiveFields(g.(leases := LiveLeases(g.leases, at), jobs := LiveJobs(g.jobs, at)), Step(g, e), used);
  }

  lemma MoreUsed(g: Gate, used: set<string>, token: string)
    requires Exclusive(g, used)
    ensures Exclusive(g, used + {token})
  {
  }

  function TokensOf(es: seq<Event>): set<string> {
    set e | e in es && e.Acquire? :: e.token
  }

  /** crypto.randomUUID never repeats. */
  predicate FreshTokens(es: seq<Event>) {
    forall i, j :: 0 <= i < j < |es| && es[i].Acquire? && es[j].Acquire? ==> es[i].token != es[j].token
  }

  lemma TokensSnoc(es: seq<Event>, e: Event)
    ensures TokensOf(es + [e]) == Used(TokensOf(es), e)
  {
  }

  /** In every reachable state the gate is exclusive. */
  lemma {:induction false} AlwaysExclusive(es: seq<Event>)
    requires FreshTokens(es)
    ensures Exclusive(Run(EMPTY, es), TokensOf(es))
  {
    if es == [] {
    } else {
      var front, e := es[..|es| - 1], es[|es| - 1];
      assert es == front + [e];
      AlwaysExclusive(front);
      TokensSnoc(front, e);
      assert forall x :: x in front && x.Acquire? && e.Acquire? ==> x.token != e.token;
      StepExclusive(Run(EMPTY, front), e, TokensOf(front));
    }
  }

  /** An event that gives a lease back: an accepted completion, a failure or a release. */
  predicate Ends(g: Gate, e: Event, token: string) {
    match e
    case Complete(_, t, id, result) => t == token && Completes(g, t, id, result)
    case Fail(_, t, id) => t == token && TokenShape(t) && Hex64(id)
    case Release(_, t) => t == token && TokenShape(t)
    case _ => false
  }

  /** A live lease blocks every acquisition. */
  lemma HeldLeaseBlocks(g: Gate, e: Event, token: string)
    requires token in g.leases && e.at < g.leases[token]
    ensures !Succeeds(g, e)
    ensures token in LiveLeases(g.leases, e.at)
  {
    assert token in LiveLeases(g.leases, e.at);
  }

  lemma LeaseStaysOne(g: Gate, e: Event, token: string)
    requires token in g.leases && e.at < g.leases[token] && !Ends(g, e, token)
    ensures token in Step(g, e).leases && Step(g, e).leases[token] == g.leases[token]
  {
    HeldLeaseBlocks(g, e, token);
    hide AcquireAnswer;
  }

  lemma {:induction false} LeaseStays(g: Gate, es: seq<Event>, token: string)
    requires token in g.leases
    requires forall i :: 0 <= i < |es| ==> es[i].at < g.leases[token] && !Ends(Run(g, es[..i]), es[i], token)
    ensures var g' := Run(g, es); token in g'.leases && g'.leases[token] == g.leases[token]
  {
    hide Step; hide Ends;
    if es == [] {
    } else {
      var front, e := es[..|es| - 1], es[|es| - 1];
      assert forall i :: 0 <= i < |front| ==> front[i] == es[i] && front[..i] == es[..i];
      LeaseStays(g, front, token);
      LeaseStaysOne(Run(g, front), e, token);
    }
  }

  /** Two acquisitions less than three minutes apart: the first was given back in between. */
  lemma AcquisitionsApart(g: Gate, first: Event, between: seq<Event>, second: Event)
    requires Succeeds(g, first) && Succeeds(Run(Step(g, first), between), second)
    requires forall i :: 0 <= i < |between| ==> between[i].at <= second.at
    requires second.at < first.at + 180_000
    ensures exists i :: 0 <= i < |between| && Ends(Run(Step(g, first), between[..i]), between[i], first.token)
  {
    hide Ends; hide RateAnswer; hide PriorAnswer; hide CountedWindows;
    var held := Step(g, first);
    assert held.leases[first.token] == first.at + LEASE;
    if forall i :: 0 <= i < |between| ==> !Ends(Run(held, between[..i]), between[i], first.token) {
      LeaseStays(held, between, first.token);
      HeldLeaseBlocks(Run(held, between), second, first.token);
    }
  }

  // ---------------------------------------------------------------- replay

  /** For as long as a receipt lives, nothing changes it. */
  lemma {:induction false} ReceiptStays(g: Gate, es: seq<Event>, id: string)
    requires id in g.jobs && g.jobs[id].complete && g.jobs[id].leaseToken == None && g.jobs[id].result.Some?
    requires forall i :: 0 <= i < |es| ==> es[i].at < g.jobs[id].expiresAt
    ensures id in Run(g, es).jobs && Run(g, es).jobs[id] == g.jobs[id]
  {
    if es == [] {
    } else {
      var front, e := es[..|es| - 1], es[|es| - 1];
      assert forall i :: 0 <= i < |front| ==> front[i] == es[i];
      ReceiptStays(g, front, id);
      var before := Run(g, front);
      assert e.Acquire? ==> id in LiveJobs(before.jobs, e.at);
    }
  }

  /** After a completion, for 24 hours: the same request replays exactly its receipt, the same
      id with another hash only conflicts, whatever else happens in between. */
  lemma CompletionReplays(g: Gate, done: Event, es: seq<Event>, again: Event)
    requires done.Complete? && Completes(g, done.token, done.id, done.result)
    requires forall i :: 0 <= i < |es| ==> es[i].at < done.at + 86_400_000
    requires again.Acquire? && again.id == done.id && again.at < done.at + 86_400_000
    requires Hex64(again.client) && Hex64(again.hash)
    ensures AnswerOf(Run(Step(g, done), es), again)
         == if again.hash == g.jobs[done.id].requestHash then Replay(done.result) else Conflict
  {
    ReceiptStays(Step(g, done), es, done.id);
    var now := Run(Step(g, done), es);
    assert done.id in LiveJobs(now.jobs, again.at);
  }
}
