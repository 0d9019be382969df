/** Every answer of the upload gate's acquire, from the rows of its tables, and what the retry times
    are worth. */
module GateAnswers {
  import opened Basics
  import opened UploadGate
  import opened GateSafety

  predicate LiveJob(g: Gate, id: string, now: Time) { id in g.jobs && g.jobs[id].expiresAt > now }

  predicate LeaseHeld(g: Gate, now: Time) { exists t :: t in g.leases && g.leases[t] > now }

  /** The scope used up its hour: the stored window is still running and has reached the cap. */
  predicate Full(g: Gate, scope: Scope, cap: nat, now: Time) {
    scope in g.windows && now < g.windows[scope].startedAt + 3_600_000 && g.windows[scope].count >= cap
  }

  predicate RateLimited(g: Gate, client: string, now: Time) {
    Full(g, Global, 30, now) || Full(g, Client(client), 3, now)
  }

  predicate WellFormed(client: string, id: string, hash: string) { Hex64(client) && Hex64(id) && Hex64(hash) }

  /** s seconds reach the moment, and s - 1 do not, within 1..cap. */
  predicate RetryIn(s: int, now: Time, moment: Time, cap: int) {
    && 1 <= s <= cap
    && (s < cap ==> now + 1_000 * s >= moment)
    && (s > 1 ==> now + 1_000 * (s - 1) < moment)
  }

  lemma SecondsExact(ms: int)
    ensures 1_000 * Seconds(ms) >= ms > 1_000 * (Seconds(ms) - 1)
  {
  }

  /** In order of precedence: a malformed key; a live job for the id, which conflicts, replays its
      receipt or is still processing; a live lease; a full window; and otherwise, always, a grant. */
  lemma AnswerExact(g: Gate, now: Time, client: string, id: string, hash: string, token: string)
    ensures match AcquireAnswer(g, now, client, id, hash, token)
      case Invalid => !WellFormed(client, id, hash)
      case Conflict => WellFormed(client, id, hash) && LiveJob(g, id, now) && g.jobs[id].requestHash != hash
      case Replay(result) =>
        && WellFormed(client, id, hash) && LiveJob(g, id, now) && g.jobs[id].requestHash == hash
        && g.jobs[id].complete && g.jobs[id].result == Some(result)
      case Processing(s) =>
        && WellFormed(client, id, hash) && LiveJob(g, id, now) && g.jobs[id].requestHash == hash
        && !(g.jobs[id].complete && g.jobs[id].result.Some?) && RetryIn(s, now, g.jobs[id].expiresAt, 30)
      case Busy => WellFormed(client, id, hash) && !LiveJob(g, id, now) && LeaseHeld(g, now)
      case Rate(_) => WellFormed(client, id, hash) && !LiveJob(g, id, now) && !LeaseHeld(g, now) && RateLimited(g, client, now)
      case Acquired(t) =>
        && WellFormed(client, id, hash) && !LiveJob(g, id, now) && !LeaseHeld(g, now) && !RateLimited(g, client, now)
        && t == token
  {
    hide Hex64; hide RateRefusal; hide Seconds;
    if id in g.jobs { SecondsExact(g.jobs[id].expiresAt - now); }
    LeaseHeldIffLive(g, now);
    RefusedIffFull(g, client, now);
  }

  lemma LeaseHeldIffLive(g: Gate, now: Time)
    ensures LiveLeases(g.leases, now) != map[] <==> LeaseHeld(g, now)
  {
    var live := LiveLeases(g.leases, now);
    if LeaseHeld(g, now) {
      var t :| t in g.leases && g.leases[t] > now;
      assert t in live;
    }
    assert (forall t :: t !in live) ==> live == map[];
  }

  /** A rate refusal names the least number of seconds, at least one, after which no window that is
      full now is full. */
  lemma RefusedIffFull(g: Gate, client: string, now: Time)
    ensures RateAnswer(g.windows, client, now).Some? <==> RateLimited(g, client, now)
    ensures RateAnswer(g.windows, client, now).Some? ==>
      var s := RateAnswer(g.windows, client, now).value.retryAfter;
      && s >= 1 && !RateLimited(g, client, now + 1_000 * s)
      && (s > 1 ==> RateLimited(g, client, now + 1_000 * (s - 1)))
  {
    hide Seconds;
    var w, c := ReadWindow(g.windows, Global, now), ReadWindow(g.windows, Client(client), now);
    SecondsExact(w.startedAt + RATE_WINDOW - now);
    SecondsExact(c.startedAt + RATE_WINDOW - now);
    SecondsExact(Max(w.startedAt, c.startedAt) + RATE_WINDOW - now);
  }

  /** So a client that waits as told, while nobody else acquires, is not rate limited again. */
  lemma WaitingIsEnough(g: Gate, now: Time, client: string, id: string, hash: string, token: string, later: Time)
    requires AcquireAnswer(g, now, client, id, hash, token).Rate?
    requires later >= now + 1_000 * AcquireAnswer(g, now, client, id, hash, token).retryAfter
    ensures !AcquireAnswer(g, later, client, id, hash, token).Rate?
  {
    hide Hex64; hide RateRefusal;
    RefusedIffFull(g, client, now);
    RefusedIffFull(g, client, later);
    var s := RateAnswer(g.windows, client, now).value.retryAfter;
    assert RateLimited(g, client, later) ==> RateLimited(g, client, now + 1_000 * s);
  }

  /** A lease blocks nobody after its three minutes, whoever died holding it. */
  lemma LeaseRunsOut(g: Gate, e: Event, later: Time)
    requires Succeeds(g, e) && later >= e.at + 180_000
    ensures !LeaseHeld(Step(g, e), later)
  {
    hide Hex64; hide RateRefusal;
    LeaseHeldIffLive(g, e.at);
    AnswerExact(g, e.at, e.client, e.id, e.hash, e.token);
    assert Step(g, e).leases == LiveLeases(g.leases, e.at)[e.token := e.at + LEASE];
  }

  /** Giving back: an accepted completion, a failure or a release leaves no lease of its token, and a
      failure by the holder also no job, so the same request can be acquired again. */
  lemma GivenBack(g: Gate, e: Event, token: string)
    requires Ends(g, e, token)
    ensures token !in Step(g, e).leases
    ensures forall t :: t in g.leases && t != token ==> t in Step(g, e).leases && Step(g, e).leases[t] == g.leases[t]
    ensures e.Fail? && e.id in g.jobs && g.jobs[e.id].leaseToken == Some(token) ==> e.id !in Step(g, e).jobs
    ensures e.Release? ==> Step(g, e).jobs == g.jobs
    ensures e.Complete? ==> e.id in Step(g, e).jobs && Step(g, e).jobs[e.id].expiresAt == e.at + 86_400_000
  {
    hide Hex64; hide TokenShape;
  }

  /** The alarm forgets exactly what has expired: leases and jobs at their time, client windows an
      hour after they started. */
  lemma AlarmForgets(g: Gate, e: Event)
    requires e.Alarm?
    ensures forall t :: t in Step(g, e).leases <==> t in g.leases && g.leases[t] > e.at
    ensures forall id :: id in Step(g, e).jobs <==> LiveJob(g, id, e.at)
    ensures forall s :: s in Step(g, e).windows <==>
              s in g.windows && (s == Global || e.at < g.windows[s].startedAt + 3_600_000)
  {
    hide NextAlarm;
  }
}
