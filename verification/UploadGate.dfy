/** The durable gate in front of paid metadata uploads (MetadataUploadGateV3 of
    quote-service/worker.ts): leases, idempotent jobs and fixed rate windows in three tables,
    and the alarm that cleans them. Every method is one atomic step. */
module UploadGate {
  import opened Basics

  type Time = int   // milliseconds

  const RATE_WINDOW: Time := 60 * 60 * 1_000
  const RATE_PER_IP: nat := 3
  const RATE_GLOBAL: nat := 30
  const LEASE: Time := 3 * 60 * 1_000
  const RECEIPT_TTL: Time := 24 * 60 * 60 * 1_000
  const MAX_RECEIPT: nat := 8_192

  datatype Scope = Global | Client(key: string)

  datatype Window = Window(startedAt: Time, count: nat)

  /** A completed job has a result and no lease token. */
  datatype Job = Job(requestHash: string, complete: bool, leaseToken: Option<string>, result: Option<string>, expiresAt: Time)

  datatype Gate = Gate(leases: map<string, Time>, jobs: map<string, Job>, windows: map<Scope, Window>, alarm: Option<Time>)

  const EMPTY := Gate(map[], map[], map[], None)

  datatype Answer =
    | Acquired(token: string)
    | Busy
    | Rate(retryAfter: int)
    | Processing(retryAfter: int)
    | Conflict
    | Replay(result: string)
    | Invalid

  predicate Hex(c: char) { '0' <= c <= '9' || 'a' <= c <= 'f' }

  predicate Hex64(s: string) { |s| == 64 && forall i :: 0 <= i < 64 ==> Hex(s[i]) }

  predicate TokenShape(s: string) { |s| == 36 && forall i :: 0 <= i < 36 ==> Hex(s[i]) || s[i] == '-' }

  function Max(a: int, b: int): int { if a > b then a else b }

  function Min(a: int, b: int): int { if a < b then a else b }

  /** Math.ceil(ms / 1000). */
  function Seconds(ms: int): int { (ms + 999) / 1_000 }

  function LiveLeases(leases: map<string, Time>, now: Time): map<string, Time> {
    map t | t in leases && leases[t] > now :: leases[t]
  }

  function LiveJobs(jobs: map<string, Job>, now: Time): map<string, Job> {
    map id | id in jobs && jobs[id].expiresAt > now :: jobs[id]
  }

  /** Drops client windows that have run out; the global window stays. */
  function LiveWindows(windows: map<Scope, Window>, now: Time): map<Scope, Window> {
    map s | s in windows && (s == Global || windows[s].startedAt > now - RATE_WINDOW) :: windows[s]
  }

  /** The window an acquisition at `now` would count in. */
  function ReadWindow(windows: map<Scope, Window>, scope: Scope, now: Time): Window {
    if scope !in windows || now - windows[scope].startedAt >= RATE_WINDOW then Window(now, 0) else windows[scope]
  }

  function Bump(w: Window): Window { Window(w.startedAt, w.count + 1) }

  /** The refusal of the rate limiter, if any. */
  function RateRefusal(g: Window, c: Window, now: Time): (r: Option<Answer>)
    ensures r.Some? ==> r.value.Rate?
  {
    var gBlocked, cBlocked := g.count >= RATE_GLOBAL, c.count >= RATE_PER_IP;
    if !gBlocked && !cBlocked then None
    else
      var until := if gBlocked && cBlocked then Max(g.startedAt, c.startedAt) + RATE_WINDOW
                   else if gBlocked then g.startedAt + RATE_WINDOW else c.startedAt + RATE_WINDOW;
      Some(Rate(Max(1, Seconds(until - now))))
  }

  function RateAnswer(windows: map<Scope, Window>, client: string, now: Time): Option<Answer> {
    RateRefusal(ReadWindow(windows, Global, now), ReadWindow(windows, Client(client), now), now)
  }

  /** What a live job for the same request answers. */
  function PriorAnswer(job: Job, hash: string, now: Time): (r: Answer)
    ensures r.Conflict? || r.Replay? || r.Processing?
  {
    if job.requestHash != hash then Conflict
    else if job.complete && job.result.Some? then Replay(job.result.value)
    else Processing(Max(1, Min(30, Seconds(job.expiresAt - now))))
  }

  function AcquireAnswer(g: Gate, now: Time, client: string, id: string, hash: string, token: string): Answer {
    if !Hex64(client) || !Hex64(id) || !Hex64(hash) then Invalid
    else
      var jobs := LiveJobs(g.jobs, now);
      if id in jobs then PriorAnswer(jobs[id], hash, now)
      else if LiveLeases(g.leases, now) != map[] then Busy
      else match RateAnswer(g.windows, client, now)
           case Some(answer) => answer
           case None => Acquired(token)
  }

  /** Counts an acquisition in both scopes, then drops client windows that have run out. */
  function CountedWindows(windows: map<Scope, Window>, client: string, now: Time): map<Scope, Window> {
    windows[Global := Bump(ReadWindow(windows, Global, now))]
           [Client(client) := Bump(ReadWindow(windows, Client(client), now))]
  }

  function EarlierAlarm(alarm: Option<Time>, at: Time): Option<Time> {
    if alarm == None || alarm.value > at then Some(at) else alarm
  }

  function AfterAcquire(g: Gate, now: Time, client: string, id: string, hash: string, token: string): Gate {
    match AcquireAnswer(g, now, client, id, hash, token)
    case Invalid => g
    case Acquired(_) =>
      Gate(LiveLeases(g.leases, now)[token := now + LEASE],
           LiveJobs(g.jobs, now)[id := Job(hash, false, Some(token), None, now + LEASE)],
           LiveWindows(CountedWindows(g.windows, client, now), now),
           EarlierAlarm(g.alarm, now + RATE_WINDOW + 1_000))
    case _ => g.(leases := LiveLeases(g.leases, now), jobs := LiveJobs(g.jobs, now))
  }

  /** A completion is accepted only from the token that holds the job. */
  predicate Completes(g: Gate, token: string, id: string, result: string) {
    && TokenShape(token) && Hex64(id) && |result| <= MAX_RECEIPT
    && id in g.jobs && g.jobs[id].leaseToken == Some(token)
  }

  function AfterComplete(g: Gate, now: Time, token: string, id: string, result: string): Gate {
    if !Completes(g, token, id, result) then g
    else Gate(g.leases - {token},
              g.jobs[id := g.jobs[id].(complete := true, leaseToken := None, result := Some(result), expiresAt := now + RECEIPT_TTL)],
              g.windows,
              EarlierAlarm(g.alarm, now + RECEIPT_TTL))
  }

  function AfterFail(g: Gate, token: string, id: string): Gate {
    if !TokenShape(token) || !Hex64(id) then g
    else g.(jobs := if id in g.jobs && g.jobs[id].leaseToken == Some(token) then g.jobs - {id} else g.jobs,
            leases := g.leases - {token})
  }

  function AfterRelease(g: Gate, token: string): Gate {
    if !TokenShape(token) then g else g.(leases := g.leases - {token})
  }

  /** The times the alarm has to come back for. */
  function Deadlines(jobs: map<string, Job>, windows: map<Scope, Window>): set<Time> {
    (set s | s in windows && s != Global :: windows[s].startedAt + RATE_WINDOW + 1_000)
    + (set id | id in jobs :: jobs[id].expiresAt + 1_000)
  }

  predicate IsLeast(t: Time, times: set<Time>) {
    t in times && forall u :: u in times ==> t <= u
  }

  lemma {:induction false} HasLeast(times: set<Time>)
    requires times != {}
    ensures exists t :: IsLeast(t, times)
  {
    assert (forall t :: t !in times) ==> times == {};
    var t :| t in times;
    var rest := times - {t};
    assert forall u :: u in times ==> u == t || u in rest;
    if rest == {} {
      assert IsLeast(t, times);
    } else {
      HasLeast(rest);
      var u :| IsLeast(u, rest);
      assert IsLeast(Min(t, u), times);
    }
  }

  /** SQL's MIN over both kinds of deadline. */
  ghost function NextAlarm(jobs: map<string, Job>, windows: map<Scope, Window>): (r: Option<Time>)
    ensures r == None <==> Deadlines(jobs, windows) == {}
    ensures r.Some? ==> IsLeast(r.value, Deadlines(jobs, windows))
  {
    var times := Deadlines(jobs, windows);
    if times == {} then None else HasLeast(times); var t :| IsLeast(t, times); Some(t)
  }

  /** The platform clears an alarm before it runs the handler. */
  ghost function AfterAlarm(g: Gate, now: Time): Gate {
    var jobs, windows := LiveJobs(g.jobs, now), LiveWindows(g.windows, now);
    Gate(LiveLeases(g.leases, now), jobs, windows, NextAlarm(jobs, windows))
  }

  // ---------------------------------------------------------------- the object

  class MetadataUploadGate {
    var leases: map<string, Time>
    var uploadJobs: map<string, Job>
    var rateWindows: map<Scope, Window>
    var pendingAlarm: Option<Time>

    function State(): Gate
      reads this
    {
      Gate(leases, uploadJobs, rateWindows, pendingAlarm)
    }

    constructor ()
      ensures State() == EMPTY
    {
      leases, uploadJobs, rateWindows, pendingAlarm := map[], map[], map[], None;
    }

    method Acquire(now: Time, client: string, id: string, hash: string, token: string) returns (answer: Answer)
      modifies this
      ensures answer == AcquireAnswer(old(State()), now, client, id, hash, token)
      ensures State() == AfterAcquire(old(State()), now, client, id, hash, token)
    {
      hide Hex64; hide Seconds; hide ReadWindow; hide Max; hide Min; hide RateRefusal; hide LiveLeases; hide LiveJobs; hide LiveWindows; hide PriorAnswer;
      if !Hex64(client) { return Invalid; }
      if !Hex64(id) || !Hex64(hash) { return Invalid; }
      leases := LiveLeases(leases, now);
      uploadJobs := LiveJobs(uploadJobs, now);
      if id in uploadJobs {
        return PriorAnswer(uploadJobs[id], hash, now);
      }
      if leases != map[] { return Busy; }
      var globalWindow := ReadWindow(rateWindows, Global, now);
      var clientWindow := ReadWindow(rateWindows, Client(client), now);
      var refusal := RefuseRate(globalWindow, clientWindow, now);
      if refusal.Some? { return refusal.value; }
      rateWindows := rateWindows[Global := Window(globalWindow.startedAt, globalWindow.count + 1)];
      rateWindows := rateWindows[Client(client) := Window(clientWindow.startedAt, clientWindow.count + 1)];
      rateWindows := LiveWindows(rateWindows, now);
      leases := leases[token := now + LEASE];
      uploadJobs := uploadJobs[id := Job(hash, false, Some(token), None, now + LEASE)];
      answer := Acquired(token);
      var cleanupAt := now + RATE_WINDOW + 1_000;
      if pendingAlarm == None || pendingAlarm.value > cleanupAt { pendingAlarm := Some(cleanupAt); }
    }

    /** The later of the windows that are full decides when to come back. */
    method RefuseRate(globalWindow: Window, clientWindow: Window, now: Time) returns (refusal: Option<Answer>)
      ensures refusal == RateRefusal(globalWindow, clientWindow, now)
    {
      var blockedUntil: seq<Time> := [];
      if globalWindow.count >= RATE_GLOBAL { blockedUntil := blockedUntil + [globalWindow.startedAt + RATE_WINDOW]; }
      if clientWindow.count >= RATE_PER_IP { blockedUntil := blockedUntil + [clientWindow.startedAt + RATE_WINDOW]; }
      if blockedUntil == [] { return None; }
      var until := if |blockedUntil| == 1 then blockedUntil[0] else Max(blockedUntil[0], blockedUntil[1]);
      refusal := Some(Rate(Max(1, Seconds(until - now))));
    }

    method Complete(now: Time, token: string, id: string, result: string) returns (ok: bool)
      modifies this
      ensures ok <==> Completes(old(State()), token, id, result)
      ensures ok ==> |result| <= 8_192
      ensures State() == AfterComplete(old(State()), now, token, id, result)
    {
      if !TokenShape(token) || !Hex64(id) { return false; }
      if |result| > MAX_RECEIPT { return false; }
      var expiresAt := now + RECEIPT_TTL;
      if id !in uploadJobs || uploadJobs[id].leaseToken != Some(token) { return false; }
      uploadJobs := uploadJobs[id := Job(uploadJobs[id].requestHash, true, None, Some(result), expiresAt)];
      leases := leases - {token};
      if pendingAlarm == None || pendingAlarm.value > expiresAt { pendingAlarm := Some(expiresAt); }
      ok := true;
    }

    method Fail(token: string, id: string)
      modifies this
      ensures State() == AfterFail(old(State()), token, id)
    {
      if !TokenShape(token) || !Hex64(id) { return; }
      if id in uploadJobs && uploadJobs[id].leaseToken == Some(token) { uploadJobs := uploadJobs - {id}; }
      leases := leases - {token};
    }

    method Release(token: string)
      modifies this
      ensures State() == AfterRelease(old(State()), token)
    {
      if !TokenShape(token) { return; }
      leases := leases - {token};
    }

    method Alarm(now: Time)
      modifies this
      ensures State() == AfterAlarm(old(State()), now)
    {
      pendingAlarm := None;
      leases := LiveLeases(leases, now);
      rateWindows := LiveWindows(rateWindows, now);
      uploadJobs := LiveJobs(uploadJobs, now);
      var candidates := Deadlines(uploadJobs, rateWindows);
      if candidates != {} {
        HasLeast(candidates);
        var least :| least in candidates && forall u :: u in candidates ==> least <= u;
        pendingAlarm := Some(least);
      }
    }
  }
}
