/** The rate bound of the upload gate is reached: runs of completed uploads that fit twice the
    documented cap, less one, into a single hour, overall and for one client. */
module GateSaturation {
  import opened Basics
  import opened UploadGate
  import opened GateSafety
  import opened GateRates

  // ---------------------------------------------------------------- the run

  datatype Upload = Upload(client: string, id: string, token: string)

  /** One acquisition and its accepted completion. */
  function Round(u: Upload, at: Time): seq<Event> {
    [Acquire(at, u.client, u.id, u.id, u.token), Complete(at, u.token, u.id, "")]
  }

  /** When the k-th upload happens: one opens the first window, the rest of that window fills
      just before it runs out, and the second window fills at once. */
  function Moment(limit: nat, k: nat): Time {
    if k == 0 then 0 else if k < limit then RATE_WINDOW - limit + k else RATE_WINDOW + k - limit
  }

  function WindowOf(limit: nat, k: nat): Time { if k < limit then 0 else RATE_WINDOW }

  function Counted(limit: nat, k: nat): nat { if k < limit then k else k - limit }

  function Rounds(limit: nat, us: seq<Upload>): seq<Event> {
    if us == [] then []
    else Rounds(limit, us[..|us| - 1]) + Round(us[|us| - 1], Moment(limit, |us| - 1))
  }

  function Marks(limit: nat, n: nat): seq<Hit> {
    if n == 0 then [] else Marks(limit, n - 1) + [Hit(Moment(limit, n - 1), WindowOf(limit, n - 1))]
  }

  /** Distinct ids and tokens; every client its own for the overall cap, one client for its own. */
  predicate Suitable(us: seq<Upload>, scope: Scope) {
    && (forall k :: 0 <= k < |us| ==> Hex64(us[k].client) && Hex64(us[k].id) && TokenShape(us[k].token))
    && (forall i, k :: 0 <= i < k < |us| ==> us[i].id != us[k].id && us[i].token != us[k].token)
    && (scope == Global ==> forall i, k :: 0 <= i < k < |us| ==> us[i].client != us[k].client)
    && (scope != Global ==> forall k :: 0 <= k < |us| ==> us[k].client == scope.key)
  }

  // ---------------------------------------------------------------- the state between rounds

  predicate ById(us: seq<Upload>, id: string) {
    exists k :: 0 <= k < |us| && us[k].id == id
  }

  predicate ByClient(us: seq<Upload>, client: string) {
    exists k :: 0 <= k < |us| && us[k].client == client
  }

  /** Every upload so far left its receipt, and the stay of receipts outlasts the run. */
  predicate Kept(g: Gate, us: seq<Upload>) {
    forall k :: 0 <= k < |us| ==>
      us[k].id in g.jobs && g.jobs[us[k].id].complete && g.jobs[us[k].id].expiresAt > 2 * RATE_WINDOW
  }

  ghost predicate Between(g: Gate, us: seq<Upload>, scope: Scope) {
    var n, limit := |us|, Limit(scope);
    && g.leases == map[] && Kept(g, us)
    && (forall id :: id in g.jobs ==> ById(us, id))
    && (n == 0 ==> g.windows == map[])
    && (n > 0 ==> scope in g.windows && g.windows[scope] == Window(WindowOf(limit, n - 1), Counted(limit, n - 1) + 1))
    && (scope == Global ==> forall c :: Client(c) in g.windows ==> ByClient(us, c))
    && (scope != Global && n > 0 ==> Global in g.windows && g.windows[Global] == g.windows[scope])
  }

  lemma NotYetUsed(us: seq<Upload>, u: Upload, scope: Scope)
    requires Suitable(us + [u], scope)
    ensures !ById(us, u.id) && (scope == Global ==> !ByClient(us, u.client))
    ensures Hex64(u.client) && Hex64(u.id) && TokenShape(u.token)
    ensures scope != Global ==> u.client == scope.key
  {
    hide Hex64; hide TokenShape;
    var us' := us + [u];
    assert us'[|us|] == u && forall k :: 0 <= k < |us| ==> us'[k] == us[k];
  }

  /** What the next acquisition reads: its scope's window is not full, and neither is the other. */
  lemma NextReads(g: Gate, us: seq<Upload>, u: Upload, scope: Scope)
    requires Between(g, us, scope) && |us| < 2 * Limit(scope) && Suitable(us + [u], scope)
    ensures var limit, n := Limit(scope), |us|;
            var at := Moment(limit, n);
            && ReadWindow(g.windows, scope, at) == Window(WindowOf(limit, n), Counted(limit, n))
            && (if scope == Global then ReadWindow(g.windows, Client(u.client), at) == Window(at, 0)
                else u.client == scope.key && ReadWindow(g.windows, Global, at) == Window(WindowOf(limit, n), Counted(limit, n)))
  {
    hide Suitable; hide ByClient; hide Kept; hide ById;
    NotYetUsed(us, u, scope);
  }

  /** A round on an idle gate with room in both windows is an upload from start to receipt. */
  lemma RoundCompletes(g: Gate, u: Upload, at: Time)
    requires g.leases == map[] && u.id !in g.jobs
    requires Hex64(u.client) && Hex64(u.id) && TokenShape(u.token)
    requires ReadWindow(g.windows, Global, at).count < RATE_GLOBAL && ReadWindow(g.windows, Client(u.client), at).count < RATE_PER_IP
    ensures Succeeds(g, Round(u, at)[0])
    ensures var held := Step(g, Round(u, at)[0]);
            var g' := Step(held, Round(u, at)[1]);
            && Completes(held, u.token, u.id, "")
            && g'.leases == map[]
            && g'.jobs == LiveJobs(g.jobs, at)[u.id := Job(u.id, true, None, Some(""), at + RECEIPT_TTL)]
            && g'.windows == LiveWindows(CountedWindows(g.windows, u.client, at), at)
  {
    hide Hex64; hide TokenShape; hide ReadWindow; hide LiveWindows; hide CountedWindows;
    assert LiveLeases(g.leases, at) == map[];
    var held := Step(g, Round(u, at)[0]);
    assert held.leases == map[u.token := at + LEASE];
    assert held.jobs[u.id] == Job(u.id, false, Some(u.token), None, at + LEASE);
  }

  lemma KeptStep(g: Gate, us: seq<Upload>, u: Upload, at: Time, jobs: map<string, Job>)
    requires Kept(g, us) && (forall id :: id in g.jobs ==> ById(us, id)) && 0 <= at < 2 * RATE_WINDOW
    requires jobs == LiveJobs(g.jobs, at)[u.id := Job(u.id, true, None, Some(""), at + RECEIPT_TTL)]
    requires !ById(us, u.id)
    ensures Kept(g.(jobs := jobs), us + [u]) && forall id :: id in jobs ==> ById(us + [u], id)
  {
    var us' := us + [u];
    assert us'[|us|] == u && forall k :: 0 <= k < |us| ==> us'[k] == us[k];
    forall id | id in jobs ensures ById(us', id) {
      if id != u.id {
        var k :| 0 <= k < |us| && us[k].id == id;
        assert us'[k].id == id;
      }
    }
  }

  lemma ClientsStep(g: Gate, us: seq<Upload>, u: Upload, at: Time)
    requires forall c :: Client(c) in g.windows ==> ByClient(us, c)
    ensures forall c :: Client(c) in LiveWindows(CountedWindows(g.windows, u.client, at), at) ==> ByClient(us + [u], c)
  {
    hide ReadWindow;
    var us' := us + [u];
    forall c | Client(c) in LiveWindows(CountedWindows(g.windows, u.client, at), at) ensures ByClient(us', c) {
      if c == u.client {
        assert us'[|us|].client == c;
      } else {
        var k :| 0 <= k < |us| && us[k].client == c;
        assert us'[k].client == c;
      }
    }
  }

  lemma BetweenStep(g: Gate, us: seq<Upload>, u: Upload, scope: Scope, g': Gate)
    requires Between(g, us, scope) && |us| < 2 * Limit(scope) && Suitable(us + [u], scope)
    requires var at := Moment(Limit(scope), |us|);
             && g'.leases == map[]
             && g'.jobs == LiveJobs(g.jobs, at)[u.id := Job(u.id, true, None, Some(""), at + RECEIPT_TTL)]
             && g'.windows == LiveWindows(CountedWindows(g.windows, u.client, at), at)
    ensures Between(g', us + [u], scope)
  {
    hide Suitable; hide ReadWindow; hide ByClient; hide ById; hide Kept;
    var at := Moment(Limit(scope), |us|);
    NextReads(g, us, u, scope);
    NotYetUsed(us, u, scope);
    KeptStep(g, us, u, at, g'.jobs);
    KeptByJobs(g.(jobs := g'.jobs), g', us + [u]);
    if scope == Global { ClientsStep(g, us, u, at); }
  }

  lemma KeptByJobs(g: Gate, g': Gate, us: seq<Upload>)
    requires Kept(g, us) && g.jobs == g'.jobs
    ensures Kept(g', us)
  {
  }

  // ---------------------------------------------------------------- the whole run

  lemma SuitablePrefix(us: seq<Upload>, scope: Scope)
    requires us != [] && Suitable(us, scope)
    ensures Suitable(us[..|us| - 1], scope)
  {
    hide Hex64; hide TokenShape;
  }

  /** Where the run stands after its rounds. */
  ghost predicate Reached(us: seq<Upload>, scope: Scope) {
    var es := Rounds(Limit(scope), us);
    Between(Run(EMPTY, es), us, scope) && Hits(es, scope) == Marks(Limit(scope), |us|)
  }

  lemma {:induction false} Saturated(us: seq<Upload>, scope: Scope)
    requires Suitable(us, scope) && |us| <= 2 * Limit(scope)
    ensures Reached(us, scope)
  {
    if us == [] {
    } else {
      hide Reached;
      var front, u := us[..|us| - 1], us[|us| - 1];
      assert us == front + [u];
      SuitablePrefix(us, scope);
      Saturated(front, scope);
      OneMoreRound(front, u, scope);
    }
  }

  lemma OneMoreRound(us: seq<Upload>, u: Upload, scope: Scope)
    requires Reached(us, scope) && |us| < 2 * Limit(scope) && Suitable(us + [u], scope)
    ensures Reached(us + [u], scope)
  {
    hide Between; hide Step; hide Suitable; hide Succeeds; hide ReadWindow; hide Run; hide Hits; hide InScope;
    hide Moment; hide WindowOf; hide Limit;
    var es, at := Rounds(Limit(scope), us), Moment(Limit(scope), |us|);
    var acquire, done := Round(u, at)[0], Round(u, at)[1];
    RoundOnIdle(Run(EMPTY, es), us, u, scope);
    OneUpload(es, acquire, done, scope);
    assert (us + [u])[..|us|] == us;
    assert Rounds(Limit(scope), us + [u]) == es + [acquire] + [done];
  }

  /** An accepted acquisition and what follows it add one hit to the history. */
  lemma OneUpload(es: seq<Event>, acquire: Event, done: Event, scope: Scope)
    requires var g := Run(EMPTY, es); InScope(acquire, scope) && Succeeds(g, acquire) && !InScope(done, scope)
    ensures Run(EMPTY, es + [acquire] + [done]) == Step(Step(Run(EMPTY, es), acquire), done)
    ensures Hits(es + [acquire] + [done], scope)
            == Hits(es, scope) + [Hit(acquire.at, ReadWindow(Run(EMPTY, es).windows, scope, acquire.at).startedAt)]
  {
    hide Step; hide Succeeds; hide ReadWindow;
    assert (es + [acquire])[..|es|] == es && (es + [acquire] + [done])[..|es| + 1] == es + [acquire];
    assert Hits(es + [acquire] + [done], scope) == Hits(es + [acquire], scope);
  }

  lemma RoundOnIdle(g: Gate, us: seq<Upload>, u: Upload, scope: Scope)
    requires Between(g, us, scope) && |us| < 2 * Limit(scope) && Suitable(us + [u], scope)
    ensures var limit := Limit(scope);
            var at := Moment(limit, |us|);
            var acquire, done := Round(u, at)[0], Round(u, at)[1];
            && InScope(acquire, scope) && Succeeds(g, acquire) && !InScope(done, scope)
            && ReadWindow(g.windows, scope, at).startedAt == WindowOf(limit, |us|)
            && Between(Step(Step(g, acquire), done), us + [u], scope)
  {
    hide Step; hide Succeeds; hide ReadWindow; hide Suitable; hide Kept; hide ById; hide ByClient;
    var at := Moment(Limit(scope), |us|);
    NextReads(g, us, u, scope);
    NotYetUsed(us, u, scope);
    RoundCompletes(g, u, at);
    BetweenStep(g, us, u, scope, Step(Step(g, Round(u, at)[0]), Round(u, at)[1]));
  }

  lemma {:induction false} RoundsAt(limit: nat, us: seq<Upload>, i: nat)
    requires i < 2 * |us|
    ensures |Rounds(limit, us)| == 2 * |us|
    ensures Rounds(limit, us)[i] == Round(us[i / 2], Moment(limit, i / 2))[i % 2]
    decreases |us|
  {
    var n := |us| - 1;
    var front := Rounds(limit, us[..n]);
    if n == 0 {
      assert front == [];
    } else {
      RoundsAt(limit, us[..n], if i < 2 * n then i else 0);
    }
  }

  lemma RoundsOrdered(limit: nat, us: seq<Upload>)
    requires 0 < limit < RATE_WINDOW
    ensures Monotone(Rounds(limit, us))
  {
    var es := Rounds(limit, us);
    if us != [] { RoundsAt(limit, us, 0); }
    forall i, k | 0 <= i < k < |es| ensures es[i].at <= es[k].at {
      RoundsAt(limit, us, i);
      RoundsAt(limit, us, k);
    }
  }

  lemma RoundsFresh(limit: nat, us: seq<Upload>)
    requires forall i, k :: 0 <= i < k < |us| ==> us[i].token != us[k].token
    ensures FreshTokens(Rounds(limit, us))
  {
    var es := Rounds(limit, us);
    if us != [] { RoundsAt(limit, us, 0); }
    forall i, k | 0 <= i < k < |es| && es[i].Acquire? && es[k].Acquire? ensures es[i].token != es[k].token {
      RoundsAt(limit, us, i);
      RoundsAt(limit, us, k);
      assert i / 2 < k / 2;
    }
  }

  lemma InHourSnoc(hits: seq<Hit>, h: Hit, t: Time)
    ensures InHour(hits + [h], t) == InHour(hits, t) + if t <= h.at < t + HOUR then 1 else 0
  {
    assert (hits + [h])[..|hits|] == hits;
  }

  lemma {:induction false} MarksInHour(limit: nat, n: nat)
    requires 0 < 2 * limit < RATE_WINDOW && n <= 2 * limit
    ensures InHour(Marks(limit, n), RATE_WINDOW - limit + 1) == if n == 0 then 0 else n - 1
  {
    if n == 0 {
    } else {
      MarksInHour(limit, n - 1);
      InHourSnoc(Marks(limit, n - 1), Hit(Moment(limit, n - 1), WindowOf(limit, n - 1)), RATE_WINDOW - limit + 1);
    }
  }

  /** The bound of any hour is reached, overall and per client, by uploads that all complete. */
  lemma BoundReached(us: seq<Upload>, scope: Scope)
    requires Suitable(us, scope) && |us| == 2 * Limit(scope)
    ensures var es := Rounds(Limit(scope), us);
            && Monotone(es)
            && InHour(Hits(es, scope), RATE_WINDOW - Limit(scope) + 1) == 2 * Limit(scope) - 1
            && Kept(Run(EMPTY, es), us)
  {
    hide Suitable;
    Saturated(us, scope);
    RoundsOrdered(Limit(scope), us);
    MarksInHour(Limit(scope), |us|);
  }

  // ---------------------------------------------------------------- actual runs

  function HexDigit(d: nat): (c: char)
    requires d < 16
    ensures Hex(c)
  {
    if d < 10 then '0' + d as char else 'a' + (d - 10) as char
  }

  /** The k-th of 256 distinct names of a given length. */
  function Name(width: nat, k: nat): (s: string)
    requires width >= 2 && k < 256
    ensures |s| == width && forall i :: 0 <= i < width ==> Hex(s[i])
  {
    seq(width - 2, _ => '0') + [HexDigit(k / 16), HexDigit(k % 16)]
  }

  lemma NamesDiffer(width: nat, i: nat, k: nat)
    requires width >= 2 && i < k < 256
    ensures Name(width, i) != Name(width, k)
  {
    assert Name(width, i)[width - 2] == HexDigit(i / 16) && Name(width, k)[width - 2] == HexDigit(k / 16);
    assert Name(width, i)[width - 1] == HexDigit(i % 16) && Name(width, k)[width - 1] == HexDigit(k % 16);
    assert i == i / 16 * 16 + i % 16 && k == k / 16 * 16 + k % 16;
  }

  function Uploads(scope: Scope, n: nat): (us: seq<Upload>)
    requires n <= 256
    ensures |us| == n
  {
    seq(n, k requires 0 <= k < n => Upload(if scope == Global then Name(64, k) else scope.key, Name(64, k), Name(36, k)))
  }

  lemma UploadsSuitable(scope: Scope, n: nat)
    requires n <= 256 && (scope != Global ==> Hex64(scope.key))
    ensures Suitable(Uploads(scope, n), scope)
  {
    hide HexDigit; hide Name;
    forall i, k | 0 <= i < k < n ensures Name(64, i) != Name(64, k) && Name(36, i) != Name(36, k) {
      NamesDiffer(64, i, k);
      NamesDiffer(36, i, k);
    }
  }

  /** The cap of 30 an hour holds per window, not per hour: a run of sixty uploads by sixty
      clients, each completed, has 59 of them within sixty milliseconds. */
  lemma FiftyNineInOneHour() returns (us: seq<Upload>, es: seq<Event>)
    ensures |us| == 60 && es == Rounds(RATE_GLOBAL, us) && Monotone(es) && FreshTokens(es)
    ensures InHour(Hits(es, Global), RATE_WINDOW - RATE_GLOBAL + 1) == 59 == 2 * Limit(Global) - 1
    ensures Kept(Run(EMPTY, es), us)
  {
    hide Uploads;
    us := Uploads(Global, 60);
    es := Rounds(RATE_GLOBAL, us);
    UploadsSuitable(Global, 60);
    BoundReached(us, Global);
    RoundsFresh(RATE_GLOBAL, us);
  }

  /** And any client can complete five uploads within six milliseconds. */
  lemma FiveInOneHour(client: string) returns (us: seq<Upload>, es: seq<Event>)
    requires Hex64(client)
    ensures |us| == 6 && es == Rounds(RATE_PER_IP, us) && Monotone(es) && FreshTokens(es)
    ensures InHour(Hits(es, Client(client)), RATE_WINDOW - RATE_PER_IP + 1) == 5 == 2 * Limit(Client(client)) - 1
    ensures Kept(Run(EMPTY, es), us)
  {
    hide Uploads;
    us := Uploads(Client(client), 6);
    es := Rounds(RATE_PER_IP, us);
    UploadsSuitable(Client(client), 6);
    BoundReached(us, Client(client));
    RoundsFresh(RATE_PER_IP, us);
  }
}
