/** The rate limiter inside the upload gate: how many acquisitions any hour can hold, that
    forgetting old client windows is unobservable, and that cleanup is always scheduled. */
module GateRates {
  import opened Basics
  import opened UploadGate
  import opened GateSafety

  // ---------------------------------------------------------------- history of a scope

  /** One acquisition: when, and the start of the window it was counted in. */
  datatype Hit = Hit(at: Time, start: Time)

  predicate InScope(e: Event, scope: Scope) {
    e.Acquire? && (scope == Global || scope == Client(e.client))
  }

  /** The hour the documented caps speak of. */
  const HOUR: Time := 3_600_000

  /** The documented caps. */
  function Limit(scope: Scope): nat { if scope == Global then 30 else 3 }

  /** The acquisitions of a scope over a run from the empty gate. */
  ghost function Hits(es: seq<Event>, scope: Scope): seq<Hit> {
    if es == [] then []
    else
      var front, e := es[..|es| - 1], es[|es| - 1];
      var before := Run(EMPTY, front);
      if InScope(e, scope) && Succeeds(before, e)
      then Hits(front, scope) + [Hit(e.at, ReadWindow(before.windows, scope, e.at).startedAt)]
      else Hits(front, scope)
  }

  /** How many hits were counted in the window that started at s. */
  function InWindow(hits: seq<Hit>, s: Time): nat {
    if hits == [] then 0
    else InWindow(hits[..|hits| - 1], s) + if hits[|hits| - 1].start == s then 1 else 0
  }

  /** How many hits happened in the hour from t on. */
  function InHour(hits: seq<Hit>, t: Time): nat {
    if hits == [] then 0
    else InHour(hits[..|hits| - 1], t) + if t <= hits[|hits| - 1].at < t + HOUR then 1 else 0
  }

  /** Windows of one scope are disjoint hours, none above its limit, and the stored window is
      the last of them. */
  ghost predicate ScopeInv(hits: seq<Hit>, windows: map<Scope, Window>, scope: Scope, now: Time) {
    && (forall i :: 0 <= i < |hits| ==> hits[i].start <= hits[i].at < hits[i].start + RATE_WINDOW)
    && (forall i, j :: 0 <= i < j < |hits| ==> Apart(hits[i].start, hits[j].start))
    && (forall s :: InWindow(hits, s) <= Limit(scope))
    && (forall i :: 0 <= i < |hits| ==> Led(hits, hits[i].start))
    && if scope in windows then
         && windows[scope].startedAt <= now
         && windows[scope].count >= 1
         && InWindow(hits, windows[scope].startedAt) == windows[scope].count
         && forall i :: 0 <= i < |hits| ==> Apart(hits[i].start, windows[scope].startedAt)
       else forall i :: 0 <= i < |hits| ==> hits[i].start + RATE_WINDOW <= now
  }

  /** A window starts at its first acquisition. */
  predicate Led(hits: seq<Hit>, s: Time) {
    exists j :: 0 <= j < |hits| && hits[j].start == s && hits[j].at == s
  }

  /** The same window, or an earlier one that had ended by then. */
  predicate Apart(s: Time, s': Time) { s == s' || s + RATE_WINDOW <= s' }

  lemma {:induction false} NotInWindow(hits: seq<Hit>, s: Time)
    requires forall i :: 0 <= i < |hits| ==> hits[i].start != s
    ensures InWindow(hits, s) == 0
  {
    if hits == [] {
    } else {
      NotInWindow(hits[..|hits| - 1], s);
    }
  }

  lemma {:induction false} SomeInWindow(hits: seq<Hit>, s: Time)
    requires InWindow(hits, s) >= 1
    ensures exists i :: 0 <= i < |hits| && hits[i].start == s
  {
    var front, last := hits[..|hits| - 1], hits[|hits| - 1];
    if last.start == s {
    } else {
      SomeInWindow(front, s);
      var i :| 0 <= i < |front| && front[i].start == s;
      assert hits[i].start == s;
    }
  }

  lemma LedSnoc(hits: seq<Hit>, h: Hit, s: Time)
    requires Led(hits, s) || (h.start == s && h.at == s)
    ensures Led(hits + [h], s)
  {
    if Led(hits, s) {
      var j :| 0 <= j < |hits| && hits[j].start == s && hits[j].at == s;
      assert (hits + [h])[j] == hits[j];
    } else {
      assert (hits + [h])[|hits|] == h;
    }
  }

  lemma InWindowSnoc(hits: seq<Hit>, h: Hit, s: Time)
    ensures InWindow(hits + [h], s) == InWindow(hits, s) + if h.start == s then 1 else 0
  {
    assert (hits + [h])[..|hits|] == hits;
  }

  /** Time may pass, and an expired client window may be forgotten. */
  lemma ScopeInvLater(hits: seq<Hit>, windows: map<Scope, Window>, windows': map<Scope, Window>, scope: Scope, now: Time, now': Time)
    requires ScopeInv(hits, windows, scope, now) && now <= now'
    requires scope in windows' ==> scope in windows && windows'[scope] == windows[scope]
    requires scope in windows && scope !in windows' ==> windows[scope].startedAt + RATE_WINDOW <= now'
    ensures ScopeInv(hits, windows', scope, now')
  {
    if scope in windows && scope !in windows' {
      forall i | 0 <= i < |hits| ensures hits[i].start + RATE_WINDOW <= now' {
        assert Apart(hits[i].start, windows[scope].startedAt);
      }
    }
  }

  /** The window an acquisition reads continues the history, or starts after all of it. */
  lemma ReadContinues(hits: seq<Hit>, windows: map<Scope, Window>, scope: Scope, now: Time)
    requires ScopeInv(hits, windows, scope, now)
    ensures var w := ReadWindow(windows, scope, now);
            && w.startedAt <= now < w.startedAt + RATE_WINDOW
            && InWindow(hits, w.startedAt) == w.count
            && (forall i :: 0 <= i < |hits| ==> Apart(hits[i].start, w.startedAt))
            && (w.startedAt == now || Led(hits, w.startedAt))
  {
    var w := ReadWindow(windows, scope, now);
    if scope !in windows || now - windows[scope].startedAt >= RATE_WINDOW {
      forall i | 0 <= i < |hits| ensures hits[i].start + RATE_WINDOW <= now {
        if scope in windows { assert Apart(hits[i].start, windows[scope].startedAt); }
      }
      NotInWindow(hits, now);
    } else {
      SomeInWindow(hits, w.startedAt);
    }
  }

  /** Counting one more acquisition in the window it reads. */
  lemma ScopeInvHit(hits: seq<Hit>, windows: map<Scope, Window>, windows': map<Scope, Window>, scope: Scope, now: Time)
    requires ScopeInv(hits, windows, scope, now)
    requires ReadWindow(windows, scope, now).count < Limit(scope)
    requires scope in windows' && windows'[scope] == Bump(ReadWindow(windows, scope, now))
    ensures ScopeInv(hits + [Hit(now, ReadWindow(windows, scope, now).startedAt)], windows', scope, now)
  {
    hide ReadWindow; hide Led; hide InWindow; hide Limit;
    var w := ReadWindow(windows, scope, now);
    var h := Hit(now, w.startedAt);
    ReadContinues(hits, windows, scope, now);
    forall s ensures InWindow(hits + [h], s) <= Limit(scope) { InWindowSnoc(hits, h, s); }
    InWindowSnoc(hits, h, w.startedAt);
    forall i | 0 <= i < |hits + [h]| ensures Led(hits + [h], (hits + [h])[i].start) {
      LedSnoc(hits, h, (hits + [h])[i].start);
    }
  }

  /** What a step does to the window of a scope. */
  lemma StepWindows(g: Gate, e: Event, scope: Scope)
    ensures var ws, ws' := g.windows, Step(g, e).windows;
            if InScope(e, scope) && Succeeds(g, e) then
              && ReadWindow(ws, scope, e.at).count < Limit(scope)
              && scope in ws' && ws'[scope] == Bump(ReadWindow(ws, scope, e.at))
            else
              && (scope in ws' ==> scope in ws && ws'[scope] == ws[scope])
              && (scope in ws && scope !in ws' ==> ws[scope].startedAt + RATE_WINDOW <= e.at)
  {
    hide Hex64; hide PriorAnswer; hide LiveLeases; hide LiveJobs; hide Completes; hide NextAlarm; hide TokenShape;
  }

  lemma {:induction false} HistoryInv(es: seq<Event>, scope: Scope, now: Time)
    requires Monotone(es) && forall i :: 0 <= i < |es| ==> es[i].at <= now
    ensures ScopeInv(Hits(es, scope), Run(EMPTY, es).windows, scope, now)
  {
    if es == [] {
    } else {
      hide ScopeInv; hide Step; hide ReadWindow; hide Succeeds;
      var front, e := es[..|es| - 1], es[|es| - 1];
      var before, after := Run(EMPTY, front), Run(EMPTY, es);
      HistoryInv(front, scope, e.at);
      StepWindows(before, e, scope);
      if InScope(e, scope) && Succeeds(before, e) {
        ScopeInvHit(Hits(front, scope), before.windows, after.windows, scope, e.at);
        ScopeInvLater(Hits(es, scope), after.windows, after.windows, scope, e.at, now);
      } else {
        ScopeInvLater(Hits(front, scope), before.windows, after.windows, scope, e.at, now);
      }
    }
  }

  // ---------------------------------------------------------------- the bound

  lemma {:induction false} HourWithinTwoWindows(hits: seq<Hit>, t: Time, s1: Time, s2: Time)
    requires s1 != s2
    requires forall i :: 0 <= i < |hits| && t <= hits[i].at < t + HOUR ==> hits[i].start == s1 || hits[i].start == s2
    ensures InHour(hits, t) <= InWindow(hits, s1) + InWindow(hits, s2)
    ensures s1 < t && Led(hits, s1) ==> InHour(hits, t) < InWindow(hits, s1) + InWindow(hits, s2)
  {
    if hits == [] {
    } else {
      var front := hits[..|hits| - 1];
      HourWithinTwoWindows(front, t, s1, s2);
      if Led(hits, s1) {
        var j :| 0 <= j < |hits| && hits[j].start == s1 && hits[j].at == s1;
        if j < |front| { assert front[j] == hits[j]; }
      }
    }
  }

  predicate HitsIn(hits: seq<Hit>, t: Time, i: int) {
    0 <= i < |hits| && t <= hits[i].at < t + HOUR
  }

  /** An hour meets at most two windows of one scope; when it meets two, the earlier one had
      started before the hour did. */
  lemma TwoWindows(hits: seq<Hit>, t: Time) returns (s1: Time, s2: Time)
    requires forall i :: 0 <= i < |hits| ==> hits[i].start <= hits[i].at < hits[i].start + RATE_WINDOW
    requires forall i, j :: 0 <= i < j < |hits| ==> Apart(hits[i].start, hits[j].start)
    ensures s1 != s2
    ensures forall i :: HitsIn(hits, t, i) ==> hits[i].start == s1 || hits[i].start == s2
    ensures (exists i :: 0 <= i < |hits| && hits[i].start == s1 && s1 < t) || InWindow(hits, s1) == 0
  {
    s1, s2 := t - 2 * RATE_WINDOW, t - 3 * RATE_WINDOW;
    if exists i :: HitsIn(hits, t, i) {
      var i :| HitsIn(hits, t, i);
      s2 := hits[i].start;
      if exists j :: HitsIn(hits, t, j) && hits[j].start != s2 {
        var j :| HitsIn(hits, t, j) && hits[j].start != s2;
        s1 := hits[j].start;
        assert i < j ==> Apart(s2, s1);
        assert j < i ==> Apart(s1, s2);
        forall k | HitsIn(hits, t, k) ensures hits[k].start == s1 || hits[k].start == s2 {
          NoThirdWindow(hits, t, i, j, k);
        }
        if s2 < s1 {
          assert hits[i].start == s2;
          s1, s2 := s2, s1;
        }
      } else {
        s1 := OtherWindow(hits, s2);
      }
    }
    if InWindow(hits, s1) >= 1 { SomeInWindow(hits, s1); }
  }

  lemma OtherWindow(hits: seq<Hit>, s: Time) returns (other: Time)
    ensures other != s && forall i :: 0 <= i < |hits| ==> hits[i].start != other
    ensures InWindow(hits, other) == 0
  {
    other := s + 1;
    for k := 0 to |hits|
      invariant other > s && forall i :: 0 <= i < k ==> hits[i].start < other
    {
      if hits[k].start >= other { other := hits[k].start + 1; }
    }
    NotInWindow(hits, other);
  }

  lemma NoThirdWindow(hits: seq<Hit>, t: Time, i: nat, j: nat, k: nat)
    requires forall i :: 0 <= i < |hits| ==> hits[i].start <= hits[i].at < hits[i].start + RATE_WINDOW
    requires forall i, j :: 0 <= i < j < |hits| ==> Apart(hits[i].start, hits[j].start)
    requires HitsIn(hits, t, i) && HitsIn(hits, t, j) && HitsIn(hits, t, k) && hits[i].start != hits[j].start
    ensures hits[k].start == hits[i].start || hits[k].start == hits[j].start
  {
    var s1, s2, s3 := hits[i].start, hits[j].start, hits[k].start;
    assert s1 == s2 || Apart(s1, s2) || Apart(s2, s1);
    assert s3 == s1 || Apart(s1, s3) || Apart(s3, s1);
    assert s3 == s2 || Apart(s2, s3) || Apart(s3, s2);
  }

  /** Any half-open hour holds at most 5 acquisitions of one client and 59 overall, and no
      window holds more than 3 and 30. */
  lemma RateBound(es: seq<Event>, scope: Scope, t: Time)
    requires Monotone(es)
    ensures InHour(Hits(es, scope), t) <= 2 * Limit(scope) - 1 == if scope == Global then 59 else 5
    ensures forall s :: InWindow(Hits(es, scope), s) <= Limit(scope)
  {
    HistoryInv(es, scope, if es == [] then 0 else es[|es| - 1].at);
    var hits := Hits(es, scope);
    var s1, s2 := TwoWindows(hits, t);
    HourWithinTwoWindows(hits, t, s1, s2);
    if InWindow(hits, s1) > 0 {
      var i :| 0 <= i < |hits| && hits[i].start == s1 && s1 < t;
      assert Led(hits, hits[i].start);
    }
  }

  // ---------------------------------------------------------------- when the cap holds

  /** How many hits of the hour from t were counted in the window that started at s. */
  function InPart(hits: seq<Hit>, t: Time, s: Time): nat {
    if hits == [] then 0
    else
      var last := hits[|hits| - 1];
      InPart(hits[..|hits| - 1], t, s) + if last.start == s && t <= last.at < t + HOUR then 1 else 0
  }

  lemma {:induction false} HourParts(hits: seq<Hit>, t: Time, s1: Time, s2: Time)
    requires s1 != s2 && forall i :: HitsIn(hits, t, i) ==> hits[i].start == s1 || hits[i].start == s2
    ensures InHour(hits, t) == InPart(hits, t, s1) + InPart(hits, t, s2)
  {
    if hits == [] {
    } else {
      var front := hits[..|hits| - 1];
      assert forall i :: HitsIn(front, t, i) ==> HitsIn(hits, t, i);
      assert HitsIn(hits, t, |hits| - 1) <==> t <= hits[|hits| - 1].at < t + HOUR;
      HourParts(front, t, s1, s2);
    }
  }

  lemma {:induction false} PartWithinWindow(hits: seq<Hit>, t: Time, s: Time)
    ensures InPart(hits, t, s) <= InWindow(hits, s)
    ensures InPart(hits, t, s) > 0 ==> exists i :: HitsIn(hits, t, i) && hits[i].start == s
  {
    if hits == [] {
    } else {
      var front, last := hits[..|hits| - 1], hits[|hits| - 1];
      PartWithinWindow(front, t, s);
      if InPart(front, t, s) > 0 {
        var i :| HitsIn(front, t, i) && front[i].start == s;
        assert HitsIn(hits, t, i);
      } else if InPart(hits, t, s) > 0 {
        assert HitsIn(hits, t, |front|);
      }
    }
  }

  /** An hour whose acquisitions were all counted in one window keeps the cap. */
  lemma OneWindowHour(es: seq<Event>, scope: Scope, t: Time, s: Time)
    requires Monotone(es)
    requires forall i :: HitsIn(Hits(es, scope), t, i) ==> Hits(es, scope)[i].start == s
    ensures InHour(Hits(es, scope), t) <= Limit(scope)
  {
    var hits := Hits(es, scope);
    RateBound(es, scope, t);
    HourParts(hits, t, s, s + 1);
    PartWithinWindow(hits, t, s);
    PartWithinWindow(hits, t, s + 1);
  }

  /** In particular the cap holds for the hour that begins with a window. */
  lemma WindowHour(es: seq<Event>, scope: Scope, i: int)
    requires Monotone(es) && 0 <= i < |Hits(es, scope)|
    ensures InHour(Hits(es, scope), Hits(es, scope)[i].start) <= Limit(scope)
  {
    hide ScopeInv;
    var hits := Hits(es, scope);
    var s := hits[i].start;
    WindowsApart(es, scope);
    forall k | HitsIn(hits, s, k) ensures hits[k].start == s {
      assert k < i ==> Apart(hits[k].start, s);
      assert i < k ==> Apart(s, hits[k].start);
    }
    OneWindowHour(es, scope, s, s);
  }

  lemma WindowsApart(es: seq<Event>, scope: Scope)
    requires Monotone(es)
    ensures var hits := Hits(es, scope);
            && (forall i :: 0 <= i < |hits| ==> hits[i].start <= hits[i].at < hits[i].start + RATE_WINDOW)
            && (forall i, j :: 0 <= i < j < |hits| ==> Apart(hits[i].start, hits[j].start))
  {
    HistoryInv(es, scope, if es == [] then 0 else es[|es| - 1].at);
  }

  /** An hour breaks the cap exactly when what it holds of two windows adds up to more than the
      limit, which takes acquisitions of both, the older window having started before the hour. */
  lemma CapBrokenAcrossWindows(es: seq<Event>, scope: Scope, t: Time) returns (s1: Time, s2: Time)
    requires Monotone(es)
    ensures InHour(Hits(es, scope), t) > Limit(scope) <==>
            InPart(Hits(es, scope), t, s1) + InPart(Hits(es, scope), t, s2) > Limit(scope)
    ensures InHour(Hits(es, scope), t) > Limit(scope) ==>
      && 0 < InPart(Hits(es, scope), t, s1) <= Limit(scope) && 0 < InPart(Hits(es, scope), t, s2) <= Limit(scope)
      && s1 < t && s1 + RATE_WINDOW <= s2 < t + HOUR
  {
    var hits := Hits(es, scope);
    RateBound(es, scope, t);
    WindowsApart(es, scope);
    s1, s2 := TwoWindows(hits, t);
    HourParts(hits, t, s1, s2);
    PartWithinWindow(hits, t, s1);
    PartWithinWindow(hits, t, s2);
    if InHour(hits, t) > Limit(scope) {
      var i :| HitsIn(hits, t, i) && hits[i].start == s1;
      var j :| HitsIn(hits, t, j) && hits[j].start == s2;
      CountedHit(hits, s1, i);
      assert i < j ==> Apart(s1, s2);
      assert j < i ==> Apart(s2, s1);
    }
  }

  lemma {:induction false} CountedHit(hits: seq<Hit>, s: Time, i: int)
    requires 0 <= i < |hits| && hits[i].start == s
    ensures InWindow(hits, s) >= 1
  {
    if i == |hits| - 1 {
    } else {
      CountedHit(hits[..|hits| - 1], s, i);
    }
  }

  // ---------------------------------------------------------------- forgetting is harmless

  /** The gate without the deletion of old client windows. */
  ghost function KeepingStep(g: Gate, e: Event): Gate {
    var g' := Step(g, e);
    match e
    case Acquire(at, client, _, _, _) => if Succeeds(g, e) then g'.(windows := CountedWindows(g.windows, client, at)) else g'
    case Alarm(_) => g'.(windows := g.windows)
    case _ => g'
  }

  ghost function KeepingRun(g: Gate, es: seq<Event>): Gate {
    if es == [] then g else KeepingStep(KeepingRun(g, es[..|es| - 1]), es[|es| - 1])
  }

  /** Nobody who reads windows at `now` or later can tell the two tables apart. */
  ghost predicate SameReads(ws: map<Scope, Window>, ws': map<Scope, Window>, now: Time) {
    forall scope :: SameRead(ws, ws', scope, now)
  }

  predicate SameRead(ws: map<Scope, Window>, ws': map<Scope, Window>, scope: Scope, now: Time) {
    || (scope in ws && scope in ws' && ws[scope] == ws'[scope])
    || (&& (scope in ws ==> ws[scope].startedAt + RATE_WINDOW <= now)
        && (scope in ws' ==> ws'[scope].startedAt + RATE_WINDOW <= now))
  }

  ghost predicate SameGate(g: Gate, g': Gate, now: Time) {
    g.leases == g'.leases && g.jobs == g'.jobs && SameReads(g.windows, g'.windows, now)
  }

  lemma ReadsAgree(ws: map<Scope, Window>, ws': map<Scope, Window>, scope: Scope, now: Time, at: Time)
    requires SameReads(ws, ws', now) && now <= at
    ensures ReadWindow(ws, scope, at) == ReadWindow(ws', scope, at)
  {
    assert SameRead(ws, ws', scope, now);
  }

  lemma DropAgrees(ws: map<Scope, Window>, ws': map<Scope, Window>, now: Time, at: Time)
    requires SameReads(ws, ws', now) && now <= at
    ensures SameReads(LiveWindows(ws, at), ws', at) && SameReads(ws, ws', at)
  {
    forall scope ensures SameRead(LiveWindows(ws, at), ws', scope, at) && SameRead(ws, ws', scope, at) {
      assert SameRead(ws, ws', scope, now);
    }
  }

  lemma CountAgrees(ws: map<Scope, Window>, ws': map<Scope, Window>, client: string, now: Time, at: Time)
    requires SameReads(ws, ws', now) && now <= at
    ensures SameReads(CountedWindows(ws, client, at), CountedWindows(ws', client, at), at)
  {
    ReadsAgree(ws, ws', Global, now, at);
    ReadsAgree(ws, ws', Client(client), now, at);
    forall scope ensures SameRead(CountedWindows(ws, client, at), CountedWindows(ws', client, at), scope, at) {
      assert SameRead(ws, ws', scope, now);
    }
  }

  lemma AnswersAgree(g: Gate, g': Gate, e: Event, now: Time)
    requires SameGate(g, g', now) && now <= e.at && e.Acquire?
    ensures AnswerOf(g, e) == AnswerOf(g', e)
  {
    ReadsAgree(g.windows, g'.windows, Global, now, e.at);
    ReadsAgree(g.windows, g'.windows, Client(e.client), now, e.at);
  }

  lemma StepAgrees(g: Gate, g': Gate, e: Event, now: Time)
    requires SameGate(g, g', now) && now <= e.at
    ensures SameGate(Step(g, e), KeepingStep(g', e), e.at)
  {
    hide AcquireAnswer; hide SameReads; hide LiveWindows; hide CountedWindows; hide NextAlarm;
    DropAgrees(g.windows, g'.windows, now, e.at);
    if e.Acquire? {
      AnswersAgree(g, g', e, now);
      CountAgrees(g.windows, g'.windows, e.client, now, e.at);
      DropAgrees(CountedWindows(g.windows, e.client, e.at), CountedWindows(g'.windows, e.client, e.at), e.at, e.at);
    }
  }

  lemma {:induction false} RunsAgree(es: seq<Event>, now: Time)
    requires Monotone(es) && forall i :: 0 <= i < |es| ==> es[i].at <= now
    ensures SameGate(Run(EMPTY, es), KeepingRun(EMPTY, es), now)
  {
    if es == [] {
    } else {
      hide Step; hide KeepingStep; hide SameReads; hide LiveWindows;
      var front, e := es[..|es| - 1], es[|es| - 1];
      RunsAgree(front, e.at);
      StepAgrees(Run(EMPTY, front), KeepingRun(EMPTY, front), e, e.at);
      DropAgrees(Run(EMPTY, es).windows, KeepingRun(EMPTY, es).windows, e.at, now);
    }
  }

  /** Deleting old client windows never changes an answer of any later acquisition. */
  lemma ForgettingIsHarmless(es: seq<Event>, e: Event)
    requires Monotone(es + [e]) && e.Acquire?
    ensures AnswerOf(Run(EMPTY, es), e) == AnswerOf(KeepingRun(EMPTY, es), e)
  {
    assert forall i :: 0 <= i < |es| ==> (es + [e])[i] == es[i];
    assert (es + [e])[|es|] == e;
    RunsAgree(es, e.at);
    AnswersAgree(Run(EMPTY, es), KeepingRun(EMPTY, es), e, e.at);
  }

  // ---------------------------------------------------------------- the alarm

  /** Cleanup is scheduled whenever there is something to clean, and for a client window no
      later than one second after it runs out. */
  predicate AlarmPending(g: Gate) {
    && (g.jobs != map[] ==> g.alarm.Some?)
    && forall s :: s in g.windows && s != Global ==>
         g.alarm.Some? && g.alarm.value <= g.windows[s].startedAt + 3_601_000
  }

  lemma AlarmDeadlines(jobs: map<string, Job>, windows: map<Scope, Window>)
    ensures jobs != map[] ==> Deadlines(jobs, windows) != {}
    ensures forall s :: s in windows && s != Global ==>
              windows[s].startedAt + RATE_WINDOW + 1_000 in Deadlines(jobs, windows)
  {
    if jobs != map[] {
      assert jobs.Keys != {} by { assert jobs.Keys == {} ==> jobs == map[]; }
      assert (forall id :: id !in jobs.Keys) ==> jobs.Keys == {};
      var id :| id in jobs;
      assert jobs[id].expiresAt + 1_000 in Deadlines(jobs, windows);
    }
  }

  lemma StepAlarm(g: Gate, e: Event)
    requires AlarmPending(g)
    ensures AlarmPending(Step(g, e))
  {
    hide AcquireAnswer; hide Deadlines;
    match e
    case Acquire(at, client, id, hash, token) =>
      if Succeeds(g, e) {
        var g' := Step(g, e);
        forall s | s in g'.windows && s != Global
          ensures g'.alarm.Some? && g'.alarm.value <= g'.windows[s].startedAt + RATE_WINDOW + 1_000
        {
        }
      }
    case Complete(at, token, id, result) =>
    case Fail(at, token, id) =>
    case Release(at, token) =>
    case Alarm(at) => AlarmDeadlines(LiveJobs(g.jobs, at), LiveWindows(g.windows, at));
  }

  /** In every reachable state an alarm is pending whenever a job or client window exists. */
  lemma {:induction false} AlwaysAlarmed(es: seq<Event>)
    ensures AlarmPending(Run(EMPTY, es))
  {
    if es == [] {
    } else {
      AlwaysAlarmed(es[..|es| - 1]);
      StepAlarm(Run(EMPTY, es[..|es| - 1]), es[|es| - 1]);
    }
  }
}
