/** Choosing a reference pool (quote-service/markets.ts): two comparators, a ranking, and a
    best-first authentication loop run first over locked AMMs and then over everything. */
module ReferenceSelection {
  import opened Basics
  import Lexicographic

  const MIN_DEPTH_LAMPORTS: nat := 50_000_000_000
  const MAX_SAFE_INTEGER: nat := 9_007_199_254_740_991

  datatype Venue = RaydiumV4 | RaydiumCp | RaydiumClmm | MeteoraDlmm | OtherVenue(name: string)

  /** What enumeration read about a pool. */
  datatype Market = Market(
    pool: seq<byte>, venue: Venue, depth: nat, openedAt: Option<nat>, lockedDepth: Option<nat>, meetsDepthFloor: bool)

  /** A pool's live authentication: it passes, is refused with a message, or discovery itself
      fails, which aborts the selection. */
  datatype Auth = Authentic | Refused(message: string) | Unavailable

  // ---------------------------------------------------------------- comparators

  function TieBreak(v: Venue): nat {
    match v
    case RaydiumV4 => 0
    case RaydiumCp => 1
    case RaydiumClmm => 2
    case MeteoraDlmm => 3
    case OtherVenue(_) => MAX_SAFE_INTEGER
  }

  function ComparePools(a: seq<byte>, b: seq<byte>): int {
    if Lexicographic.Less(a, b) then -1 else if Lexicographic.Less(b, a) then 1 else 0
  }

  function CompareDepthVenueAndPool(a: Market, b: Market): int {
    if a.depth != b.depth then if a.depth > b.depth then -1 else 1
    else if a.openedAt.Some? && b.openedAt.Some? && a.openedAt != b.openedAt then
      if a.openedAt.value < b.openedAt.value then -1 else 1
    else if a.openedAt.Some? && b.openedAt == None then -1
    else if a.openedAt == None && b.openedAt.Some? then 1
    else if TieBreak(a.venue) != TieBreak(b.venue) then TieBreak(a.venue) - TieBreak(b.venue)
    else ComparePools(a.pool, b.pool)
  }

  function CompareLockedDepthThenPool(a: Market, b: Market): int
    requires a.lockedDepth.Some? && b.lockedDepth.Some?
  {
    if a.lockedDepth.value != b.lockedDepth.value then if a.lockedDepth.value > b.lockedDepth.value then -1 else 1
    else CompareDepthVenueAndPool(a, b)
  }

  predicate Durable(m: Market) {
    (m.venue == RaydiumV4 || m.venue == RaydiumCp) && m.lockedDepth.Some? && m.lockedDepth.value >= MIN_DEPTH_LAMPORTS
  }

  predicate Concentrated(m: Market) {
    m.venue == RaydiumClmm || m.venue == MeteoraDlmm
  }

  predicate Rankable(m: Market) { Durable(m) || Concentrated(m) }

  /** The single ranking: locked AMMs by locked depth before concentrated pools by live depth. */
  predicate Better(a: Market, b: Market)
    requires Rankable(a) && Rankable(b)
  {
    if Durable(a) && Durable(b) then CompareLockedDepthThenPool(a, b) < 0
    else if !Durable(a) && !Durable(b) then CompareDepthVenueAndPool(a, b) < 0
    else Durable(a)
  }

  lemma PoolsOrdered(a: seq<byte>, b: seq<byte>, c: seq<byte>)
    ensures ComparePools(a, b) == -ComparePools(b, a)
    ensures ComparePools(a, b) == 0 <==> a == b
    ensures ComparePools(a, b) < 0 && ComparePools(b, c) < 0 ==> ComparePools(a, c) < 0
  {
    Lexicographic.Irreflexive(a);
    Lexicographic.Trichotomy(a, b);
    if Lexicographic.Less(a, b) && Lexicographic.Less(b, a) { Lexicographic.Transitive(a, b, a); }
    if Lexicographic.Less(a, b) && Lexicographic.Less(b, c) { Lexicographic.Transitive(a, b, c); }
  }

  /** The depth comparator is a strict total order on distinct pools. */
  lemma DepthOrder(a: Market, b: Market, c: Market)
    ensures CompareDepthVenueAndPool(a, b) == -CompareDepthVenueAndPool(b, a)
    ensures CompareDepthVenueAndPool(a, b) == 0 ==> a.pool == b.pool
    ensures CompareDepthVenueAndPool(a, b) < 0 && CompareDepthVenueAndPool(b, c) < 0 ==> CompareDepthVenueAndPool(a, c) < 0
  {
    PoolsOrdered(a.pool, b.pool, c.pool);
  }

  /** Better is a strict total order on rankable markets with distinct pools. */
  lemma BetterIsOrder(a: Market, b: Market, c: Market)
    requires Rankable(a) && Rankable(b) && Rankable(c)
    ensures !(Better(a, b) && Better(b, a))
    ensures a.pool != b.pool ==> Better(a, b) || Better(b, a)
    ensures Better(a, b) && Better(b, c) ==> Better(a, c)
  {
    DepthOrder(a, b, c);
    DepthOrder(b, a, c);
  }

  // ---------------------------------------------------------------- the published rules

  /** An AMM whose proven locked depth alone is at least 50 SOL. */
  predicate LockedAmm(m: Market) {
    m.venue in {RaydiumV4, RaydiumCp} && m.lockedDepth.Some? && m.lockedDepth.value >= 50_000_000_000
  }

  predicate PositionPool(m: Market) { m.venue in {RaydiumClmm, MeteoraDlmm} }

  predicate Admissible(m: Market) {
    m.meetsDepthFloor && (LockedAmm(m) || PositionPool(m))
  }

  /** Raydium v4, then Raydium CP, then Raydium CLMM, then Meteora DLMM. */
  predicate VenueBefore(a: Venue, b: Venue) {
    exists i, k :: 0 <= i < k < 4 && PREFERENCE[i] == a && PREFERENCE[k] == b
  }

  const PREFERENCE: seq<Venue> := [RaydiumV4, RaydiumCp, RaydiumClmm, MeteoraDlmm]

  /** A locked AMM leads every position pool; among locked AMMs more locked depth leads, among
      position pools, and on a tie, more live depth; then a known open time, an earlier one, the
      venue and the key. */
  predicate Leads(a: Market, b: Market) {
    if LockedAmm(a) != LockedAmm(b) then LockedAmm(a)
    else if LockedAmm(a) && a.lockedDepth != b.lockedDepth then a.lockedDepth.value > b.lockedDepth.value
    else if a.depth != b.depth then a.depth > b.depth
    else if a.openedAt != b.openedAt then a.openedAt.Some? && (b.openedAt.Some? ==> a.openedAt.value < b.openedAt.value)
    else if a.venue != b.venue then VenueBefore(a.venue, b.venue)
    else Lexicographic.Precedes(a.pool, b.pool)
  }

  lemma VenueOrder(a: Venue, b: Venue)
    requires !a.OtherVenue? && !b.OtherVenue?
    ensures TieBreak(a) < TieBreak(b) <==> VenueBefore(a, b)
  {
    assert PREFERENCE[TieBreak(a)] == a && PREFERENCE[TieBreak(b)] == b;
  }

  /** The comparators rank by these rules. */
  lemma BetterIsLeads(a: Market, b: Market)
    requires Rankable(a) && Rankable(b) && a.pool != b.pool
    ensures Better(a, b) <==> Leads(a, b)
  {
    hide Lexicographic.Less; hide Lexicographic.Precedes; hide VenueBefore;
    VenueOrder(a.venue, b.venue);
    Lexicographic.LessIsPrecedes(a.pool, b.pool);
    PoolsOrdered(a.pool, b.pool, a.pool);
  }

  // ---------------------------------------------------------------- candidates

  /** A candidate row; a refusal is written into it. The empty string counts as none. */
  class MarketCandidate {
    const market: Market
    var rejected: string

    constructor (market: Market, rejected: string)
      ensures this.market == market && this.rejected == rejected
    {
      this.market, this.rejected := market, rejected;
    }
  }

  predicate Eligible(c: MarketCandidate)
    reads c
  {
    c.market.meetsDepthFloor && c.rejected == "" && Rankable(c.market)
  }

  predicate DistinctPools(cs: seq<MarketCandidate>) {
    forall i, j :: 0 <= i < j < |cs| ==> cs[i].market.pool != cs[j].market.pool
  }

  /** `[...list].sort(compare)[0]`. */
  method SortFirst(list: seq<MarketCandidate>) returns (first: MarketCandidate)
    requires list != [] && DistinctPools(list)
    requires (forall c :: c in list ==> Durable(c.market)) || (forall c :: c in list ==> !Durable(c.market) && Concentrated(c.market))
    ensures first in list
    ensures forall c :: c in list && c != first ==> Better(first.market, c.market)
  {
    first := list[0];
    for k := 1 to |list|
      invariant first in list[..k]
      invariant forall i :: 0 <= i < k && list[i] != first ==> Better(first.market, list[i].market)
    {
      BetterIsOrder(list[k].market, first.market, list[k].market);
      var compared := if Durable(first.market) then CompareLockedDepthThenPool(list[k].market, first.market)
                      else CompareDepthVenueAndPool(list[k].market, first.market);
      assert list[k].market.pool != first.market.pool;
      if compared < 0 {
        forall i | 0 <= i < k ensures Better(list[k].market, list[i].market) {
          BetterIsOrder(list[k].market, first.market, list[i].market);
        }
        first := list[k];
      }
    }
  }

  method Filter(cs: seq<MarketCandidate>, durable: bool) returns (r: seq<MarketCandidate>)
    requires DistinctPools(cs)
    ensures DistinctPools(r)
    ensures forall c :: c in r <==> c in cs && Eligible(c) && (if durable then Durable(c.market) else Concentrated(c.market))
  {
    r := [];
    for k := 0 to |cs|
      invariant DistinctPools(r)
      invariant forall c :: c in r <==> c in cs[..k] && Eligible(c) && (if durable then Durable(c.market) else Concentrated(c.market))
    {
      assert cs[..k + 1] == cs[..k] + [cs[k]];
      if Eligible(cs[k]) && (if durable then Durable(cs[k].market) else Concentrated(cs[k].market)) {
        forall i | 0 <= i < |r| ensures r[i].market.pool != cs[k].market.pool {
          assert r[i] in cs[..k];
          var j :| 0 <= j < |cs[..k]| && cs[..k][j] == r[i];
        }
        r := r + [cs[k]];
      }
    }
    assert cs[..|cs|] == cs;
  }

  /** The pick of one ranking round: the best eligible candidate, if there is one. */
  method RankCandidates(cs: seq<MarketCandidate>) returns (pick: MarketCandidate?)
    requires DistinctPools(cs)
    ensures pick == null <==> forall c :: c in cs ==> !Eligible(c)
    ensures pick != null ==> IsBest(cs, pick)
    ensures pick == null <==> forall c :: c in cs ==> !(Admissible(c.market) && c.rejected == "")
    ensures pick != null ==> pick in cs && Admissible(pick.market) && pick.rejected == ""
    ensures pick != null ==> forall c :: c in cs && Admissible(c.market) && c.rejected == "" && c != pick ==>
      Leads(pick.market, c.market)
  {
    hide CompareDepthVenueAndPool; hide CompareLockedDepthThenPool; hide Leads;
    ByTheRules(cs);
    var durable := Filter(cs, true);
    if durable != [] {
      pick := SortFirst(durable);
      return;
    }
    var concentrated := Filter(cs, false);
    if concentrated == [] { return null; }
    pick := SortFirst(concentrated);
  }

  lemma ByTheRules(cs: seq<MarketCandidate>)
    requires DistinctPools(cs)
    ensures forall c :: c in cs ==> (Eligible(c) <==> Admissible(c.market) && c.rejected == "")
    ensures forall c, o :: c in cs && o in cs && c != o && Rankable(c.market) && Rankable(o.market) ==>
      (Better(c.market, o.market) <==> Leads(c.market, o.market))
  {
    hide Better; hide Leads;
    forall c, o | c in cs && o in cs && c != o && Rankable(c.market) && Rankable(o.market)
      ensures Better(c.market, o.market) <==> Leads(c.market, o.market)
    {
      var i :| 0 <= i < |cs| && cs[i] == c;
      var k :| 0 <= k < |cs| && cs[k] == o;
      BetterIsLeads(c.market, o.market);
    }
  }

  predicate IsBest(cs: seq<MarketCandidate>, pick: MarketCandidate)
    reads cs
  {
    pick in cs && Eligible(pick) &&
    forall c :: c in cs && Eligible(c) && c != pick ==> Better(pick.market, c.market)
  }

  // ---------------------------------------------------------------- one loop

  datatype Result = Chosen(pool: seq<byte>) | NoneChosen | Aborted

  /** A refusal always has a message to record. */
  ghost predicate Spoken(auth: seq<byte> -> Auth) {
    forall pool :: auth(pool).Refused? ==> auth(pool).message != ""
  }

  function Shorten(s: string): string { if |s| > 200 then s[..200] else s }

  lemma StillSpoken(s: string)
    requires s != ""
    ensures Shorten(s) != ""
  {
  }

  /** What a selection must return: the best candidate, among those it was given as eligible,
      that authentication does not refuse. */
  ghost predicate Decides(cs: seq<MarketCandidate>, eligible: set<MarketCandidate>, auth: seq<byte> -> Auth, r: Result) {
    match r
    case NoneChosen => forall c :: c in cs && c in eligible ==> auth(c.market.pool).Refused?
    case Chosen(pool) => exists c :: c in cs && BestUnrefused(cs, eligible, auth, c) && c.market.pool == pool && auth(pool).Authentic?
    case Aborted => exists c :: c in cs && BestUnrefused(cs, eligible, auth, c) && auth(c.market.pool).Unavailable?
  }

  ghost predicate BestUnrefused(cs: seq<MarketCandidate>, eligible: set<MarketCandidate>, auth: seq<byte> -> Auth, best: MarketCandidate) {
    && best in cs && best in eligible && Rankable(best.market) && !auth(best.market.pool).Refused?
    && forall c :: c in cs && c in eligible && c != best && Rankable(c.market) && !auth(c.market.pool).Refused? ==>
         Better(best.market, c.market)
  }

  ghost function EligibleSet(cs: seq<MarketCandidate>): set<MarketCandidate>
    reads cs
  {
    set c | c in cs && Eligible(c)
  }

  /** Best-first authentication. Every round that goes on rejects one more candidate, so the
      loop ends and the source's bail-out after |cs| rounds is never taken. */
  method AuthenticateBestFirst(cs: seq<MarketCandidate>, auth: seq<byte> -> Auth) returns (r: Result)
    requires DistinctPools(cs) && Spoken(auth)
    modifies cs
    ensures Decides(cs, old(EligibleSet(cs)), auth, r)
    ensures forall c :: c in cs && c.rejected != old(c.rejected) ==>
      auth(c.market.pool).Refused? && c.rejected == Shorten(auth(c.market.pool).message)
    ensures forall c :: c in cs && old(c.rejected) != "" ==> c.rejected == old(c.rejected)
    ensures r == NoneChosen ==> forall c :: c in cs ==> !Eligible(c)
  {
    hide Better; hide Shorten; hide BestUnrefused; hide DistinctPools;
    ghost var eligible := EligibleSet(cs);
    ghost var refused: set<MarketCandidate> := {};
    var round := 0;
    while true
      invariant |refused| == round && refused <= eligible
      invariant forall c :: c in refused ==>
        auth(c.market.pool).Refused? && c.rejected == Shorten(auth(c.market.pool).message) != ""
      invariant forall c :: c in cs && c !in refused ==> c.rejected == old(c.rejected)
      decreases |cs| - round
    {
      var pick := RankCandidates(cs);
      if pick == null { return NoneChosen; }
      match auth(pick.market.pool) {
        case Authentic =>
          PickDecides(cs, eligible, refused, auth, pick);
          return Chosen(pick.market.pool);
        case Unavailable =>
          PickDecides(cs, eligible, refused, auth, pick);
          return Aborted;
        case Refused(message) =>
          StillSpoken(message);
          pick.rejected := Shorten(message);
          refused := refused + {pick};
          AtMost(cs, refused);
          assert round < |cs|;
          round := round + 1;
      }
    }
  }

  /** The ranked pick among what is left is the best of everything not refused. */
  lemma PickDecides(cs: seq<MarketCandidate>, eligible: set<MarketCandidate>, refused: set<MarketCandidate>,
                    auth: seq<byte> -> Auth, pick: MarketCandidate)
    requires IsBest(cs, pick) && pick in eligible && !auth(pick.market.pool).Refused?
    requires forall c :: c in cs && c in eligible && c !in refused ==> Eligible(c)
    requires forall c :: c in refused ==> auth(c.market.pool).Refused?
    ensures BestUnrefused(cs, eligible, auth, pick)
  {
    hide Better;
  }

  lemma AtMost<T>(s: seq<T>, xs: set<T>)
    requires forall x :: x in xs ==> x in s
    ensures |xs| <= |s|
  {
    if s == [] {
      assert xs == {};
    } else {
      var last := s[|s| - 1];
      assert s == s[..|s| - 1] + [last];
      AtMost(s[..|s| - 1], xs - {last});
    }
  }

  // ---------------------------------------------------------------- two phases

  /** Locked AMMs first; the concentrated venues are scanned only when that does not decide. */
  method SelectReference(amm: seq<MarketCandidate>, concentrated: seq<MarketCandidate>, auth: seq<byte> -> Auth)
    returns (r: Result, scanned: bool)
    requires DistinctPools(amm + concentrated) && Spoken(auth)
    requires forall c :: c in amm ==> !Concentrated(c.market)
    requires forall c :: c in concentrated ==> Concentrated(c.market)
    modifies amm, concentrated
    ensures Decides(amm + concentrated, old(EligibleSet(amm + concentrated)), auth, r)
    ensures r.NoneChosen? ==> forall c :: c in amm + concentrated && Admissible(c.market) && old(c.rejected) == "" ==>
      auth(c.market.pool).Refused?
    ensures r.Chosen? ==> auth(r.pool).Authentic?
    ensures !r.NoneChosen? ==> exists c ::
      && c in amm + concentrated && Admissible(c.market) && old(c.rejected) == ""
      && (if r.Chosen? then c.market.pool == r.pool else auth(c.market.pool).Unavailable?)
      && forall o | o in amm + concentrated && Admissible(o.market) && old(o.rejected) == "" && o != c &&
                    !auth(o.market.pool).Refused? :: Leads(c.market, o.market)
    ensures !scanned ==> forall c :: c in concentrated ==> c.rejected == old(c.rejected)
  {
    hide Better; hide Leads;
    ghost var all := amm + concentrated;
    ghost var eligible := EligibleSet(all);
    ByTheRules(all);
    FrontDistinct(amm, concentrated);
    r := AuthenticateBestFirst(amm, auth);
    if r != NoneChosen {
      AmmDecides(amm, concentrated, eligible, old(EligibleSet(amm)), auth, r);
      return r, false;
    }
    label Between:
    r := AuthenticateBestFirst(amm + concentrated, auth);
    scanned := true;
    ghost var left := old@Between(EligibleSet(amm + concentrated));
    assert forall c :: c in all && c in eligible && c !in left ==> auth(c.market.pool).Refused?;
    assert left <= eligible;
    match r {
      case NoneChosen =>
      case Chosen(pool) =>
        ghost var c :| c in all && BestUnrefused(all, left, auth, c) && c.market.pool == pool && auth(pool).Authentic?;
        assert BestUnrefused(all, eligible, auth, c);
      case Aborted =>
        ghost var c :| c in all && BestUnrefused(all, left, auth, c) && auth(c.market.pool).Unavailable?;
        assert BestUnrefused(all, eligible, auth, c);
    }
  }

  lemma FrontDistinct(a: seq<MarketCandidate>, b: seq<MarketCandidate>)
    requires DistinctPools(a + b)
    ensures DistinctPools(a)
  {
    assert forall i :: 0 <= i < |a| ==> (a + b)[i] == a[i];
  }

  /** A decision among locked AMMs is the decision over everything: no concentrated pool ranks
      above one. */
  lemma AmmDecides(amm: seq<MarketCandidate>, concentrated: seq<MarketCandidate>,
                   eligible: set<MarketCandidate>, ammEligible: set<MarketCandidate>, auth: seq<byte> -> Auth, r: Result)
    requires forall c :: c in amm ==> !Concentrated(c.market)
    requires forall c :: c in concentrated ==> Concentrated(c.market)
    requires forall c :: c in ammEligible <==> c in eligible && c in amm
    requires r != NoneChosen && Decides(amm, ammEligible, auth, r)
    ensures Decides(amm + concentrated, eligible, auth, r)
  {
    match r
    case Chosen(pool) =>
      var c :| c in amm && BestUnrefused(amm, ammEligible, auth, c) && c.market.pool == pool && auth(pool).Authentic?;
      assert BestUnrefused(amm + concentrated, eligible, auth, c);
    case Aborted =>
      var c :| c in amm && BestUnrefused(amm, ammEligible, auth, c) && auth(c.market.pool).Unavailable?;
      assert BestUnrefused(amm + concentrated, eligible, auth, c);
  }

  // ---------------------------------------------------------------- the answer is determined

  /** There is only one right answer, whatever order enumeration lists the candidates in. */
  lemma DecisionUnique(cs: seq<MarketCandidate>, cs': seq<MarketCandidate>, eligible: set<MarketCandidate>,
                       auth: seq<byte> -> Auth, r: Result, r': Result)
    requires DistinctPools(cs) && forall c :: c in cs <==> c in cs'
    requires forall c :: c in eligible ==> Rankable(c.market)
    requires Decides(cs, eligible, auth, r) && Decides(cs', eligible, auth, r')
    ensures r == r'
  {
    if !r.NoneChosen? && !r'.NoneChosen? {
      var c :| c in cs && BestUnrefused(cs, eligible, auth, c) &&
               (if r.Chosen? then c.market.pool == r.pool && auth(r.pool).Authentic? else auth(c.market.pool).Unavailable?);
      var c' :| c' in cs' && BestUnrefused(cs', eligible, auth, c') &&
                (if r'.Chosen? then c'.market.pool == r'.pool && auth(r'.pool).Authentic? else auth(c'.market.pool).Unavailable?);
      if c != c' { BetterIsOrder(c.market, c'.market, c.market); }
    }
  }
}
