/** How much of a pool's SOL cannot be withdrawn (quote-service/markets.ts:451-536): burned LP and
    LP in verified custody, as a share of the LP the pool has issued. */
module LockedDepth {
  import opened Basics
  import opened Arith

  /** A recognised custody account: verified with an amount, or not counted. */
  datatype Custody = Verified(amount: nat) | Invalid | Absent

  datatype Verdict = LockedByCustody | Burned | NotLocked | Unverified

  datatype Report = Report(verdict: Verdict, lockedDepth: Option<nat>)

  function InCustody(custody: seq<Custody>): nat {
    if custody == [] then 0
    else InCustody(custody[..|custody| - 1]) + (if custody[|custody| - 1].Verified? then custody[|custody| - 1].amount else 0)
  }

  /** LP that can never be redeemed: issued but no longer in supply, or held where it stays. */
  function NonWithdrawable(issued: nat, supply: nat, custody: seq<Custody>): nat
    requires supply <= issued
  {
    issued - supply + InCustody(custody)
  }

  /** The pool's own numbers hang together. */
  predicate Plausible(issued: nat, supply: nat, custody: seq<Custody>) {
    issued > 0 && supply <= issued && NonWithdrawable(issued, supply, custody) <= issued
  }

  method MeasureLocking(depth: nat, issued: nat, supply: nat, custody: seq<Custody>) returns (r: Report)
    ensures r.lockedDepth.Some? <==> Plausible(issued, supply, custody)
    ensures r.lockedDepth.Some? ==>
      && r.lockedDepth.value == depth * NonWithdrawable(issued, supply, custody) / issued <= depth
      && (r.verdict == LockedByCustody <==> InCustody(custody) > 0)
      && (r.verdict == Burned <==> InCustody(custody) == 0 && issued > supply)
      && (r.verdict in {LockedByCustody, Burned} <==> NonWithdrawable(issued, supply, custody) > 0)
      && (r.verdict == NotLocked <==> NonWithdrawable(issued, supply, custody) == 0 && Invalid !in custody)
      && (r.lockedDepth.value > 0 ==> r.verdict in {LockedByCustody, Burned})
    ensures r.lockedDepth.None? ==> r.verdict == Unverified
  {
    if issued == 0 || supply > issued { return Report(Unverified, None); }
    var burned := issued - supply;
    var custodyLocked := 0;
    var invalid := false;
    for k := 0 to |custody|
      invariant custodyLocked == InCustody(custody[..k])
      invariant invalid <==> Invalid in custody[..k]
    {
      assert custody[..k + 1] == custody[..k] + [custody[k]];
      if custody[k].Verified? { custodyLocked := custodyLocked + custody[k].amount; }
      if custody[k] == Invalid { invalid := true; }
    }
    assert custody[..|custody|] == custody;
    var nonWithdrawable := burned + custodyLocked;
    if nonWithdrawable > issued { return Report(Unverified, None); }
    var verdict := if custodyLocked > 0 then LockedByCustody else if burned > 0 then Burned
                   else if invalid then Unverified else NotLocked;
    ShareAtMost(depth, nonWithdrawable, issued);
    return Report(verdict, Some(depth * nonWithdrawable / issued));
  }

  lemma ShareAtMost(depth: nat, part: nat, whole: nat)
    requires part <= whole && whole > 0
    ensures 0 <= depth * part / whole <= depth
    ensures depth * part / whole > 0 ==> part > 0
  {
    MulLeft(depth, part, whole);
    DivMonotone(depth * part, depth * whole, whole);
    DivExact(depth, whole);
    DivBounds(depth * part, whole);
  }

  // ---------------------------------------------------------------- what the number is worth

  /** A fungible-LP pool: redeeming lp out of the issued LP pays at most its share of the depth. */
  datatype Pool = Pool(depth: nat, issued: nat)

  datatype Redemption = Redemption(lp: nat, paid: nat)

  predicate CanRedeem(p: Pool, w: Redemption, nonWithdrawable: nat) {
    w.lp + nonWithdrawable <= p.issued && w.paid <= p.depth && w.paid * p.issued <= p.depth * w.lp
  }

  predicate Redeemable(p: Pool, ws: seq<Redemption>, nonWithdrawable: nat)
    decreases |ws|
  {
    ws == [] || (CanRedeem(p, ws[0], nonWithdrawable) && Redeemable(Redeemed(p, ws[0]), ws[1..], nonWithdrawable))
  }

  function Redeemed(p: Pool, w: Redemption): Pool {
    Pool(if w.paid <= p.depth then p.depth - w.paid else 0, if w.lp <= p.issued then p.issued - w.lp else 0)
  }

  function AfterRedemptions(p: Pool, ws: seq<Redemption>): Pool
    decreases |ws|
  {
    if ws == [] then p else AfterRedemptions(Redeemed(p, ws[0]), ws[1..])
  }

  /** Depth per issued LP never falls when someone redeems. */
  lemma ShareKept(p: Pool, w: Redemption, nonWithdrawable: nat)
    requires CanRedeem(p, w, nonWithdrawable)
    ensures var q := Redeemed(p, w); q.issued >= nonWithdrawable && q.depth * p.issued >= p.depth * q.issued
  {
    var q := Redeemed(p, w);
    assert q.depth * p.issued == p.depth * p.issued - w.paid * p.issued;
    assert p.depth * q.issued == p.depth * p.issued - p.depth * w.lp;
  }

  /** The reported depth survives: however the withdrawable LP is redeemed, in any number of
      steps, at least the locked depth measured before remains in the pool. */
  lemma {:induction false} LockedDepthSurvives(p: Pool, ws: seq<Redemption>, nonWithdrawable: nat)
    requires p.issued > 0 && nonWithdrawable <= p.issued && Redeemable(p, ws, nonWithdrawable)
    ensures AfterRedemptions(p, ws).depth >= p.depth * nonWithdrawable / p.issued
    decreases |ws|
  {
    ShareAtMost(p.depth, nonWithdrawable, p.issued);
    if ws == [] {
    } else {
      var q := Redeemed(p, ws[0]);
      ShareKept(p, ws[0], nonWithdrawable);
      if q.issued > 0 {
        LockedDepthSurvives(q, ws[1..], nonWithdrawable);
        LockedOnlyGrows(p, q, nonWithdrawable);
      }
    }
  }

  lemma LockedOnlyGrows(p: Pool, q: Pool, nonWithdrawable: nat)
    requires p.issued > 0 && q.issued > 0 && q.depth * p.issued >= p.depth * q.issued
    ensures p.depth * nonWithdrawable / p.issued <= q.depth * nonWithdrawable / q.issued
  {
    var x, y := p.depth * nonWithdrawable, q.depth * nonWithdrawable;
    Scaled(p.depth, p.issued, q.depth, q.issued, nonWithdrawable);
    DivBounds(x, p.issued);
    DivBounds(y, q.issued);
    Cross(x / p.issued, x, p.issued, y, y / q.issued, q.issued);
  }

  lemma Scaled(d: nat, m: nat, e: nat, n: nat, w: nat)
    requires d * n <= e * m
    ensures d * w * n <= e * w * m
  {
    MulMono(d * n, e * m, w, w);
    Swapped(d, n, w);
    Swapped(e, m, w);
  }

  lemma Swapped(a: nat, b: nat, c: nat)
    ensures a * b * c == a * c * b
  {
    MulAssoc(a, b, c);
    MulAssoc(a, c, b);
  }

  /** If a is at most x/m, y/n is below b + 1 and x/m is at most y/n, then a is at most b. */
  lemma Cross(a: nat, x: nat, m: nat, y: nat, b: nat, n: nat)
    requires m > 0 && n > 0 && a * m <= x && y < (b + 1) * n && x * n <= y * m
    ensures a <= b
  {
    MulMono(a * m, x, n, n);
    assert a * m * n == a * (m * n);
    MulMono(y + 1, (b + 1) * n, m, m);
    assert (b + 1) * n * m == (b + 1) * (m * n);
    assert (y + 1) * m == y * m + m;
    MulCancelStrict(m * n, a, b + 1);
  }

  /** What holders can do: redeem LP that is in supply and not in custody. */
  predicate HoldersRedeem(p: Pool, supply: nat, held: nat, ws: seq<Redemption>)
    decreases |ws|
  {
    ws == [] ||
    (&& ws[0].lp + held <= supply && ws[0].paid <= p.depth && ws[0].paid * p.issued <= p.depth * ws[0].lp
     && HoldersRedeem(Redeemed(p, ws[0]), supply - ws[0].lp, held, ws[1..]))
  }

  lemma {:induction false} HoldersLeaveLocked(p: Pool, supply: nat, held: nat, ws: seq<Redemption>)
    requires held <= supply <= p.issued && HoldersRedeem(p, supply, held, ws)
    ensures Redeemable(p, ws, p.issued - supply + held)
    decreases |ws|
  {
    if ws == [] {
    } else {
      HoldersLeaveLocked(Redeemed(p, ws[0]), supply - ws[0].lp, held, ws[1..]);
    }
  }

  /** The measure means what it says: LP burned from the supply and LP in verified custody keep their
      share of the depth, whatever all other holders redeem. */
  lemma HoldersCannotReach(p: Pool, supply: nat, custody: seq<Custody>, ws: seq<Redemption>)
    requires p.issued > 0 && InCustody(custody) <= supply <= p.issued
    requires HoldersRedeem(p, supply, InCustody(custody), ws)
    ensures Plausible(p.issued, supply, custody)
    ensures AfterRedemptions(p, ws).depth >= p.depth * NonWithdrawable(p.issued, supply, custody) / p.issued
  {
    HoldersLeaveLocked(p, supply, InCustody(custody), ws);
    LockedDepthSurvives(p, ws, p.issued - supply + InCustody(custody));
  }

  /** And it is no less than that: when every other holder redeems at full value, what is left is the
      measured share, so reporting more would be wrong. */
  lemma LockedDepthIsReached(p: Pool, supply: nat, custody: seq<Custody>)
    requires p.issued > 0 && InCustody(custody) <= supply <= p.issued
    requires p.depth * (supply - InCustody(custody)) % p.issued == 0
    ensures var all := Redemption(supply - InCustody(custody), p.depth * (supply - InCustody(custody)) / p.issued);
            && HoldersRedeem(p, supply, InCustody(custody), [all])
            && AfterRedemptions(p, [all]).depth == p.depth * NonWithdrawable(p.issued, supply, custody) / p.issued
  {
    var free, kept := supply - InCustody(custody), NonWithdrawable(p.issued, supply, custody);
    var paid := p.depth * free / p.issued;
    var all := Redemption(free, paid);
    DivMod(p.depth * free, p.issued);
    ShareAtMost(p.depth, free, p.issued);
    KeptShare(p.depth, free, kept, p.issued, paid);
    assert [all][1..] == [];
    assert HoldersRedeem(Redeemed(p, all), supply - free, InCustody(custody), []);
    assert AfterRedemptions(Redeemed(p, all), []) == Redeemed(p, all);
  }

  lemma KeptShare(depth: nat, free: nat, kept: nat, issued: nat, paid: nat)
    requires issued > 0 && free + kept == issued && paid * issued == depth * free && paid <= depth
    ensures depth * kept / issued == depth - paid
  {
    assert depth * kept == depth * issued - depth * free;
    assert (depth - paid) * issued == depth * issued - paid * issued;
    DivExact(depth - paid, issued);
  }
}
