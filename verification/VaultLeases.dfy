/** The in-memory vault lease store of quote-service/core.ts: one burn at a time per vault, with
    deferred timers and early settlement racing over the same entry. */
module VaultLeases {
  import opened Basics

  type Vault = string
  type Token = nat   // a fresh Symbol per acquisition

  datatype Outcome = Submitted | Failed

  /** What the closure returned by acquire remembers. */
  datatype Lease = Lease(vault: Vault, requestId: string, released: Option<Outcome>)

  datatype Store = Store(
    active: map<Vault, Token>,
    submittedRequestIds: set<string>,
    leases: map<Token, Lease>,
    timers: set<Token>,          // scheduled, not yet fired
    next: Token)

  const EMPTY := Store(map[], {}, map[], {}, 0)

  datatype Answer = DuplicateRequest | VaultBusy | Granted(token: Token)

  function AcquireAnswer(s: Store, vault: Vault, requestId: string): Answer {
    if requestId in s.submittedRequestIds then DuplicateRequest
    else if vault in s.active then VaultBusy
    else Granted(s.next)
  }

  function AfterAcquire(s: Store, vault: Vault, requestId: string): Store {
    if !AcquireAnswer(s, vault, requestId).Granted? then s
    else s.(active := s.active[vault := s.next],
            leases := s.leases[s.next := Lease(vault, requestId, None)],
            next := s.next + 1)
  }

  function DeleteIfStillOurs(active: map<Vault, Token>, vault: Vault, token: Token): map<Vault, Token> {
    if vault in active && active[vault] == token then active - {vault} else active
  }

  function AfterRelease(s: Store, token: Token, outcome: Outcome): Store
    requires token in s.leases
  {
    var lease := s.leases[token];
    if lease.released.Some? then s
    else
      var s' := s.(leases := s.leases[token := lease.(released := Some(outcome))]);
      match outcome
      case Failed => s'.(active := DeleteIfStillOurs(s.active, lease.vault, token))
      case Submitted =>
        s'.(submittedRequestIds := s.submittedRequestIds + {lease.requestId}, timers := s.timers + {token})
  }

  function AfterTimer(s: Store, token: Token): Store
    requires token in s.leases
  {
    s.(timers := s.timers - {token}, active := DeleteIfStillOurs(s.active, s.leases[token].vault, token))
  }

  function AfterSettle(s: Store, vault: Vault): Store {
    s.(active := s.active - {vault})
  }

  class InMemoryVaultLeaseStore {
    var active: map<Vault, Token>
    var submittedRequestIds: set<string>
    var leases: map<Token, Lease>
    var timers: set<Token>
    var next: Token

    function State(): Store
      reads this
    {
      Store(active, submittedRequestIds, leases, timers, next)
    }

    constructor ()
      ensures State() == EMPTY
    {
      active, submittedRequestIds, leases, timers, next := map[], {}, map[], {}, 0;
    }

    method Acquire(vault: Vault, requestId: string) returns (answer: Answer)
      modifies this
      ensures answer == AcquireAnswer(old(State()), vault, requestId)
      ensures State() == AfterAcquire(old(State()), vault, requestId)
    {
      if requestId in submittedRequestIds { return DuplicateRequest; }
      if vault in active { return VaultBusy; }
      var token := next;
      next := next + 1;
      active := active[vault := token];
      leases := leases[token := Lease(vault, requestId, None)];
      answer := Granted(token);
    }

    method DeleteOurs(token: Token)
      requires token in leases
      modifies this`active
      ensures active == DeleteIfStillOurs(old(active), leases[token].vault, token)
    {
      var vault := leases[token].vault;
      if vault in active && active[vault] == token { active := active - {vault}; }
    }

    method Release(token: Token, outcome: Outcome)
      requires token in leases
      modifies this
      ensures State() == AfterRelease(old(State()), token, outcome)
    {
      var lease := leases[token];
      if lease.released == None && outcome == Failed { DeleteOurs(token); }
      if lease.released == None && outcome == Submitted {
        submittedRequestIds := submittedRequestIds + {lease.requestId};
        timers := timers + {token};
      }
      if lease.released == None { leases := leases[token := lease.(released := Some(outcome))]; }
    }

    method FireTimer(token: Token)
      requires token in timers && token in leases
      modifies this
      ensures State() == AfterTimer(old(State()), token)
    {
      timers := timers - {token};
      DeleteOurs(token);
    }

    method Settle(vault: Vault)
      modifies this
      ensures State() == AfterSettle(old(State()), vault)
    {
      active := active - {vault};
    }
  }

  // ---------------------------------------------------------------- runs

  datatype Event =
    | Acquire(vault: Vault, requestId: string)
    | Release(token: Token, outcome: Outcome)
    | Fire(token: Token)
    | Settle(vault: Vault)

  /** Releases come from leases that exist; only scheduled timers fire. */
  predicate Enabled(s: Store, e: Event) {
    match e
    case Release(token, _) => token in s.leases
    case Fire(token) => token in s.timers && token in s.leases
    case _ => true
  }

  function Step(s: Store, e: Event): Store
    requires Enabled(s, e)
  {
    match e
    case Acquire(vault, requestId) => AfterAcquire(s, vault, requestId)
    case Release(token, outcome) => AfterRelease(s, token, outcome)
    case Fire(token) => AfterTimer(s, token)
    case Settle(vault) => AfterSettle(s, vault)
  }

  predicate Possible(s: Store, es: seq<Event>)
    decreases |es|
  {
    es == [] || (Enabled(s, es[0]) && Possible(Step(s, es[0]), es[1..]))
  }

  function Run(s: Store, es: seq<Event>): Store
    requires Possible(s, es)
    decreases |es|
  {
    if es == [] then s else Run(Step(s, es[0]), es[1..])
  }

  // ---------------------------------------------------------------- invariants

  /** A lease still stands until it is released as failed or its timer has fired. */
  predicate Outstanding(s: Store, t: Token) {
    t in s.leases && (s.leases[t].released == None || (s.leases[t].released == Some(Submitted) && t in s.timers))
  }

  predicate HoldsVault(s: Store, t: Token, vault: Vault) {
    Outstanding(s, t) && s.leases[t].vault == vault
  }

  predicate Inv(s: Store) {
    && (forall t :: t in s.leases ==> t < s.next)
    && (forall t :: t in s.timers ==> t in s.leases && s.leases[t].released == Some(Submitted))
    && (forall v :: v in s.active ==> Outstanding(s, s.active[v]) && s.leases[s.active[v]].vault == v)
    && (forall t :: t in s.leases && s.leases[t].released == Some(Submitted) ==>
          s.leases[t].requestId in s.submittedRequestIds)
  }

  /** Without settlement the entry of a vault is its outstanding lease. */
  ghost predicate Exact(s: Store) {
    forall t :: Outstanding(s, t) ==> s.leases[t].vault in s.active && s.active[s.leases[t].vault] == t
  }

  lemma AcquireKeepsInv(s: Store, vault: Vault, requestId: string)
    requires Inv(s)
    ensures Inv(AfterAcquire(s, vault, requestId))
    ensures Exact(s) ==> Exact(AfterAcquire(s, vault, requestId))
  {
    var s' := AfterAcquire(s, vault, requestId);
    assert forall t :: t in s.leases ==> t != s.next;
    assert forall t :: t in s.leases ==> (Outstanding(s', t) <==> Outstanding(s, t));
  }

  lemma ReleaseKeepsInv(s: Store, token: Token, outcome: Outcome)
    requires Inv(s) && token in s.leases
    ensures Inv(AfterRelease(s, token, outcome))
    ensures Exact(s) ==> Exact(AfterRelease(s, token, outcome))
  {
    var s' := AfterRelease(s, token, outcome);
    assert forall t :: t != token ==> (Outstanding(s', t) <==> Outstanding(s, t));
  }

  lemma TimerKeepsInv(s: Store, token: Token)
    requires Inv(s) && token in s.timers
    ensures Inv(AfterTimer(s, token))
    ensures Exact(s) ==> Exact(AfterTimer(s, token))
  {
    var s' := AfterTimer(s, token);
    assert forall t :: t != token ==> (Outstanding(s', t) <==> Outstanding(s, t));
  }

  lemma StepKeepsInv(s: Store, e: Event)
    requires Inv(s) && Enabled(s, e)
    ensures Inv(Step(s, e))
    ensures Exact(s) && !e.Settle? ==> Exact(Step(s, e))
  {
    match e
    case Acquire(vault, requestId) => AcquireKeepsInv(s, vault, requestId);
    case Release(token, outcome) => ReleaseKeepsInv(s, token, outcome);
    case Fire(token) => TimerKeepsInv(s, token);
    case Settle(vault) =>
      assert forall t :: Outstanding(AfterSettle(s, vault), t) <==> Outstanding(s, t);
  }

  lemma {:induction false} RunKeepsInv(s: Store, es: seq<Event>)
    requires Inv(s) && Possible(s, es)
    ensures Inv(Run(s, es))
    ensures Exact(s) && (forall i :: 0 <= i < |es| ==> !es[i].Settle?) ==> Exact(Run(s, es))
    decreases |es|
  {
    if es == [] {
    } else {
      StepKeepsInv(s, es[0]);
      RunKeepsInv(Step(s, es[0]), es[1..]);
    }
  }

  // ---------------------------------------------------------------- what callers rely on

  /** Every interleaving without settlement: a vault never has two outstanding leases, and it
      is busy exactly while it has one. */
  lemma OneLeasePerVault(es: seq<Event>, vault: Vault)
    requires Possible(EMPTY, es) && forall i :: 0 <= i < |es| ==> !es[i].Settle?
    ensures var s := Run(EMPTY, es);
            && (forall t, t' :: HoldsVault(s, t, vault) && HoldsVault(s, t', vault) ==> t == t')
            && (vault in s.active <==> exists t :: HoldsVault(s, t, vault))
  {
    RunKeepsInv(EMPTY, es);
    var s := Run(EMPTY, es);
    if vault in s.active { assert HoldsVault(s, s.active[vault], vault); }
  }

  /** The events that may end a lease's hold on its vault. */
  predicate Frees(e: Event, vault: Vault, token: Token) {
    e == Release(token, Failed) || e == Fire(token) || e == Settle(vault)
  }

  /** With settlement too: a lease keeps its vault against every timer and late release of any
      other lease; only its own failure, its own timer or a settlement of the vault frees it. */
  lemma {:induction false} OnlyOwnEventsFree(s: Store, es: seq<Event>, vault: Vault, token: Token)
    requires Inv(s) && Possible(s, es)
    requires vault in s.active && s.active[vault] == token
    requires forall i :: 0 <= i < |es| ==> !Frees(es[i], vault, token)
    ensures var s' := Run(s, es); vault in s'.active && s'.active[vault] == token
    decreases |es|
  {
    if es == [] {
    } else {
      StepKeepsInv(s, es[0]);
      OnlyOwnEventsFree(Step(s, es[0]), es[1..], vault, token);
    }
  }

  lemma {:induction false} SubmittedStays(s: Store, es: seq<Event>, requestId: string)
    requires Possible(s, es) && requestId in s.submittedRequestIds
    ensures requestId in Run(s, es).submittedRequestIds
    decreases |es|
  {
    if es == [] {
    } else {
      SubmittedStays(Step(s, es[0]), es[1..], requestId);
    }
  }

  /** A request id released as submitted is never granted again, on any vault, even after the
      vault was settled or its timer fired. */
  lemma SubmittedOnce(s: Store, token: Token, es: seq<Event>, vault: Vault)
    requires Inv(s) && token in s.leases && s.leases[token].released == None
    requires Possible(Step(s, Release(token, Submitted)), es)
    ensures AcquireAnswer(Run(Step(s, Release(token, Submitted)), es), vault, s.leases[token].requestId) == DuplicateRequest
  {
    SubmittedStays(Step(s, Release(token, Submitted)), es, s.leases[token].requestId);
  }

  // ---------------------------------------------------------------- every answer

  /** Some lease for this request id was released as submitted. */
  predicate SubmittedBy(s: Store, requestId: string, t: Token) {
    t in s.leases && s.leases[t].requestId == requestId && s.leases[t].released == Some(Submitted)
  }

  lemma SubmittedHasLease(es: seq<Event>, requestId: string)
    requires Possible(EMPTY, es)
    ensures requestId in Run(EMPTY, es).submittedRequestIds ==> exists t :: SubmittedBy(Run(EMPTY, es), requestId, t)
  {
    LeaseBehind(EMPTY, es, requestId);
  }

  lemma {:induction false} LeaseBehind(s: Store, es: seq<Event>, requestId: string)
    requires Inv(s) && Possible(s, es)
    requires requestId in s.submittedRequestIds ==> exists t :: SubmittedBy(s, requestId, t)
    ensures requestId in Run(s, es).submittedRequestIds ==> exists t :: SubmittedBy(Run(s, es), requestId, t)
    decreases |es|
  {
    if es == [] {
    } else {
      LeaseBehindStep(s, es[0], requestId);
      StepKeepsInv(s, es[0]);
      LeaseBehind(Step(s, es[0]), es[1..], requestId);
    }
  }

  lemma LeaseBehindStep(s: Store, e: Event, requestId: string)
    requires Inv(s) && Enabled(s, e)
    requires requestId in s.submittedRequestIds ==> exists t :: SubmittedBy(s, requestId, t)
    ensures requestId in Step(s, e).submittedRequestIds ==> exists t :: SubmittedBy(Step(s, e), requestId, t)
  {
    if requestId in s.submittedRequestIds {
      var t :| SubmittedBy(s, requestId, t);
      assert SubmittedBy(Step(s, e), requestId, t);
    } else if requestId in Step(s, e).submittedRequestIds {
      assert SubmittedBy(Step(s, e), requestId, e.token);
    }
  }

  /** Without settlement: a request is refused as duplicate exactly when a lease for it was submitted,
      as busy exactly when another lease is outstanding on its vault, and granted otherwise. */
  lemma AnswerExact(es: seq<Event>, vault: Vault, requestId: string)
    requires Possible(EMPTY, es) && forall i :: 0 <= i < |es| ==> !es[i].Settle?
    ensures var s := Run(EMPTY, es);
      match AcquireAnswer(s, vault, requestId)
      case DuplicateRequest => exists t :: SubmittedBy(s, requestId, t)
      case VaultBusy => !(exists t :: SubmittedBy(s, requestId, t)) && exists t :: HoldsVault(s, t, vault)
      case Granted(_) => !(exists t :: SubmittedBy(s, requestId, t)) && !(exists t :: HoldsVault(s, t, vault))
  {
    RunKeepsInv(EMPTY, es);
    SubmittedHasLease(es, requestId);
    OneLeasePerVault(es, vault);
  }
}
