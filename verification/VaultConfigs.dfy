/** Each vault's most recent configuration (latestVaultConfigs of app/community-indexer.ts):
    the legs of its newest call by slot, instruction index and signature. */
module VaultConfigs {
  import opened Basics
  import opened BurnDecoder
  import opened Lexicographic

  type VaultKey = (string, string)

  datatype CallId = CallId(slot: nat, instructionIndex: nat, signature: string)

  datatype Leg = Leg(mint: string, bps: nat, referencePool: string)

  function KeyOf(row: Row): VaultKey { (row.launchMint, row.vault) }

  function CallOf(row: Row): CallId { CallId(row.slot, row.instructionIndex, row.signature) }

  function LegOf(row: Row): Leg { Leg(row.targetMint, row.bps, row.referencePool) }

  predicate Newer(a: CallId, b: CallId) {
    || a.slot > b.slot
    || (a.slot == b.slot &&
        (|| a.instructionIndex > b.instructionIndex
         || (a.instructionIndex == b.instructionIndex && Less(Codes(b.signature), Codes(a.signature)))))
  }

  predicate SameCall(a: CallId, b: CallId) {
    a.signature == b.signature && a.instructionIndex == b.instructionIndex
  }

  lemma NewerTransitive(a: CallId, b: CallId, c: CallId)
    requires Newer(a, b) && Newer(b, c)
    ensures Newer(a, c)
  {
    if a.slot == b.slot == c.slot && a.instructionIndex == b.instructionIndex == c.instructionIndex {
      Transitive(Codes(c.signature), Codes(b.signature), Codes(a.signature));
    }
  }

  lemma NewerIrreflexive(a: CallId)
    ensures !Newer(a, a)
  {
    Irreflexive(Codes(a.signature));
  }

  lemma NewerTotal(a: CallId, b: CallId)
    ensures Newer(a, b) || a == b || Newer(b, a)
  {
    Trichotomy(Codes(a.signature), Codes(b.signature));
    if Codes(a.signature) == Codes(b.signature) { CodesInjective(a.signature, b.signature); }
  }

  function Keys(rows: seq<Row>): set<VaultKey> {
    set row | row in rows :: KeyOf(row)
  }

  /** The call the first pass keeps for a vault. */
  function Latest(rows: seq<Row>, key: VaultKey): Option<CallId> {
    if rows == [] then None
    else
      var current := Latest(rows[..|rows| - 1], key);
      var row := rows[|rows| - 1];
      if KeyOf(row) == key && (current == None || Newer(CallOf(row), current.value)) then Some(CallOf(row)) else current
  }

  /** The legs the second pass collects for a vault and a call. */
  function LegsOf(rows: seq<Row>, key: VaultKey, call: CallId): map<nat, Leg> {
    if rows == [] then map[]
    else
      var legs := LegsOf(rows[..|rows| - 1], key, call);
      var row := rows[|rows| - 1];
      if KeyOf(row) == key && SameCall(CallOf(row), call) then legs[row.legIndex := LegOf(row)] else legs
  }

  /** What c means for a vault: some row of the vault belongs to it and none is newer. */
  predicate IsLatest(rows: seq<Row>, key: VaultKey, c: CallId) {
    && (exists row :: row in rows && KeyOf(row) == key && CallOf(row) == c)
    && (forall row :: row in rows && KeyOf(row) == key ==> !Newer(CallOf(row), c))
  }

  /** The first pass finds exactly the maximum, which is unique. */
  lemma {:induction false} LatestIsMaximum(rows: seq<Row>, key: VaultKey)
    ensures Latest(rows, key) == None <==> key !in Keys(rows)
    ensures forall c :: Latest(rows, key) == Some(c) <==> IsLatest(rows, key, c)
  {
    if rows == [] {
    } else {
      var front, row := rows[..|rows| - 1], rows[|rows| - 1];
      assert rows == front + [row];
      LatestIsMaximum(front, key);
      var latest := Latest(rows, key);
      if latest.Some? {
        LatestStep(front, row, key);
        forall c | IsLatest(rows, key, c) ensures c == latest.value { LatestUnique(rows, key, c, latest.value); }
      }
    }
  }

  lemma LatestUnique(rows: seq<Row>, key: VaultKey, c: CallId, c': CallId)
    requires IsLatest(rows, key, c) && IsLatest(rows, key, c')
    ensures c == c'
  {
    NewerTotal(c, c');
  }

  lemma LatestStep(front: seq<Row>, row: Row, key: VaultKey)
    requires Latest(front, key) == None <==> key !in Keys(front)
    requires Latest(front, key).Some? ==> IsLatest(front, key, Latest(front, key).value)
    requires Latest(front + [row], key).Some?
    ensures IsLatest(front + [row], key, Latest(front + [row], key).value)
  {
    var rows := front + [row];
    assert rows[..|front|] == front;
    var c := Latest(rows, key).value;
    NewerIrreflexive(c);
    if KeyOf(row) == key && c == CallOf(row) {
      forall r | r in rows && KeyOf(r) == key ensures !Newer(CallOf(r), c) {
        if r in front {
          if Newer(CallOf(r), c) && Newer(c, Latest(front, key).value) {
            NewerTransitive(CallOf(r), c, Latest(front, key).value);
          }
        }
      }
    }
  }

  /** Both passes together, as a map from vault to its configuration. */
  function Configs(rows: seq<Row>): map<VaultKey, map<nat, Leg>> {
    map key | key in Keys(rows) :: LegsOf(rows, key, LatestCall(rows, key))
  }

  function LatestCall(rows: seq<Row>, key: VaultKey): CallId
    requires key in Keys(rows)
  {
    LatestIsMaximum(rows, key);
    Latest(rows, key).value
  }

  lemma Snoc(front: seq<Row>, row: Row)
    ensures Keys(front + [row]) == Keys(front) + {KeyOf(row)}
    ensures forall key ::
              Latest(front + [row], key)
              == if KeyOf(row) == key && (Latest(front, key) == None || Newer(CallOf(row), Latest(front, key).value))
                 then Some(CallOf(row)) else Latest(front, key)
    ensures forall key, call ::
              LegsOf(front + [row], key, call)
              == if KeyOf(row) == key && SameCall(CallOf(row), call)
                 then LegsOf(front, key, call)[row.legIndex := LegOf(row)] else LegsOf(front, key, call)
  {
    assert (front + [row])[..|front|] == front;
  }

  /** First pass: the newest call of every vault. */
  method LatestCalls(rows: seq<Row>) returns (latestCalls: map<VaultKey, CallId>)
    ensures latestCalls.Keys == Keys(rows)
    ensures forall key :: key in latestCalls ==> Latest(rows, key) == Some(latestCalls[key])
  {
    latestCalls := map[];
    for k := 0 to |rows|
      invariant latestCalls.Keys == Keys(rows[..k])
      invariant forall key :: key in latestCalls ==> Latest(rows[..k], key) == Some(latestCalls[key])
    {
      hide Latest; hide Newer; hide Keys;
      var row := rows[k];
      var key := KeyOf(row);
      LatestIsMaximum(rows[..k], key);
      Snoc(rows[..k], row);
      assert rows[..k + 1] == rows[..k] + [row];
      if key !in latestCalls || Newer(CallOf(row), latestCalls[key]) {
        latestCalls := latestCalls[key := CallOf(row)];
      }
    }
    assert rows[..|rows|] == rows;
  }

  method LatestVaultConfigs(rows: seq<Row>) returns (configs: map<VaultKey, map<nat, Leg>>)
    ensures configs == Configs(rows)
  {
    var latestCalls := LatestCalls(rows);
    configs := CollectLegs(rows, latestCalls);
    EveryVaultCollected(rows, latestCalls);
  }

  predicate Matches(row: Row, latestCalls: map<VaultKey, CallId>) {
    KeyOf(row) in latestCalls && SameCall(CallOf(row), latestCalls[KeyOf(row)])
  }

  function MatchedKeys(rows: seq<Row>, latestCalls: map<VaultKey, CallId>): set<VaultKey> {
    set row | row in rows && Matches(row, latestCalls) :: KeyOf(row)
  }

  method CollectLegs(rows: seq<Row>, latestCalls: map<VaultKey, CallId>) returns (configs: map<VaultKey, map<nat, Leg>>)
    ensures configs.Keys == MatchedKeys(rows, latestCalls)
    ensures forall key :: key in configs ==> key in latestCalls && configs[key] == LegsOf(rows, key, latestCalls[key])
  {
    configs := map[];
    for k := 0 to |rows|
      invariant configs.Keys == MatchedKeys(rows[..k], latestCalls)
      invariant forall key :: key in latestCalls ==>
        LegsOf(rows[..k], key, latestCalls[key]) == if key in configs then configs[key] else map[]
    {
      hide LegsOf;
      var row := rows[k];
      var key := KeyOf(row);
      Snoc(rows[..k], row);
      assert rows[..k + 1] == rows[..k] + [row];
      if !Matches(row, latestCalls) { continue; }
      var legs := if key in configs then configs[key] else map[];
      configs := configs[key := legs[row.legIndex := LegOf(row)]];
    }
    assert rows[..|rows|] == rows;
  }

  lemma EveryVaultCollected(rows: seq<Row>, latestCalls: map<VaultKey, CallId>)
    requires latestCalls.Keys == Keys(rows)
    requires forall key :: key in latestCalls ==> Latest(rows, key) == Some(latestCalls[key])
    ensures MatchedKeys(rows, latestCalls) == Keys(rows)
    ensures forall key :: key in latestCalls ==> latestCalls[key] == LatestCall(rows, key)
  {
    forall key | key in Keys(rows) ensures key in MatchedKeys(rows, latestCalls) {
      LatestIsMaximum(rows, key);
      assert IsLatest(rows, key, latestCalls[key]);
      var row :| row in rows && KeyOf(row) == key && CallOf(row) == latestCalls[key];
      assert Matches(row, latestCalls);
    }
  }

  // ---------------------------------------------------------------- what a configuration is

  predicate UniqueLegs(rows: seq<Row>) {
    forall i, j :: 0 <= i < j < |rows| ==>
      !SameCall(CallOf(rows[i]), CallOf(rows[j])) || rows[i].legIndex != rows[j].legIndex
  }

  predicate Holds(legs: map<nat, Leg>, i: nat, leg: Leg) {
    i in legs && legs[i] == leg
  }

  /** Some row of the vault's call is leg number i. */
  predicate HasLeg(rows: seq<Row>, key: VaultKey, call: CallId, i: nat, leg: Leg) {
    exists row :: row in rows && KeyOf(row) == key && SameCall(CallOf(row), call) && row.legIndex == i && LegOf(row) == leg
  }

  /** With one row per (call, leg), the legs of a call are exactly its rows. */
  lemma {:induction false} LegsExact(rows: seq<Row>, key: VaultKey, call: CallId, i: nat, leg: Leg)
    requires UniqueLegs(rows)
    ensures Holds(LegsOf(rows, key, call), i, leg) <==> HasLeg(rows, key, call, i, leg)
  {
    if rows == [] {
    } else {
      var front, row := rows[..|rows| - 1], rows[|rows| - 1];
      assert rows == front + [row];
      LegsExact(front, key, call, i, leg);
      assert forall r :: r in front && SameCall(CallOf(r), CallOf(row)) ==> r.legIndex != row.legIndex;
    }
  }

  /** A vault's configuration is exactly the legs of its maximal call. */
  lemma ConfigIsLatestCall(rows: seq<Row>, key: VaultKey, call: CallId)
    requires UniqueLegs(rows) && IsLatest(rows, key, call)
    ensures key in Configs(rows)
    ensures forall i, leg :: Holds(Configs(rows)[key], i, leg) <==> HasLeg(rows, key, call, i, leg)
  {
    LatestIsMaximum(rows, key);
    forall i, leg ensures Holds(Configs(rows)[key], i, leg) <==> HasLeg(rows, key, call, i, leg) {
      LegsExact(rows, key, call, i, leg);
    }
  }

  /** Configurations do not depend on the order of the rows. */
  lemma ConfigsOfPermutation(rows: seq<Row>, rows': seq<Row>)
    requires multiset(rows) == multiset(rows') && UniqueLegs(rows) && UniqueLegs(rows')
    ensures Configs(rows) == Configs(rows')
  {
    hide LegsOf; hide Latest; hide Newer; hide UniqueLegs;
    SameElements(rows, rows');
    forall key | key in Keys(rows) ensures Configs(rows)[key] == Configs(rows')[key] {
      LatestIsMaximum(rows, key);
      LatestIsMaximum(rows', key);
      var call := LatestCall(rows, key);
      assert IsLatest(rows, key, call);
      assert IsLatest(rows', key, call);
      SameLegs(rows, rows', key, call);
    }
  }

  lemma SameElements(rows: seq<Row>, rows': seq<Row>)
    requires multiset(rows) == multiset(rows')
    ensures forall row :: row in rows <==> row in rows'
    ensures Keys(rows) == Keys(rows')
  {
    assert forall row :: row in rows <==> row in multiset(rows);
    assert forall row :: row in rows' <==> row in multiset(rows');
  }

  lemma SameLegs(rows: seq<Row>, rows': seq<Row>, key: VaultKey, call: CallId)
    requires UniqueLegs(rows) && UniqueLegs(rows')
    requires forall row :: row in rows <==> row in rows'
    ensures LegsOf(rows, key, call) == LegsOf(rows', key, call)
  {
    hide LegsOf;
    var a, b := LegsOf(rows, key, call), LegsOf(rows', key, call);
    forall i, leg ensures Holds(a, i, leg) <==> Holds(b, i, leg) {
      LegsExact(rows, key, call, i, leg);
      LegsExact(rows', key, call, i, leg);
    }
    SameMaps(a, b);
  }

  lemma SameMaps(a: map<nat, Leg>, b: map<nat, Leg>)
    requires forall i, leg :: Holds(a, i, leg) <==> Holds(b, i, leg)
    ensures a == b
  {
    forall i | i in a ensures i in b && b[i] == a[i] { assert Holds(a, i, a[i]); }
    forall i | i in b ensures i in a { assert Holds(b, i, b[i]); }
  }

  /** What newest means, field by field: no row of the vault has a higher slot; none in the same slot
      a higher instruction index; and none there a later signature. */
  lemma LatestByFields(rows: seq<Row>, key: VaultKey, c: CallId, row: Row)
    requires IsLatest(rows, key, c) && row in rows && (row.launchMint, row.vault) == key
    ensures row.slot <= c.slot
    ensures row.slot == c.slot ==> row.instructionIndex <= c.instructionIndex
    ensures row.slot == c.slot && row.instructionIndex == c.instructionIndex ==>
            row.signature == c.signature || Precedes(Codes(row.signature), Codes(c.signature))
  {
    NewerTotal(CallOf(row), c);
    LessIsPrecedes(Codes(row.signature), Codes(c.signature));
  }
}
