/** Which bytes the streaming form stars, for every body and every set of cuts, and from that
    exactly when it equals whole-body redaction. */
module RedactorExact {
  import opened Basics
  import opened Redactor
  import opened RedactorSafety

  // ---------------------------------------------------------------- standing occurrences

  /** Where the chunks of a body end. */
  function Cuts(chunks: seq<Bytes>): set<nat> {
    if chunks == [] then {} else Cuts(chunks[..|chunks| - 1]) + {|Concat(chunks)|}
  }

  /** The occurrence of pattern j at t is still whole when its last byte arrives: no standing
      occurrence that shares a byte with it was finished, and so starred, at an earlier cut. */
  ghost predicate Stands(body: Bytes, patterns: seq<Bytes>, cuts: set<nat>, j: nat, t: nat)
    requires j < |patterns|
    decreases t + |patterns[j]|
  {
    && Occurs(body, patterns[j], t)
    && forall j': nat, t': nat, c: nat | Spoils(patterns, cuts, j', t', c, j, t) :: !Stands(body, patterns, cuts, j', t')
  }

  /** Pattern j' at t' shares a byte with pattern j at t and ends by a cut c inside the latter. */
  predicate Spoils(patterns: seq<Bytes>, cuts: set<nat>, j': nat, t': nat, c: nat, j: nat, t: nat)
    requires j < |patterns|
  {
    j' < |patterns| && c in cuts && t < t' + |patterns[j']| <= c < t + |patterns[j]|
  }

  ghost predicate StandsAt(body: Bytes, patterns: seq<Bytes>, cuts: set<nat>, j: nat, t: nat, i: int) {
    At(body, patterns, j, t, i) && Stands(body, patterns, cuts, j, t)
  }

  /** Byte i lies in a standing occurrence that ends by n. */
  ghost predicate StarredBy(body: Bytes, patterns: seq<Bytes>, cuts: set<nat>, n: nat, i: int) {
    exists j: nat, t: nat :: StandsAt(body, patterns, cuts, j, t, i) && t + |patterns[j]| <= n
  }

  /** Two sets of cuts that no unfinished occurrence of a prefix can tell apart. */
  predicate SameCuts(cuts: set<nat>, cuts': set<nat>, n: nat) {
    forall c :: 0 < c < n ==> (c in cuts <==> c in cuts')
  }

  /** What has arrived by c leaves as the standing occurrences say. */
  ghost predicate Seen(body: Bytes, patterns: seq<Bytes>, cuts: set<nat>, seen: Bytes, c: nat) {
    && |seen| == c <= |body|
    && forall i :: 0 <= i < c ==> seen[i] == if StarredBy(body, patterns, cuts, c, i) then STAR else body[i]
  }

  /** An occurrence that a chunk finishes is found in what follows the redacted prefix exactly
      when it stands. */
  lemma FoundIffStands(body: Bytes, patterns: seq<Bytes>, cuts: set<nat>, seen: Bytes, c: nat, n: nat, j: nat, t: nat)
    requires NoStars(patterns) && Seen(body, patterns, cuts, seen, c) && c <= n <= |body|
    requires forall x :: c < x < n ==> x !in cuts
    requires 0 < c < n ==> c in cuts
    requires j < |patterns| && Occurs(body, patterns[j], t) && c < t + |patterns[j]| <= n
    ensures Occurs(seen + body[c..n], patterns[j], t) <==> Stands(body, patterns, cuts, j, t)
  {
    var x := seen + body[c..n];
    if !Stands(body, patterns, cuts, j, t) {
      var j': nat, t': nat, c': nat :| Spoils(patterns, cuts, j', t', c', j, t) && Stands(body, patterns, cuts, j', t');
      var i := t' + |patterns[j']| - 1;
      assert StandsAt(body, patterns, cuts, j', t', i);
      assert x[t + (i - t)] == STAR != patterns[j][i - t];
    } else {
      forall k | 0 <= k < |patterns[j]| ensures x[t + k] == patterns[j][k] {
        NotSpoiled(body, patterns, cuts, c, n, j, t, t + k);
      }
    }
  }

  lemma NotSpoiled(body: Bytes, patterns: seq<Bytes>, cuts: set<nat>, c: nat, n: nat, j: nat, t: nat, i: nat)
    requires 0 < c < n ==> c in cuts
    requires j < |patterns| && Stands(body, patterns, cuts, j, t) && c < t + |patterns[j]| <= n && t <= i
    ensures !StarredBy(body, patterns, cuts, c, i)
  {
    if StarredBy(body, patterns, cuts, c, i) {
      var j': nat, t': nat :| StandsAt(body, patterns, cuts, j', t', i) && t' + |patterns[j']| <= c;
      assert Spoils(patterns, cuts, j', t', c, j, t);
    }
  }

  /** One chunk: the standing occurrences it finishes are starred, and nothing else. */
  lemma FeedStands(body: Bytes, patterns: seq<Bytes>, cuts: set<nat>, seen: Bytes, c: nat, n: nat)
    requires NoStars(patterns) && Seen(body, patterns, cuts, seen, c) && c <= n <= |body|
    requires Starred(seen, body[..c], patterns) && Clean(seen, patterns)
    requires forall x :: c < x < n ==> x !in cuts
    requires 0 < c < n ==> c in cuts
    ensures Seen(body, patterns, cuts, Feed(patterns, seen, body[c..n]), n)
  {
    hide Feed; hide Stands; hide Starred;
    var r := Feed(patterns, seen, body[c..n]);
    forall i: nat | i < n ensures r[i] == if StarredBy(body, patterns, cuts, n, i) then STAR else body[i] {
      FeedAt(patterns, seen, body[c..n], i);
      if exists j, t :: t >= EmitPoint(patterns, c) && At(seen + body[c..n], patterns, j, t, i) {
        FoundIsStarred(body, patterns, cuts, seen, c, n, i);
      }
      StarredIsFound(body, patterns, cuts, seen, c, n, i);
    }
  }

  lemma FoundIsStarred(body: Bytes, patterns: seq<Bytes>, cuts: set<nat>, seen: Bytes, c: nat, n: nat, i: nat)
    requires NoStars(patterns) && Seen(body, patterns, cuts, seen, c) && c <= n <= |body| && i < n
    requires Starred(seen, body[..c], patterns) && Clean(seen, patterns)
    requires forall x :: c < x < n ==> x !in cuts
    requires 0 < c < n ==> c in cuts
    requires exists j, t :: t >= EmitPoint(patterns, c) && At(seen + body[c..n], patterns, j, t, i)
    ensures StarredBy(body, patterns, cuts, n, i)
  {
    hide Stands; hide Starred;
    var x := seen + body[c..n];
    var j, t :| t >= EmitPoint(patterns, c) && At(x, patterns, j, t, i);
    StarredExtension(seen, body[..c], body[c..n], patterns);
    assert body[..c] + body[c..n] == body[..n];
    OccursInBody(x, body[..n], patterns, j, t);
    OccursInExtension(body[..n], body, patterns[j], t);
    OccursInExtension(seen, x, patterns[j], t);
    FoundIffStands(body, patterns, cuts, seen, c, n, j, t);
    assert StandsAt(body, patterns, cuts, j, t, i);
  }

  lemma StarredIsFound(body: Bytes, patterns: seq<Bytes>, cuts: set<nat>, seen: Bytes, c: nat, n: nat, i: nat)
    requires NoStars(patterns) && Seen(body, patterns, cuts, seen, c) && c <= n <= |body| && i < n
    requires forall x :: c < x < n ==> x !in cuts
    requires 0 < c < n ==> c in cuts
    ensures StarredBy(body, patterns, cuts, n, i) ==>
      || StarredBy(body, patterns, cuts, c, i)
      || exists j, t :: t >= EmitPoint(patterns, c) && At(seen + body[c..n], patterns, j, t, i)
    ensures StarredBy(body, patterns, cuts, c, i) ==> StarredBy(body, patterns, cuts, n, i) && i < c
  {
    hide Stands;
    if StarredBy(body, patterns, cuts, n, i) {
      var j: nat, t: nat :| StandsAt(body, patterns, cuts, j, t, i) && t + |patterns[j]| <= n;
      if c < t + |patterns[j]| {
        FoundIffStands(body, patterns, cuts, seen, c, n, j, t);
        if t < EmitPoint(patterns, c) { EarlyIsComplete(patterns, c, j, t); }
        assert At(seen + body[c..n], patterns, j, t, i);
      }
    }
    if StarredBy(body, patterns, cuts, c, i) {
      var j: nat, t: nat :| StandsAt(body, patterns, cuts, j, t, i) && t + |patterns[j]| <= c;
      assert t + |patterns[j]| <= n;
    }
  }

  // ---------------------------------------------------------------- every chunking

  lemma {:induction false} CutsWithin(chunks: seq<Bytes>)
    ensures forall c :: c in Cuts(chunks) ==> c <= |Concat(chunks)|
    ensures chunks != [] ==> |Concat(chunks)| in Cuts(chunks)
  {
    if chunks == [] {
    } else {
      CutsWithin(chunks[..|chunks| - 1]);
    }
  }

  lemma {:induction false} ViewStands(body: Bytes, patterns: seq<Bytes>, cuts: set<nat>, chunks: seq<Bytes>)
    requires NoStars(patterns) && Concat(chunks) <= body && SameCuts(cuts, Cuts(chunks), |Concat(chunks)|)
    ensures Seen(body, patterns, cuts, View(patterns, chunks), |Concat(chunks)|)
  {
    if chunks == [] {
    } else {
      hide Feed; hide Stands; hide StarredBy; hide Seen; hide Starred; hide Clean;
      var front, chunk := chunks[..|chunks| - 1], chunks[|chunks| - 1];
      var c, n := |Concat(front)|, |Concat(chunks)|;
      CutsWithin(front);
      assert Concat(front) <= body;
      ViewStands(body, patterns, cuts, front);
      ViewSafe(patterns, front);
      assert Concat(front) == body[..c] && chunk == body[c..n];
      if c > 0 { assert front != []; }
      FeedStands(body, patterns, cuts, View(patterns, front), c, n);
    }
  }

  /** For every chunking of a body: a byte leaves as a star exactly when an occurrence that
      stands under these cuts covers it, and as itself otherwise. */
  lemma StreamedBytes(patterns: seq<Bytes>, chunks: seq<Bytes>)
    requires NoStars(patterns)
    ensures var body, out := Concat(chunks), Output(patterns, chunks);
            && |out| == |body|
            && forall i :: 0 <= i < |body| ==>
                 out[i] == if exists j: nat, t: nat :: StandsAt(body, patterns, Cuts(chunks), j, t, i) then STAR else body[i]
  {
    hide Stands; hide Cuts; hide View; hide Output; hide Concat;
    var body := Concat(chunks);
    OutputIsView(patterns, chunks);
    ViewStands(body, patterns, Cuts(chunks), chunks);
    forall i | 0 <= i < |body|
      ensures StarredBy(body, patterns, Cuts(chunks), |body|, i) <==> exists j: nat, t: nat :: StandsAt(body, patterns, Cuts(chunks), j, t, i)
    {
      if exists j: nat, t: nat :: StandsAt(body, patterns, Cuts(chunks), j, t, i) {
        var j: nat, t: nat :| StandsAt(body, patterns, Cuts(chunks), j, t, i);
        assert StandsAt(body, patterns, Cuts(chunks), j, t, i) && t + |patterns[j]| <= |body|;
      }
    }
  }

  // ---------------------------------------------------------------- every set of cuts

  /** The last cut below n, or zero. */
  function LastCut(cuts: set<nat>, n: nat): (c: nat)
    requires n > 0
    ensures c < n && (c in cuts || c == 0)
    ensures forall x :: c < x < n ==> x !in cuts
  {
    if n - 1 in cuts || n == 1 then n - 1 else LastCut(cuts, n - 1)
  }

  /** A prefix of the body, cut at the given places. */
  function CutAt(body: Bytes, cuts: set<nat>, n: nat): (chunks: seq<Bytes>)
    requires n <= |body|
  {
    if n == 0 then [] else CutAt(body, cuts, LastCut(cuts, n)) + [body[LastCut(cuts, n)..n]]
  }

  /** Every set of cuts belongs to some chunking. */
  lemma {:induction false} CutAtCuts(body: Bytes, cuts: set<nat>, n: nat)
    requires n <= |body|
    ensures Concat(CutAt(body, cuts, n)) == body[..n]
    ensures SameCuts(cuts, Cuts(CutAt(body, cuts, n)), n)
    decreases n
  {
    if n == 0 {
    } else {
      var c := LastCut(cuts, n);
      var front := CutAt(body, cuts, c);
      CutAtCuts(body, cuts, c);
      ConcatSnoc(front, body[c..n]);
      assert body[..c] + body[c..n] == body[..n];
      assert (front + [body[c..n]])[..|front|] == front;
      CutsWithin(front);
    }
  }

  // ---------------------------------------------------------------- exact for a body

  ghost predicate ExactForBody(body: Bytes, patterns: seq<Bytes>) {
    forall chunks :: Concat(chunks) == body ==> Output(patterns, chunks) == Redact(body, patterns)
  }

  ghost predicate Standing(body: Bytes, patterns: seq<Bytes>, cuts: set<nat>, i: int) {
    exists j: nat, t: nat :: StandsAt(body, patterns, cuts, j, t, i)
  }

  /** Wherever the cuts fall, every byte of a secret is in some occurrence that stands. */
  ghost predicate AlwaysStanding(body: Bytes, patterns: seq<Bytes>) {
    forall cuts: set<nat>, i :: Covered(body, patterns, i) ==> Standing(body, patterns, cuts, i)
  }

  /** For a whole body, streaming equals whole-body redaction under every chunking exactly when
      every covered byte has a standing occurrence under every set of cuts. */
  lemma ExactIffAlwaysStanding(body: Bytes, patterns: seq<Bytes>)
    requires NoStars(patterns)
    ensures ExactForBody(body, patterns) <==> AlwaysStanding(body, patterns)
  {
    hide Stands; hide Cuts; hide View; hide Output; hide Concat;
    if AlwaysStanding(body, patterns) {
      forall chunks | Concat(chunks) == body ensures Output(patterns, chunks) == Redact(body, patterns) {
        StreamedBytes(patterns, chunks);
        forall i | 0 <= i < |body| ensures Covered(body, patterns, i) <==> Standing(body, patterns, Cuts(chunks), i) {
          if Standing(body, patterns, Cuts(chunks), i) { StandingIsCovered(body, patterns, Cuts(chunks), i); }
        }
      }
    }
    if ExactForBody(body, patterns) {
      forall cuts: set<nat>, i | Covered(body, patterns, i) ensures Standing(body, patterns, cuts, i) {
        ExactMeansStanding(body, patterns, cuts, i);
      }
    }
  }

  lemma StandingIsCovered(body: Bytes, patterns: seq<Bytes>, cuts: set<nat>, i: int)
    requires Standing(body, patterns, cuts, i)
    ensures Covered(body, patterns, i)
  {
    var j: nat, t: nat :| StandsAt(body, patterns, cuts, j, t, i);
    assert At(body, patterns, j, t, i);
  }

  lemma ExactMeansStanding(body: Bytes, patterns: seq<Bytes>, cuts: set<nat>, i: int)
    requires NoStars(patterns) && ExactForBody(body, patterns) && Covered(body, patterns, i)
    ensures Standing(body, patterns, cuts, i)
  {
    hide Stands; hide Cuts; hide View; hide Output; hide Concat;
    var j, t :| At(body, patterns, j, t, i);
    var chunks := CutAt(body, cuts, |body|);
    CutAtCuts(body, cuts, |body|);
    assert body[..|body|] == body;
    OutputIsView(patterns, chunks);
    ViewStands(body, patterns, cuts, chunks);
    assert body[t + (i - t)] == patterns[j][i - t] != STAR;
    assert Redact(body, patterns)[i] == STAR;
    assert StarredBy(body, patterns, cuts, |body|, i);
    var j': nat, t': nat :| StandsAt(body, patterns, cuts, j', t', i) && t' + |patterns[j']| <= |body|;
  }

  /** Every prefix exact is more than the body exact. */
  lemma PrefixesIncludeBody(body: Bytes, patterns: seq<Bytes>)
    requires NoStars(patterns) && CutsRecover(body, patterns)
    ensures ExactForBody(body, patterns) && AlwaysStanding(body, patterns)
  {
    ExactIffCutsRecover(body, patterns);
    ExactIffAlwaysStanding(body, patterns);
  }

  // ---------------------------------------------------------------- single cuts are not the whole story

  const CHAIN: seq<Bytes> := [[97, 98], [98, 99], [99, 100], [100]]
  const CHAINED: Bytes := [97, 98, 99, 100]

  lemma ChainedOnce(j: nat, t: nat)
    requires j < |CHAIN| && Occurs(CHAINED, CHAIN[j], t)
    ensures t == j
  {
    assert CHAINED[t + 0] == CHAIN[j][0];
  }

  lemma ChainStands(cuts: set<nat>, j: nat)
    requires j < |CHAIN|
    requires forall j': nat, c: nat | Spoils(CHAIN, cuts, j', j', c, j, j) :: !Stands(CHAINED, CHAIN, cuts, j', j')
    ensures Stands(CHAINED, CHAIN, cuts, j, j)
  {
    assert forall k :: 0 <= k < |CHAIN[j]| ==> CHAINED[j + k] == CHAIN[j][k];
    assert Occurs(CHAINED, CHAIN[j], j);
    forall j': nat, t': nat, c: nat | Spoils(CHAIN, cuts, j', t', c, j, j) ensures !Stands(CHAINED, CHAIN, cuts, j', t') {
      if Stands(CHAINED, CHAIN, cuts, j', t') { ChainedOnce(j', t'); }
    }
  }

  lemma ChainByte(cuts: set<nat>, j: nat, i: nat)
    requires j < |CHAIN| && Stands(CHAINED, CHAIN, cuts, j, j) && j <= i < j + |CHAIN[j]|
    ensures Standing(CHAINED, CHAIN, cuts, i)
  {
    assert StandsAt(CHAINED, CHAIN, cuts, j, j, i);
  }

  /** Recovery at every single cut is not necessary for a body: of the secrets ab, bc, cd and d
      in abcd, the cut after ab leaves c in the clear until d arrives, and d always does. */
  lemma CutsRecoverNotNecessary()
    ensures NoStars(CHAIN) && ExactForBody(CHAINED, CHAIN) && !CutsRecover(CHAINED, CHAIN)
  {
    hide Standing; hide Stands;
    forall cuts: set<nat>, i | Covered(CHAINED, CHAIN, i) ensures Standing(CHAINED, CHAIN, cuts, i) {
      ChainStands(cuts, 0);
      ChainStands(cuts, 3);
      if i == 0 || i == 1 {
        ChainByte(cuts, 0, i);
      } else if i == 3 {
        ChainByte(cuts, 3, 3);
      } else if Stands(CHAINED, CHAIN, cuts, 1, 1) {
        ChainByte(cuts, 1, 2);
      } else {
        ChainStands(cuts, 2);
        ChainByte(cuts, 2, 2);
      }
    }
    ExactIffAlwaysStanding(CHAINED, CHAIN);
    ChainCut();
  }

  lemma ChainCut()
    ensures !CutsRecover(CHAINED, CHAIN)
  {
    hide Recovered;
    assert At(CHAINED, CHAIN, 1, 1, 2);
    assert At(CHAINED, CHAIN, 0, 0, 1);
    assert EndedAt(CHAINED, CHAIN, 2, 1);
    assert !Untouched(CHAINED, CHAIN, 2, 1, 1);
    NotYetRecovered();
    assert !CutRecovers(CHAINED, CHAIN, 2, 1, 1, 2);
  }

  lemma NotYetRecovered()
    requires !Untouched(CHAINED, CHAIN, 2, 1, 1)
    ensures !Recovered(CHAINED, CHAIN, 2, 3, 2)
  {
    forall j, t | At(CHAINED, CHAIN, j, t, 2) && t + |CHAIN[j]| <= 3 ensures j == 1 && t == 1 { ChainedOnce(j, t); }
    assert !EndedAt(CHAINED, CHAIN, 2, 2);
  }

  // ---------------------------------------------------------------- patterns with stars

  /** Whatever the patterns hold, a chunk only ever replaces bytes by stars. */
  lemma {:induction false} OnlyStars(patterns: seq<Bytes>, chunks: seq<Bytes>)
    ensures |View(patterns, chunks)| == |Concat(chunks)|
    ensures forall i :: 0 <= i < |Concat(chunks)| ==> View(patterns, chunks)[i] in {Concat(chunks)[i], STAR}
  {
    if chunks == [] {
    } else {
      var front, chunk := chunks[..|chunks| - 1], chunks[|chunks| - 1];
      OnlyStars(patterns, front);
      var seen := View(patterns, front);
      hide Redact;
      assert seen[EmitPoint(patterns, |seen|)..] + chunk == (seen + chunk)[EmitPoint(patterns, |seen|)..];
    }
  }

  /** So for any patterns at all the output has the body's length and differs from it only by stars. */
  lemma OutputOnlyStars(patterns: seq<Bytes>, chunks: seq<Bytes>)
    ensures var out, body := Output(patterns, chunks), Concat(chunks);
            |out| == |body| && forall i :: 0 <= i < |body| ==> out[i] == body[i] || out[i] == STAR
  {
    hide View; hide Concat; hide Feed;
    ViewSnoc(patterns, chunks, []);
    ConcatSnoc(chunks, []);
    OnlyStars(patterns, chunks + [[]]);
    assert Concat(chunks) + [] == Concat(chunks);
  }

  /** A pattern that itself holds a star can match the stars of an earlier one: with the secrets
      a and *b, the body ab cut after a loses its b, which whole-body redaction keeps. */
  lemma StarredPatternOverRedacts()
    ensures var patterns, chunks := [[97], [STAR, 98]], [[97], [98]];
            && Redact(Concat(chunks), patterns)[1] == 98
            && |Output(patterns, chunks)| == 2 && Output(patterns, chunks)[1] == STAR
  {
    var patterns: seq<Bytes>, chunks: seq<Bytes> := [[97], [STAR, 98]], [[97], [98]];
    hide Feed; hide Redact; hide Retained;
    var none: seq<Bytes> := [];
    assert none + [[97]] == [[97]] && [[97]] + [[98]] == chunks;
    ConcatSnoc(none, [97]);
    ConcatSnoc([[97]], [98]);
    ViewSnoc(patterns, none, [97]);
    ViewSnoc(patterns, [[97]], [98]);
    FirstFeed(patterns, [97]);
    assert At([97], patterns, 0, 0, 0);
    assert Redact([97], patterns) == [STAR];
    TailOfOne(patterns);
    var starred: Bytes, next: Bytes := [STAR], [98];
    assert starred + next == [STAR, 98];
    assert At(starred + next, patterns, 1, 0, 1);
    FeedAt(patterns, starred, next, 1);
    var seen := View(patterns, chunks);
    assert seen == Feed(patterns, starred, next) && seen[1] == STAR;
    FeedAt(patterns, seen, [], 1);
    assert (seen + [])[1] == STAR;
    WholeKeepsB(patterns);
    assert Concat(chunks) == [97, 98];
  }

  lemma WholeKeepsB(patterns: seq<Bytes>)
    requires patterns == [[97], [STAR, 98]]
    ensures Redact([97, 98], patterns)[1] == 98
  {
    var body: Bytes := [97, 98];
    assert !Occurs(body, patterns[0], 1) by { assert body[1 + 0] != patterns[0][0]; }
    assert !Occurs(body, patterns[1], 0) by { assert body[0 + 0] != patterns[1][0]; }
    assert forall j, t :: !At(body, patterns, j, t, 1);
  }

  lemma TailOfOne(patterns: seq<Bytes>)
    requires patterns == [[97], [STAR, 98]]
    ensures EmitPoint(patterns, 1) == 0
  {
    assert |patterns[1]| - 1 <= Retained(patterns);
  }
}
