/** What chunked redaction guarantees against the whole-buffer form, for every chunking of a
    body and patterns that hold no star. */
module RedactorSafety {
  import opened Basics
  import opened Redactor

  predicate NoStars(patterns: seq<Bytes>) {
    forall j, k :: 0 <= j < |patterns| && 0 <= k < |patterns[j]| ==> patterns[j][k] != STAR
  }

  /** s is body with some bytes replaced by stars, each inside some occurrence in body. */
  ghost predicate Starred(s: Bytes, body: Bytes, patterns: seq<Bytes>) {
    && |s| == |body|
    && forall i :: 0 <= i < |s| ==> s[i] == body[i] || (s[i] == STAR && Covered(body, patterns, i))
  }

  /** No secret is left standing. */
  ghost predicate Clean(s: Bytes, patterns: seq<Bytes>) {
    forall j, t :: 0 <= j < |patterns| ==> !Occurs(s, patterns[j], t)
  }

  // ---------------------------------------------------------------- occurrences

  /** Occurrences in a starred copy are occurrences in the body. */
  lemma OccursInBody(s: Bytes, body: Bytes, patterns: seq<Bytes>, j: int, t: int)
    requires NoStars(patterns) && Starred(s, body, patterns)
    requires 0 <= j < |patterns| && Occurs(s, patterns[j], t)
    ensures Occurs(body, patterns[j], t)
  {
    forall k | 0 <= k < |patterns[j]| ensures body[t + k] == patterns[j][k] {
      assert s[t + k] == patterns[j][k] != STAR;
    }
  }

  /** Occurrences in a suffix are occurrences in the whole. */
  lemma OccursInSuffix(s: Bytes, m: nat, p: Bytes, t: int)
    requires m <= |s| && t >= 0
    ensures Occurs(s[m..], p, t) <==> Occurs(s, p, m + t)
  {
    if m + t + |p| <= |s| {
      forall k | 0 <= k < |p| ensures s[m..][t + k] == p[k] <==> s[m + t + k] == p[k] { }
    }
  }

  lemma CoveredInSuffix(s: Bytes, m: nat, patterns: seq<Bytes>, i: int)
    requires m <= |s|
    ensures Covered(s[m..], patterns, i - m) <==> exists j, t :: t >= m && At(s, patterns, j, t, i)
  {
    if Covered(s[m..], patterns, i - m) {
      var j, t :| At(s[m..], patterns, j, t, i - m);
      OccursInSuffix(s, m, patterns[j], t);
      assert At(s, patterns, j, m + t, i);
    }
    if exists j, t :: t >= m && At(s, patterns, j, t, i) {
      var j, t :| t >= m && At(s, patterns, j, t, i);
      OccursInSuffix(s, m, patterns[j], t - m);
      assert At(s[m..], patterns, j, t - m, i - m);
    }
  }

  /** Occurrences survive when a body grows. */
  lemma OccursInExtension(s: Bytes, s': Bytes, p: Bytes, t: int)
    requires s <= s'
    ensures Occurs(s, p, t) ==> Occurs(s', p, t)
    ensures Occurs(s', p, t) && t + |p| <= |s| ==> Occurs(s, p, t)
  {
  }

  lemma CoveredInExtension(s: Bytes, s': Bytes, patterns: seq<Bytes>, i: int)
    requires s <= s' && Covered(s, patterns, i)
    ensures Covered(s', patterns, i)
  {
    var j, t :| At(s, patterns, j, t, i);
    OccursInExtension(s, s', patterns[j], t);
    assert At(s', patterns, j, t, i);
  }

  // ---------------------------------------------------------------- one chunk

  /** Position by position: a chunk stars exactly what the occurrences starting in the
      retained tail cover. */
  lemma FeedAt(patterns: seq<Bytes>, seen: Bytes, chunk: Bytes, i: nat)
    requires i < |seen| + |chunk|
    ensures var x := seen + chunk;
            var m := EmitPoint(patterns, |seen|);
            Feed(patterns, seen, chunk)[i]
            == if exists j, t :: t >= m && At(x, patterns, j, t, i) then STAR else x[i]
  {
    hide Covered; hide EmitPoint;
    var x := seen + chunk;
    var m := EmitPoint(patterns, |seen|);
    assert x[m..] == seen[m..] + chunk;
    CoveredInSuffix(x, m, patterns, i);
    if i < m {
      NothingBefore(x[m..], patterns, i - m);
    } else {
      assert Feed(patterns, seen, chunk)[i] == Redact(x[m..], patterns)[i - m];
    }
  }

  lemma NothingBefore(s: Bytes, patterns: seq<Bytes>, i: int)
    requires i < 0
    ensures !Covered(s, patterns, i)
  {
  }

  lemma StarredExtension(seen: Bytes, body: Bytes, chunk: Bytes, patterns: seq<Bytes>)
    requires Starred(seen, body, patterns)
    ensures Starred(seen + chunk, body + chunk, patterns)
  {
    forall i | 0 <= i < |seen| && seen[i] != body[i] ensures Covered(body + chunk, patterns, i) {
      CoveredInExtension(body, body + chunk, patterns, i);
    }
  }

  /** Only stars, and only where the whole body would be starred. */
  lemma FeedStarred(patterns: seq<Bytes>, seen: Bytes, body: Bytes, chunk: Bytes)
    requires NoStars(patterns) && Starred(seen, body, patterns)
    ensures Starred(Feed(patterns, seen, chunk), body + chunk, patterns)
  {
    hide Feed;
    StarredExtension(seen, body, chunk, patterns);
    var x, m := seen + chunk, EmitPoint(patterns, |seen|);
    forall i: nat | i < |x|
      ensures var r := Feed(patterns, seen, chunk);
              r[i] == (body + chunk)[i] || (r[i] == STAR && Covered(body + chunk, patterns, i))
    {
      FeedAt(patterns, seen, chunk, i);
      if exists j, t :: t >= m && At(x, patterns, j, t, i) {
        var j, t :| t >= m && At(x, patterns, j, t, i);
        OccursInBody(x, body + chunk, patterns, j, t);
        assert At(body + chunk, patterns, j, t, i);
      }
    }
  }

  /** An occurrence that starts before the retained tail was complete before the chunk. */
  lemma EarlyIsComplete(patterns: seq<Bytes>, n: nat, j: int, t: int)
    requires 0 <= j < |patterns| && 0 <= t < EmitPoint(patterns, n)
    ensures t + |patterns[j]| <= n
  {
    assert |patterns[j]| - 1 <= Retained(patterns);
  }

  /** No occurrence is left standing, across any chunk edge. */
  lemma FeedClean(patterns: seq<Bytes>, seen: Bytes, chunk: Bytes)
    requires NoStars(patterns) && Clean(seen, patterns)
    ensures Clean(Feed(patterns, seen, chunk), patterns)
  {
    hide Feed;
    var x, m, r := seen + chunk, EmitPoint(patterns, |seen|), Feed(patterns, seen, chunk);
    forall j, t | 0 <= j < |patterns| ensures !Occurs(r, patterns[j], t) {
      if Occurs(r, patterns[j], t) {
        Unstarred(patterns, seen, chunk, j, t);
        if t >= m {
          assert At(x, patterns, j, t, t);
          FeedAt(patterns, seen, chunk, t);
        } else {
          EarlyIsComplete(patterns, |seen|, j, t);
          OccursInExtension(seen, x, patterns[j], t);
        }
      }
    }
  }

  /** What stands after a chunk stood before redacting it. */
  lemma Unstarred(patterns: seq<Bytes>, seen: Bytes, chunk: Bytes, j: int, t: int)
    requires NoStars(patterns) && 0 <= j < |patterns| && Occurs(Feed(patterns, seen, chunk), patterns[j], t)
    ensures Occurs(seen + chunk, patterns[j], t)
    ensures Feed(patterns, seen, chunk)[t] != STAR
  {
    hide Feed;
    var r, p := Feed(patterns, seen, chunk), patterns[j];
    forall k | 0 <= k < |p| ensures (seen + chunk)[t + k] == p[k] {
      FeedAt(patterns, seen, chunk, t + k);
      assert r[t + k] == p[k] != STAR;
    }
    assert r[t + 0] == p[0];
  }

  // ---------------------------------------------------------------- every chunking

  lemma {:induction false} ViewSafe(patterns: seq<Bytes>, chunks: seq<Bytes>)
    requires NoStars(patterns)
    ensures Starred(View(patterns, chunks), Concat(chunks), patterns)
    ensures Clean(View(patterns, chunks), patterns)
  {
    if chunks == [] {
    } else {
      hide Feed; hide Starred; hide Clean;
      var front, chunk := chunks[..|chunks| - 1], chunks[|chunks| - 1];
      ViewSafe(patterns, front);
      FeedStarred(patterns, View(patterns, front), Concat(front), chunk);
      FeedClean(patterns, View(patterns, front), chunk);
    }
  }

  /** The last read changes nothing: what was retained was already redacted. */
  lemma OutputIsView(patterns: seq<Bytes>, chunks: seq<Bytes>)
    requires NoStars(patterns)
    ensures Output(patterns, chunks) == View(patterns, chunks)
  {
    ViewSafe(patterns, chunks);
    var seen := View(patterns, chunks);
    forall i: nat | i < |seen| ensures Feed(patterns, seen, [])[i] == seen[i] {
      FeedAt(patterns, seen, [], i);
      assert seen + [] == seen;
    }
  }

  /** For every chunking: the output has the body's length, differs from it only by stars, and
      stars only bytes that whole-body redaction stars; and no secret survives in it. */
  lemma StreamingIsSafe(patterns: seq<Bytes>, chunks: seq<Bytes>)
    requires NoStars(patterns)
    ensures var out, body, whole := Output(patterns, chunks), Concat(chunks), Redact(Concat(chunks), patterns);
            && |out| == |body|
            && (forall i :: 0 <= i < |out| ==> out[i] == body[i] || (out[i] == STAR == whole[i]))
            && Clean(out, patterns)
  {
    ViewSafe(patterns, chunks);
    OutputIsView(patterns, chunks);
  }

  // ---------------------------------------------------------------- when it is exact

  /** Byte i lies in an occurrence that ends by c. */
  ghost predicate EndedAt(body: Bytes, patterns: seq<Bytes>, c: int, i: int) {
    exists j, t :: At(body, patterns, j, t, i) && t + |patterns[j]| <= c
  }

  /** Nothing that ended by c touches the occurrence. */
  ghost predicate Untouched(body: Bytes, patterns: seq<Bytes>, c: int, j: int, t: int)
    requires 0 <= j < |patterns|
  {
    forall i :: t <= i < t + |patterns[j]| ==> !EndedAt(body, patterns, c, i)
  }

  /** Byte i is starred by the time `e` bytes have come in two pieces cut at c. */
  ghost predicate Recovered(body: Bytes, patterns: seq<Bytes>, c: int, e: int, i: int) {
    || EndedAt(body, patterns, c, i)
    || exists j, t :: At(body, patterns, j, t, i) && c < t + |patterns[j]| <= e && Untouched(body, patterns, c, j, t)
  }

  /** The condition on a body: wherever a cut falls, an occurrence that is damaged by stars of
      earlier ones is made up for, byte by byte, by occurrences that are not. */
  ghost predicate CutsRecover(body: Bytes, patterns: seq<Bytes>) {
    forall c, j, t, i :: 0 <= c <= |body| ==> CutRecovers(body, patterns, c, j, t, i)
  }

  /** A cut at c does no lasting damage at byte i of the occurrence of pattern j at t. */
  ghost predicate CutRecovers(body: Bytes, patterns: seq<Bytes>, c: int, j: int, t: int, i: int) {
    At(body, patterns, j, t, i) && c < t + |patterns[j]| ==> Recovered(body, patterns, c, t + |patterns[j]|, i)
  }

  /** What the streaming form promises at every moment: each prefix that has arrived, however
      it was chunked, leaves as whole-buffer redaction of that prefix. */
  ghost predicate ExactForEveryPrefix(body: Bytes, patterns: seq<Bytes>) {
    forall chunks :: Concat(chunks) <= body ==> Output(patterns, chunks) == Redact(Concat(chunks), patterns)
  }

  lemma EndedInPrefix(body: Bytes, patterns: seq<Bytes>, c: nat, i: int)
    requires c <= |body|
    ensures EndedAt(body, patterns, c, i) <==> Covered(body[..c], patterns, i)
  {
    if EndedAt(body, patterns, c, i) {
      var j, t :| At(body, patterns, j, t, i) && t + |patterns[j]| <= c;
      OccursInExtension(body[..c], body, patterns[j], t);
      assert At(body[..c], patterns, j, t, i);
    }
    if Covered(body[..c], patterns, i) {
      var j, t :| At(body[..c], patterns, j, t, i);
      OccursInExtension(body[..c], body, patterns[j], t);
      assert At(body, patterns, j, t, i) && t + |patterns[j]| <= c;
    }
  }

  /** After exact redaction of a prefix, an unfinished occurrence still stands in what follows
      exactly when nothing that ended has touched it. */
  lemma StandsIffUntouched(body: Bytes, patterns: seq<Bytes>, c: nat, n: nat, j: int, t: int)
    requires NoStars(patterns) && c <= n <= |body|
    requires 0 <= j < |patterns| && Occurs(body, patterns[j], t) && c < t + |patterns[j]| <= n
    ensures Occurs(Redact(body[..c], patterns) + body[c..n], patterns[j], t) <==> Untouched(body, patterns, c, j, t)
  {
    var x := Redact(body[..c], patterns) + body[c..n];
    forall i | t <= i < t + |patterns[j]|
      ensures (x[i] == patterns[j][i - t]) <==> !EndedAt(body, patterns, c, i)
    {
      assert body[t + (i - t)] == patterns[j][i - t] != STAR;
      EndedInPrefix(body, patterns, c, i);
      if EndedAt(body, patterns, c, i) { EndedBefore(body, patterns, c, i); }
    }
    if Untouched(body, patterns, c, j, t) {
      forall k | 0 <= k < |patterns[j]| ensures x[t + k] == patterns[j][k] {
        assert !EndedAt(body, patterns, c, t + k);
      }
    }
    if Occurs(x, patterns[j], t) {
      forall i | t <= i < t + |patterns[j]| ensures !EndedAt(body, patterns, c, i) {
        assert x[t + (i - t)] == patterns[j][i - t];
      }
    }
  }

  /** One chunk after an exactly redacted prefix: which bytes are starred. */
  lemma FeedAfterExact(body: Bytes, patterns: seq<Bytes>, c: nat, n: nat, i: nat)
    requires NoStars(patterns) && c <= n <= |body| && i < n
    ensures var r := Feed(patterns, Redact(body[..c], patterns), body[c..n]);
            && r[i] == if Recovered(body, patterns, c, n, i) then STAR else body[i]
  {
    hide Feed;
    var seen := Redact(body[..c], patterns);
    var x, m := seen + body[c..n], EmitPoint(patterns, c);
    FeedAt(patterns, seen, body[c..n], i);
    RedactStarred(body[..c], patterns);
    StarredExtension(seen, body[..c], body[c..n], patterns);
    assert body[..c] + body[c..n] == body[..n];
    EndedInPrefix(body, patterns, c, i);
    if exists j, t :: t >= m && At(x, patterns, j, t, i) {
      var j, t :| t >= m && At(x, patterns, j, t, i);
      OccursInBody(x, body[..n], patterns, j, t);
      OccursInExtension(body[..n], body, patterns[j], t);
      if t + |patterns[j]| > c {
        StandsIffUntouched(body, patterns, c, n, j, t);
        assert At(body, patterns, j, t, i) && c < t + |patterns[j]| <= n;
      } else {
        assert At(body, patterns, j, t, i) && t + |patterns[j]| <= c;
      }
      assert Recovered(body, patterns, c, n, i);
    } else {
      if EndedAt(body, patterns, c, i) { EndedBefore(body, patterns, c, i); }
      if Recovered(body, patterns, c, n, i) && !EndedAt(body, patterns, c, i) {
        RecoveredStands(body, patterns, c, n, i);
      }
    }
  }

  lemma RecoveredStands(body: Bytes, patterns: seq<Bytes>, c: nat, n: nat, i: nat)
    requires NoStars(patterns) && c <= n <= |body| && i < n
    requires Recovered(body, patterns, c, n, i) && !EndedAt(body, patterns, c, i)
    ensures exists j, t :: t >= EmitPoint(patterns, c) && At(Redact(body[..c], patterns) + body[c..n], patterns, j, t, i)
  {
    var j, t :| At(body, patterns, j, t, i) && c < t + |patterns[j]| <= n && Untouched(body, patterns, c, j, t);
    StandsIffUntouched(body, patterns, c, n, j, t);
    if t < EmitPoint(patterns, c) { EarlyIsComplete(patterns, c, j, t); }
    assert At(Redact(body[..c], patterns) + body[c..n], patterns, j, t, i);
  }

  lemma EndedBefore(body: Bytes, patterns: seq<Bytes>, c: int, i: int)
    requires EndedAt(body, patterns, c, i)
    ensures 0 <= i < c
  {
  }

  lemma RedactStarred(body: Bytes, patterns: seq<Bytes>)
    ensures Starred(Redact(body, patterns), body, patterns)
  {
  }

  lemma RecoveredMonotone(body: Bytes, patterns: seq<Bytes>, c: int, e: int, n: int, i: int)
    requires Recovered(body, patterns, c, e, i) && e <= n
    ensures Recovered(body, patterns, c, n, i)
  {
    if !EndedAt(body, patterns, c, i) {
      var j, t :| At(body, patterns, j, t, i) && c < t + |patterns[j]| <= e && Untouched(body, patterns, c, j, t);
      assert At(body, patterns, j, t, i) && c < t + |patterns[j]| <= n;
    }
  }

  /** Under the condition a cut loses nothing. */
  lemma RecoveredIffEnded(body: Bytes, patterns: seq<Bytes>, c: nat, n: nat, i: int)
    requires CutsRecover(body, patterns) && c <= n <= |body|
    ensures Recovered(body, patterns, c, n, i) <==> EndedAt(body, patterns, n, i)
  {
    if EndedAt(body, patterns, n, i) {
      var j, t :| At(body, patterns, j, t, i) && t + |patterns[j]| <= n;
      if t + |patterns[j]| <= c {
        assert EndedAt(body, patterns, c, i);
      } else {
        assert CutRecovers(body, patterns, c, j, t, i);
        RecoveredMonotone(body, patterns, c, t + |patterns[j]|, n, i);
      }
    }
    if EndedAt(body, patterns, c, i) {
      var j, t :| At(body, patterns, j, t, i) && t + |patterns[j]| <= c;
      assert t + |patterns[j]| <= n;
    }
  }

  lemma {:induction false} ViewExact(body: Bytes, patterns: seq<Bytes>, chunks: seq<Bytes>)
    requires NoStars(patterns) && CutsRecover(body, patterns) && Concat(chunks) <= body
    ensures View(patterns, chunks) == Redact(Concat(chunks), patterns)
  {
    if chunks == [] {
    } else {
      hide Feed; hide CutsRecover; hide Recovered;
      var front, chunk := chunks[..|chunks| - 1], chunks[|chunks| - 1];
      var c, n := |Concat(front)|, |Concat(chunks)|;
      assert Concat(front) <= body;
      ViewExact(body, patterns, front);
      assert Concat(front) == body[..c] && chunk == body[c..n] && Concat(chunks) == body[..n];
      var r, whole := View(patterns, chunks), Redact(body[..n], patterns);
      forall i: nat | i < n ensures r[i] == whole[i] {
        FeedAfterExact(body, patterns, c, n, i);
        RecoveredIffEnded(body, patterns, c, n, i);
        EndedInPrefix(body, patterns, n, i);
      }
    }
  }

  lemma FirstFeed(patterns: seq<Bytes>, chunk: Bytes)
    ensures Feed(patterns, [], chunk) == Redact(chunk, patterns)
  {
    var none: Bytes := [];
    assert EmitPoint(patterns, 0) == 0;
    assert none[0..] + chunk == chunk;
  }

  lemma OneCut(body: Bytes, patterns: seq<Bytes>, c: nat, e: nat)
    requires c <= e <= |body|
    ensures Concat([body[..c], body[c..e]]) == body[..e]
    ensures View(patterns, [body[..c], body[c..e]]) == Feed(patterns, Redact(body[..c], patterns), body[c..e])
  {
    hide Feed; hide Redact;
    FirstFeed(patterns, body[..c]);
    ViewSnoc(patterns, [], body[..c]);
    ViewSnoc(patterns, [body[..c]], body[c..e]);
    ConcatSnoc([], body[..c]);
    ConcatSnoc([body[..c]], body[c..e]);
    assert [] + [body[..c]] == [body[..c]] && [body[..c]] + [body[c..e]] == [body[..c], body[c..e]];
  }

  lemma ConcatSnoc(chunks: seq<Bytes>, chunk: Bytes)
    ensures Concat(chunks + [chunk]) == Concat(chunks) + chunk
  {
    assert (chunks + [chunk])[..|chunks|] == chunks;
  }

  /** The streaming form equals the whole-buffer form on every prefix that has arrived, under
      every chunking, exactly when cuts recover. */
  lemma ExactIffCutsRecover(body: Bytes, patterns: seq<Bytes>)
    requires NoStars(patterns)
    ensures ExactForEveryPrefix(body, patterns) <==> CutsRecover(body, patterns)
  {
    if CutsRecover(body, patterns) {
      forall chunks | Concat(chunks) <= body ensures Output(patterns, chunks) == Redact(Concat(chunks), patterns) {
        ViewExact(body, patterns, chunks);
        OutputIsView(patterns, chunks);
      }
    }
    if ExactForEveryPrefix(body, patterns) {
      forall c, j, t, i | 0 <= c <= |body| ensures CutRecovers(body, patterns, c, j, t, i) {
        if At(body, patterns, j, t, i) && c < t + |patterns[j]| { ExactMeansRecovered(body, patterns, c, j, t, i); }
      }
    }
  }

  lemma ExactMeansRecovered(body: Bytes, patterns: seq<Bytes>, c: nat, j: int, t: int, i: int)
    requires NoStars(patterns) && ExactForEveryPrefix(body, patterns)
    requires At(body, patterns, j, t, i) && c < t + |patterns[j]|
    ensures Recovered(body, patterns, c, t + |patterns[j]|, i)
  {
    hide Feed; hide Recovered; hide Output; hide View; hide Concat;
    var e := t + |patterns[j]|;
    var chunks := [body[..c], body[c..e]];
    OneCut(body, patterns, c, e);
    OutputIsView(patterns, chunks);
    FeedAfterExact(body, patterns, c, e, i);
    EndedInPrefix(body, patterns, e, i);
    assert EndedAt(body, patterns, e, i);
    assert body[t + (i - t)] == patterns[j][i - t] != STAR;
  }

  /** Two occurrences that share a byte end at the same place. */
  ghost predicate OverlapsEndTogether(body: Bytes, patterns: seq<Bytes>) {
    forall j, t, j', t', i :: At(body, patterns, j, t, i) && At(body, patterns, j', t', i) ==>
      t + |patterns[j]| == t' + |patterns[j']|
  }

  /** So streaming is exact, on the body and all of its prefixes, whenever no two occurrences
      overlap, or only suffixes of one another do. */
  lemma ExactWithoutOverlap(body: Bytes, patterns: seq<Bytes>)
    requires NoStars(patterns) && OverlapsEndTogether(body, patterns)
    ensures ExactForEveryPrefix(body, patterns)
  {
    forall c, j, t, i | 0 <= c <= |body| && At(body, patterns, j, t, i) && c < t + |patterns[j]|
      ensures CutRecovers(body, patterns, c, j, t, i)
    {
      forall k | t <= k < t + |patterns[j]| ensures !EndedAt(body, patterns, c, k) {
        assert At(body, patterns, j, t, k);
      }
      assert Untouched(body, patterns, c, j, t);
    }
    assert CutsRecover(body, patterns);
    ExactIffCutsRecover(body, patterns);
  }

  /** Overlap is not enough to lose a star everywhere, but it can: with the secrets ab and bc,
      the body abc cut after ab leaves its c in the clear. */
  lemma OverlapLeaksAByte()
    ensures var patterns, chunks := [[97, 98], [98, 99]], [[97, 98], [99]];
            && NoStars(patterns)
            && Redact(Concat(chunks), patterns)[2] == STAR
            && |Output(patterns, chunks)| == 3 && Output(patterns, chunks)[2] == 99
  {
    hide Feed; hide View; hide Output;
    var patterns: seq<Bytes>, body: Bytes := [[97, 98], [98, 99]], [97, 98, 99];
    var chunks: seq<Bytes> := [[97, 98], [99]];
    assert body[..2] == [97, 98] && body[2..3] == [99] && body[..3] == body;
    OneCut(body, patterns, 2, 3);
    ViewSafe(patterns, chunks);
    OutputIsView(patterns, chunks);
    assert At(body, patterns, 1, 1, 2);
    FeedAfterExact(body, patterns, 2, 3, 2);
    assert At(body, patterns, 0, 0, 1);
    assert EndedAt(body, patterns, 2, 1);
    assert !Untouched(body, patterns, 2, 1, 1);
    forall j, t | At(body, patterns, j, t, 2) ensures j == 1 && t == 1 { assert body[t] == patterns[j][0]; }
    if EndedAt(body, patterns, 2, 2) { EndedBefore(body, patterns, 2, 2); }
  }
}
