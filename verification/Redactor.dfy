/** Secret redaction of app/worker.ts: the whole-buffer form, and the chunked form that keeps
    the tail of what it has seen, already redacted, between two reads. */
module Redactor {
  import opened Basics

  const STAR: byte := 0x2a

  type Bytes = seq<byte>

  /** The pattern stands in s at position t. */
  predicate Occurs(s: Bytes, p: Bytes, t: int) {
    p != [] && 0 <= t && t + |p| <= |s| && forall k :: 0 <= k < |p| ==> s[t + k] == p[k]
  }

  /** Position i lies in the occurrence of pattern j at t. */
  predicate At(s: Bytes, patterns: seq<Bytes>, j: int, t: int, i: int) {
    0 <= j < |patterns| && Occurs(s, patterns[j], t) && t <= i < t + |patterns[j]|
  }

  ghost predicate Covered(s: Bytes, patterns: seq<Bytes>, i: int) {
    exists j, t :: At(s, patterns, j, t, i)
  }

  /** Every byte of every occurrence becomes a star; everything else stays. */
  ghost function Redact(s: Bytes, patterns: seq<Bytes>): (r: Bytes)
    ensures |r| == |s|
    ensures forall i :: 0 <= i < |s| ==> r[i] == if Covered(s, patterns, i) then STAR else s[i]
  {
    seq(|s|, i requires 0 <= i < |s| => if Covered(s, patterns, i) then STAR else s[i])
  }

  method RedactBytes(input: Bytes, patterns: seq<Bytes>) returns (result: Bytes)
    ensures result == Redact(input, patterns)
  {
    var output := new byte[|input|](i requires 0 <= i < |input| => input[i]);
    for n := 0 to |patterns|
      invariant forall i :: 0 <= i < |input| ==>
        output[i] == if Covered(input, patterns[..n], i) then STAR else input[i]
    {
      var pattern := patterns[n];
      RedactOne(input, pattern, output);
      forall i | 0 <= i < |input|
        ensures Covered(input, patterns[..n + 1], i) <==> Covered(input, patterns[..n], i) || CoveredByOne(input, pattern, |input|, i)
      {
        OneMore(input, patterns, n, i);
      }
    }
    assert patterns[..|patterns|] == patterns;
    result := output[..];
  }

  ghost predicate CoveredByOne(s: Bytes, p: Bytes, before: int, i: int) {
    exists t :: 0 <= t < before && Occurs(s, p, t) && t <= i < t + |p|
  }

  lemma OneMore(s: Bytes, patterns: seq<Bytes>, n: nat, i: int)
    requires n < |patterns|
    ensures Covered(s, patterns[..n + 1], i) <==> Covered(s, patterns[..n], i) || CoveredByOne(s, patterns[n], |s|, i)
  {
    if Covered(s, patterns[..n + 1], i) {
      var j, t :| At(s, patterns[..n + 1], j, t, i);
      if j < n { assert At(s, patterns[..n], j, t, i); }
    }
    if Covered(s, patterns[..n], i) {
      var j, t :| At(s, patterns[..n], j, t, i);
      assert At(s, patterns[..n + 1], j, t, i);
    }
    if CoveredByOne(s, patterns[n], |s|, i) {
      var t :| 0 <= t < |s| && Occurs(s, patterns[n], t) && t <= i < t + |patterns[n]|;
      assert At(s, patterns[..n + 1], n, t, i);
    }
  }

  lemma OneLater(s: Bytes, p: Bytes, start: nat, i: int)
    ensures CoveredByOne(s, p, start + 1, i)
       <==> CoveredByOne(s, p, start, i) || (Occurs(s, p, start) && start <= i < start + |p|)
  {
  }

  /** The inner scan: stars over every occurrence of one pattern in the input. */
  method RedactOne(input: Bytes, pattern: Bytes, output: array<byte>)
    requires output.Length == |input|
    modifies output
    ensures forall i :: 0 <= i < |input| ==>
      output[i] == if CoveredByOne(input, pattern, |input|, i) then STAR else old(output[i])
  {
    if pattern == [] || |pattern| > |input| { return; }
    var start := 0;
    while start <= |input| - |pattern|
      invariant 0 <= start <= |input| - |pattern| + 1
      invariant forall i :: 0 <= i < |input| ==>
        output[i] == if CoveredByOne(input, pattern, start, i) then STAR else old(output[i])
    {
      var offset := 0;
      while offset < |pattern| && input[start + offset] == pattern[offset]
        invariant 0 <= offset <= |pattern|
        invariant forall k :: 0 <= k < offset ==> input[start + k] == pattern[k]
      {
        offset := offset + 1;
      }
      forall i | 0 <= i < |input|
        ensures CoveredByOne(input, pattern, start + 1, i)
           <==> CoveredByOne(input, pattern, start, i) || (Occurs(input, pattern, start) && start <= i < start + |pattern|)
      {
        OneLater(input, pattern, start, i);
      }
      assert Occurs(input, pattern, start) <==> offset == |pattern|;
      if offset == |pattern| {
        forall i | start <= i < start + |pattern| { output[i] := STAR; }
      }
      start := start + 1;
    }
  }

  // ---------------------------------------------------------------- streaming

  function Max(a: int, b: int): int { if a > b then a else b }

  /** One byte less than the longest pattern. */
  function Retained(patterns: seq<Bytes>): (r: nat)
    ensures forall j :: 0 <= j < |patterns| ==> |patterns[j]| - 1 <= r
  {
    if patterns == [] then 0 else Max(|patterns[0]| - 1, Retained(patterns[1..]))
  }

  /** How much of n bytes seen has been handed on. */
  function EmitPoint(patterns: seq<Bytes>, n: nat): (m: nat)
    ensures m <= n
  {
    Max(0, n - Retained(patterns))
  }

  /** All bytes seen so far as they will leave, redacted chunk by chunk. */
  ghost function View(patterns: seq<Bytes>, chunks: seq<Bytes>): Bytes {
    if chunks == [] then [] else Feed(patterns, View(patterns, chunks[..|chunks| - 1]), chunks[|chunks| - 1])
  }

  /** One chunk: what was handed on stays, the retained tail and the chunk are redacted. */
  ghost function Feed(patterns: seq<Bytes>, seen: Bytes, chunk: Bytes): (r: Bytes)
    ensures |r| == |seen| + |chunk|
  {
    var m := EmitPoint(patterns, |seen|);
    seen[..m] + Redact(seen[m..] + chunk, patterns)
  }

  /** What the reader of the stream receives in all. */
  ghost function Output(patterns: seq<Bytes>, chunks: seq<Bytes>): Bytes {
    Feed(patterns, View(patterns, chunks), [])
  }

  function Concat(chunks: seq<Bytes>): Bytes {
    if chunks == [] then [] else Concat(chunks[..|chunks| - 1]) + chunks[|chunks| - 1]
  }

  /** What was seen is what was handed on and, behind it, the retained tail. */
  predicate Held(patterns: seq<Bytes>, seen: Bytes, enqueued: Bytes, pending: Bytes) {
    var m := EmitPoint(patterns, |seen|);
    enqueued == seen[..m] && pending == seen[m..]
  }

  lemma NothingSeen(patterns: seq<Bytes>)
    ensures Held(patterns, View(patterns, []), [], [])
  {
    assert View(patterns, []) == [];
  }

  class SafeBody {
    const patterns: seq<Bytes>
    const retainedBytes: nat
    var source: seq<Bytes>        // chunks the upstream reader will deliver
    var pending: Bytes
    var enqueued: Bytes           // everything handed to the reader so far
    var closed: bool
    ghost var read: seq<Bytes>    // chunks already taken from upstream

    ghost predicate Valid()
      reads this
    {
      && retainedBytes == Retained(patterns)
      && if closed then source == [] && enqueued == Output(patterns, read)
         else Held(patterns, View(patterns, read), enqueued, pending)
    }

    constructor (patterns: seq<Bytes>, source: seq<Bytes>)
      ensures Valid() && !closed && read == [] && this.source == source && this.patterns == patterns
    {
      hide View; hide Held; hide Retained; hide Output;
      NothingSeen(patterns);
      this.patterns, this.source := patterns, source;
      retainedBytes := Retained(patterns);
      pending, enqueued, closed, read := [], [], false, [];
    }

    /** One pull: reads until there is something to hand on, or upstream ends. */
    method Pull()
      requires Valid() && !closed
      modifies this
      ensures Valid() && read + source == old(read + source)
      ensures closed ==> source == [] && enqueued == Output(patterns, read)
      ensures !closed ==> |source| < |old(source)| && |old(enqueued)| < |enqueued|
      ensures old(enqueued) <= enqueued
    {
      hide View; hide Held; hide Retained; hide Feed; hide Redact;
      while true
        invariant enqueued == old(enqueued)
        invariant Valid() && !closed && read + source == old(read + source) && |source| <= |old(source)|
        decreases |source|
      {
        if source == [] {
          LastTail(patterns, View(patterns, read), enqueued, pending);
          if pending != [] {
            var last := RedactBytes(pending, patterns);
            enqueued := enqueued + last;
            pending := [];
          }
          closed := true;
          return;
        }
        var chunk := source[0];
        var combined := pending + chunk;
        var redacted := RedactBytes(combined, patterns);
        var emitBytes := Max(0, |combined| - retainedBytes);
        ViewSnoc(patterns, read, chunk);
        FeedHeld(patterns, View(patterns, read), chunk, enqueued, pending);
        assert enqueued + redacted[..0] == enqueued;
        assert read + source == (read + [chunk]) + source[1..];
        read, source := read + [chunk], source[1..];
        pending := redacted[emitBytes..];
        if emitBytes > 0 {
          enqueued := enqueued + redacted[..emitBytes];
          return;
        }
      }
    }
  }

  lemma ViewSnoc(patterns: seq<Bytes>, read: seq<Bytes>, chunk: Bytes)
    ensures View(patterns, read + [chunk]) == Feed(patterns, View(patterns, read), chunk)
  {
    hide Feed;
    assert (read + [chunk])[..|read|] == read;
  }

  lemma FeedHeld(patterns: seq<Bytes>, seen: Bytes, chunk: Bytes, enqueued: Bytes, pending: Bytes)
    requires Held(patterns, seen, enqueued, pending)
    ensures var redacted := Redact(pending + chunk, patterns);
            var emit := Max(0, |pending + chunk| - Retained(patterns));
            Held(patterns, Feed(patterns, seen, chunk), enqueued + redacted[..emit], redacted[emit..])
  {
    hide Redact; hide Retained;
  }

  lemma LastTail(patterns: seq<Bytes>, seen: Bytes, enqueued: Bytes, pending: Bytes)
    requires Held(patterns, seen, enqueued, pending)
    ensures Feed(patterns, seen, []) == enqueued + Redact(pending, patterns)
    ensures pending == [] ==> Redact(pending, patterns) == []
  {
    assert pending + [] == pending;
  }
}
