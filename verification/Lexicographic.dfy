/** Dictionary order on code-unit or byte sequences: the order of JavaScript's `<` on strings
    and of Buffer.compare. */
module Lexicographic {

  predicate Less(a: seq<int>, b: seq<int>) {
    if b == [] then false
    else if a == [] then true
    else a[0] < b[0] || (a[0] == b[0] && Less(a[1..], b[1..]))
  }

  lemma {:induction false} Irreflexive(a: seq<int>)
    ensures !Less(a, a)
  {
    if a == [] {
    } else {
      Irreflexive(a[1..]);
    }
  }

  lemma {:induction false} Transitive(a: seq<int>, b: seq<int>, c: seq<int>)
    requires Less(a, b) && Less(b, c)
    ensures Less(a, c)
  {
    if a != [] && a[0] == b[0] == c[0] { Transitive(a[1..], b[1..], c[1..]); }
  }

  lemma {:induction false} Trichotomy(a: seq<int>, b: seq<int>)
    ensures Less(a, b) || a == b || Less(b, a)
  {
    if a != [] && b != [] && a[0] == b[0] {
      Trichotomy(a[1..], b[1..]);
      assert a == [a[0]] + a[1..] && b == [b[0]] + b[1..];
    }
  }

  /** At the first place where they differ, a has the smaller element or has ended. */
  predicate Precedes(a: seq<int>, b: seq<int>) {
    exists n :: 0 <= n <= |a| && n < |b| && a[..n] == b[..n] && (n == |a| || a[n] < b[n])
  }

  lemma {:induction false} LessIsPrecedes(a: seq<int>, b: seq<int>)
    ensures Less(a, b) <==> Precedes(a, b)
  {
    if a == [] || b == [] {
      if b != [] { assert a[..0] == b[..0]; }
    } else {
      hide Precedes;
      LessIsPrecedes(a[1..], b[1..]);
      PrecedesStep(a, b);
    }
  }

  lemma PrecedesStep(a: seq<int>, b: seq<int>)
    requires a != [] && b != []
    ensures Precedes(a, b) <==> a[0] < b[0] || (a[0] == b[0] && Precedes(a[1..], b[1..]))
  {
    if Precedes(a, b) {
      var n :| 0 <= n <= |a| && n < |b| && a[..n] == b[..n] && (n == |a| || a[n] < b[n]);
      if n > 0 {
        assert a[0] == a[..n][0] == b[..n][0] == b[0];
        assert a[1..][..n - 1] == a[..n][1..] == b[..n][1..] == b[1..][..n - 1];
      }
    }
    if a[0] == b[0] && Precedes(a[1..], b[1..]) {
      var n :| 0 <= n <= |a[1..]| && n < |b[1..]| && a[1..][..n] == b[1..][..n] && (n == |a[1..]| || a[1..][n] < b[1..][n]);
      assert a[..n + 1] == [a[0]] + a[1..][..n] == [b[0]] + b[1..][..n] == b[..n + 1];
    }
    if a[0] < b[0] { assert a[..0] == b[..0]; }
  }

  /** The UTF-16 code units of a string. */
  function Codes(s: string): (r: seq<int>)
    ensures |r| == |s|
  {
    seq(|s|, i requires 0 <= i < |s| => s[i] as int)
  }

  lemma CodesInjective(s: string, t: string)
    requires Codes(s) == Codes(t)
    ensures s == t
  {
    forall i | 0 <= i < |s| ensures s[i] == t[i] { assert Codes(s)[i] == Codes(t)[i]; }
  }
}
