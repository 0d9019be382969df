/** Positional numbers in an arbitrary base: the arithmetic behind base58, little-endian
    fields, and the conversion between two bases that keeps leading zeros. */
module Positional {
  import opened Arith
  import opened Basics

  function Zeros(n: nat): (r: seq<byte>)
    ensures |r| == n && forall i :: 0 <= i < n ==> r[i] == 0
  {
    seq(n, _ => 0)
  }

  function Reverse(s: seq<nat>): (r: seq<nat>)
    ensures |r| == |s|
    ensures forall i :: 0 <= i < |s| ==> r[i] == s[|s| - 1 - i]
  {
    if s == [] then [] else Reverse(s[1..]) + [s[0]]
  }

  lemma ReverseSnoc(s: seq<nat>, x: nat)
    ensures Reverse(s + [x]) == [x] + Reverse(s)
  {
  }

  predicate AreDigits(b: nat, s: seq<nat>) {
    forall i :: 0 <= i < |s| ==> s[i] < b
  }

  /** The value of a least-significant-first digit string. */
  function ValueLE(b: nat, s: seq<nat>): nat {
    if s == [] then 0 else s[0] + b * ValueLE(b, s[1..])
  }

  /** The value of a most-significant-first digit string. */
  function Value(b: nat, s: seq<nat>): nat {
    if s == [] then 0 else Value(b, s[..|s| - 1]) * b + s[|s| - 1]
  }

  /** The shortest most-significant-first digit string of x. */
  function Digits(b: nat, x: nat): (s: seq<nat>)
    requires b >= 2
  {
    if x == 0 then [] else QuotientSmaller(b, x); Digits(b, x / b) + [x % b]
  }

  lemma QuotientSmaller(b: nat, x: nat)
    requires b >= 2 && x > 0
    ensures x / b < x
  {
    DivAntitone(x, 2, b);
  }

  lemma {:induction false} DigitsSound(b: nat, x: nat)
    requires b >= 2
    ensures var s := Digits(b, x); AreDigits(b, s) && (s != [] ==> s[0] != 0) && Value(b, s) == x
    ensures x > 0 ==> Digits(b, x) != []
  {
    if x == 0 {
    } else {
      QuotientSmaller(b, x);
      DigitsSound(b, x / b);
      ValueSnoc(b, Digits(b, x / b), x % b);
      DivMod(x, b);
    }
  }

  lemma ValueSnoc(b: nat, s: seq<nat>, d: nat)
    ensures Value(b, s + [d]) == Value(b, s) * b + d
  {
    assert (s + [d])[..|s|] == s;
  }

  function LeadingZeros(s: seq<nat>): (n: nat)
    ensures n <= |s|
    ensures forall i :: 0 <= i < n ==> s[i] == 0
    ensures n < |s| ==> s[n] != 0
  {
    if s != [] && s[0] == 0 then 1 + LeadingZeros(s[1..]) else 0
  }

  /** Base conversion as base58 defines it: the number is converted, leading zeros are kept. */
  function Convert(from: nat, to: nat, s: seq<nat>): (r: seq<nat>)
    requires to >= 2
    ensures AreDigits(to, r)
  {
    DigitsSound(to, Value(from, s));
    Zeros(LeadingZeros(s)) + Digits(to, Value(from, s))
  }

  lemma {:induction false} ValueLESnoc(b: nat, s: seq<nat>, d: nat)
    ensures ValueLE(b, s + [d]) == ValueLE(b, s) + d * Pow(b, |s|)
  {
    if s == [] {
      assert ValueLE(b, [d]) == d + b * ValueLE(b, []);
    } else {
      assert (s + [d])[1..] == s[1..] + [d];
      ValueLESnoc(b, s[1..], d);
      assert b * (d * Pow(b, |s| - 1)) == d * Pow(b, |s|);
    }
  }

  lemma {:induction false} ValueReverse(b: nat, s: seq<nat>)
    ensures Value(b, Reverse(s)) == ValueLE(b, s)
  {
    if s == [] {
    } else {
      ValueReverse(b, s[1..]);
      assert Reverse(s)[..|s| - 1] == Reverse(s[1..]);
    }
  }

  lemma {:induction false} ValueZeros(b: nat, n: nat, s: seq<nat>)
    ensures Value(b, Zeros(n) + s) == Value(b, s)
    decreases |s|, n
  {
    var t := Zeros(n) + s;
    if s == [] {
      if n > 0 {
        assert t[..n - 1] == Zeros(n - 1) + s;
        ValueZeros(b, n - 1, s);
      }
    } else {
      assert t[..|t| - 1] == Zeros(n) + s[..|s| - 1];
      ValueZeros(b, n, s[..|s| - 1]);
    }
  }

  lemma {:induction false} ValuePositive(b: nat, s: seq<nat>)
    requires b >= 1 && s != [] && s[0] != 0
    ensures Value(b, s) > 0
  {
    if |s| == 1 {
    } else {
      ValuePositive(b, s[..|s| - 1]);
      MulMono(1, Value(b, s[..|s| - 1]), 1, b);
    }
  }

  /** A number has one digit string without a leading zero. */
  lemma {:induction false} DigitsUnique(b: nat, s: seq<nat>)
    requires b >= 2 && AreDigits(b, s) && (s != [] ==> s[0] != 0)
    ensures Digits(b, Value(b, s)) == s
  {
    if s == [] {
    } else {
      var high, low := s[..|s| - 1], s[|s| - 1];
      ValuePositive(b, s);
      DigitsUnique(b, high);
      LastDigit(b, Value(b, high), low);
      assert s == high + [low];
    }
  }

  lemma LastDigit(b: nat, high: nat, low: nat)
    requires low < b
    ensures (high * b + low) / b == high && (high * b + low) % b == low
  {
    DivUnique(high * b + low, b, high);
    assert high * b + low == b * ((high * b + low) / b) + (high * b + low) % b;
  }

  lemma LeadingZerosSplit(s: seq<nat>)
    ensures s == Zeros(LeadingZeros(s)) + s[LeadingZeros(s)..]
  {
  }

  lemma LeadingZerosOf(n: nat, s: seq<nat>)
    requires s != [] ==> s[0] != 0
    ensures LeadingZeros(Zeros(n) + s) == n
  {
    var t := Zeros(n) + s;
    assert forall i :: 0 <= i < n ==> t[i] == 0;
    assert s != [] ==> t[n] == s[0];
  }

  /** Conversion loses nothing: there and back is the identity on every digit string. */
  lemma ConvertRoundTrip(from: nat, to: nat, s: seq<nat>)
    requires from >= 2 && to >= 2 && AreDigits(from, s)
    ensures Convert(to, from, Convert(from, to, s)) == s
  {
    var n := LeadingZeros(s);
    var rest := s[n..];
    LeadingZerosSplit(s);
    DigitsSound(to, Value(from, s));
    LeadingZerosOf(n, Digits(to, Value(from, s)));
    ValueZeros(to, n, Digits(to, Value(from, s)));
    ValueZeros(from, n, rest);
    DigitsUnique(from, rest);
  }

  // ---------------------------------------------------------------- fixed-width fields

  /** The n least significant digits of x, least significant first. */
  function Field(b: nat, x: nat, n: nat): (s: seq<nat>)
    requires b >= 1
    ensures |s| == n && AreDigits(b, s)
  {
    if n == 0 then [] else [x % b] + Field(b, x / b, n - 1)
  }

  lemma FieldStep(b: nat, x: nat, p: nat)
    requires b >= 1 && x < b * p
    ensures x / b < p
    ensures x % b + b * (x / b) == x
  {
    DivBounds(x, b);
    MulCancelStrict(b, x / b, p);
  }

  lemma {:induction false} ValueOfField(b: nat, x: nat, n: nat)
    requires b >= 1 && x < Pow(b, n)
    ensures ValueLE(b, Field(b, x, n)) == x
  {
    if n == 0 {
    } else {
      FieldStep(b, x, Pow(b, n - 1));
      ValueOfField(b, x / b, n - 1);
      assert Field(b, x, n)[1..] == Field(b, x / b, n - 1);
    }
  }

  lemma {:induction false} FieldOfValue(b: nat, s: seq<nat>)
    requires b >= 1 && AreDigits(b, s)
    ensures ValueLE(b, s) < Pow(b, |s|)
    ensures Field(b, ValueLE(b, s), |s|) == s
  {
    if s == [] {
    } else {
      FieldOfValue(b, s[1..]);
      var v := ValueLE(b, s[1..]);
      MulMono(v + 1, Pow(b, |s| - 1), b, b);
      assert (v + 1) * b == b * v + b;
      LastDigit(b, v, s[0]);
    }
  }
}
