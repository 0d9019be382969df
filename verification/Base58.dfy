/** The two base58 decoders of the repository: the in-place byte carries of
    app/community-indexer.ts and the big integer of scripts/create-setup-lut.ts. */
module Base58 {
  import opened Arith
  import opened Basics
  import opened Positional

  const ALPHABET: string := "123456789ABCDEFGHJKLMNPQRSTUV" + "WXYZabcdefghijkmnopqrstuvwxyz"

  function IndexOf(s: string, c: char): (i: int)
    ensures i == -1 <==> c !in s
    ensures i != -1 ==> 0 <= i < |s| && s[i] == c && c !in s[..i]
  {
    if s == "" then -1
    else if s[0] == c then 0
    else
      var i := IndexOf(s[1..], c);
      if i == -1 then -1 else i + 1
  }

  /** `BASE58.indexOf(c)`, by the alphabet's six runs of consecutive characters; DigitIsIndex
      shows it is that index. */
  function DigitOf(c: char): (d: int)
    ensures -1 <= d < 58
  {
    if '1' <= c <= '9' then c as int - '1' as int
    else if 'A' <= c <= 'H' then c as int - 'A' as int + 9
    else if 'J' <= c <= 'N' then c as int - 'J' as int + 17
    else if 'P' <= c <= 'Z' then c as int - 'P' as int + 22
    else if 'a' <= c <= 'k' then c as int - 'a' as int + 33
    else if 'm' <= c <= 'z' then c as int - 'm' as int + 44
    else -1
  }

  function CharacterOf(d: nat): (c: char)
    requires d < 58
    ensures DigitOf(c) == d
  {
    if d < 9 then '1' + d as char
    else if d < 17 then 'A' + (d - 9) as char
    else if d < 22 then 'J' + (d - 17) as char
    else if d < 33 then 'P' + (d - 22) as char
    else if d < 44 then 'a' + (d - 33) as char
    else 'm' + (d - 44) as char
  }

  lemma AlphabetAt(d: nat)
    requires d < 58
    ensures |ALPHABET| == 58 && ALPHABET[d] == CharacterOf(d)
  {
    if
    case d < 9 =>
    case 9 <= d < 17 =>
    case 17 <= d < 22 =>
    case 22 <= d < 33 =>
    case 33 <= d < 44 =>
    case 44 <= d =>
  }

  lemma RunsAreIndexes(alphabet: string, c: char)
    requires |alphabet| == 58 && forall d :: 0 <= d < 58 ==> alphabet[d] == CharacterOf(d)
    ensures IndexOf(alphabet, c) == DigitOf(c)
  {
    var d := DigitOf(c);
    if d >= 0 {
      assert CharacterOf(d) == c;
      assert alphabet[d] == c;
    }
  }

  lemma DigitIsIndex(c: char)
    ensures DigitOf(c) == IndexOf(ALPHABET, c)
  {
    forall d | 0 <= d < 58 ensures |ALPHABET| == 58 && ALPHABET[d] == CharacterOf(d) { AlphabetAt(d); }
    AlphabetAt(0);
    RunsAreIndexes(ALPHABET, c);
  }

  predicate Valid(s: string) {
    forall i :: 0 <= i < |s| ==> DigitOf(s[i]) >= 0
  }

  function DigitsOf(s: string): (r: seq<nat>)
    requires Valid(s)
    ensures |r| == |s| && AreDigits(58, r)
    ensures forall i :: 0 <= i < |s| ==> r[i] == DigitOf(s[i])
  {
    seq(|s|, i requires 0 <= i < |s| => DigitOf(s[i]))
  }

  /** What both decoders must compute. None is the thrown error. */
  function Decode(s: string): Option<seq<byte>> {
    if Valid(s) then Some(Convert(58, 256, DigitsOf(s))) else None
  }

  /** The standard encoder. */
  function Encode(bytes: seq<byte>): (s: string) {
    var digits := Convert(256, 58, bytes);
    seq(|digits|, i requires 0 <= i < |digits| => CharacterOf(digits[i]))
  }

  /** Decoding inverts the standard encoder on every byte string. */
  lemma DecodeEncode(bytes: seq<byte>)
    ensures Decode(Encode(bytes)) == Some(bytes)
  {
    assert DigitsOf(Encode(bytes)) == Convert(256, 58, bytes);
    ConvertRoundTrip(256, 58, bytes);
  }

  /** Encoding inverts the decoders: every string over the alphabet is the encoding of what
      it decodes to, so no two strings decode alike. */
  lemma EncodeDecode(s: string)
    requires Valid(s)
    ensures Encode(Decode(s).value) == s
  {
    ConvertRoundTrip(58, 256, DigitsOf(s));
    forall i | 0 <= i < |s| ensures CharacterOf(DigitOf(s[i])) == s[i] { }
  }

  /** The alphabet is the digits and letters in ASCII order without 0, O, I and l: which characters
      count and that digits follow that order leave no other alphabet. */
  lemma AlphabetIsBase58(c: char, c': char)
    ensures DigitOf(c) >= 0 <==>
            ('0' <= c <= '9' || 'A' <= c <= 'Z' || 'a' <= c <= 'z') && c !in "0OIl"
    ensures DigitOf(c) >= 0 && DigitOf(c') >= 0 ==> (DigitOf(c) < DigitOf(c') <==> c < c')
  {
    assert c in "0OIl" <==> c == '0' || c == 'O' || c == 'I' || c == 'l';
  }

  // ---------------------------------------------------------------- in-place carries

  /** No surplus high byte: the representation the carry loop keeps. */
  predicate Canonical(le: seq<nat>) {
    le != [] && (le == [0] || le[|le| - 1] != 0)
  }

  /** 58 * s + carry, least significant byte first: what one pass over the array leaves. */
  function MulAdd(s: seq<byte>, carry: nat): seq<byte> {
    if s != [] then [(s[0] * 58 + carry) % 256] + MulAdd(s[1..], (s[0] * 58 + carry) / 256)
    else if carry > 0 then [carry % 256] + MulAdd([], carry / 256)
    else []
  }

  lemma {:induction false} MulAddValue(s: seq<byte>, carry: nat)
    ensures ValueLE(256, MulAdd(s, carry)) == 58 * ValueLE(256, s) + carry
    decreases |s|, carry
  {
    if s != [] {
      var next := s[0] * 58 + carry;
      MulAddValue(s[1..], next / 256);
      assert MulAdd(s, carry)[1..] == MulAdd(s[1..], next / 256);
    } else if carry > 0 {
      MulAddValue([], carry / 256);
      assert MulAdd(s, carry)[1..] == MulAdd([], carry / 256);
    }
  }

  lemma {:induction false} MulAddCanonical(s: seq<byte>, carry: nat)
    requires Canonical(s) && s != [0]
    ensures var r := MulAdd(s, carry); r != [] && r[|r| - 1] != 0
    decreases |s|
  {
    var next := s[0] * 58 + carry;
    if |s| > 1 {
      assert s[1..] != [0];
      MulAddCanonical(s[1..], next / 256);
    } else {
      CarryBytesCanonical(next / 256);
    }
  }

  lemma {:induction false} CarryBytesCanonical(carry: nat)
    ensures var r := MulAdd([], carry); r != [] ==> r[|r| - 1] != 0
    ensures carry > 0 ==> MulAdd([], carry) != []
  {
    if carry == 0 {
    } else {
      CarryBytesCanonical(carry / 256);
    }
  }

  lemma MulAddStep(done: seq<byte>, rest: seq<byte>, carry: nat)
    requires rest != []
    ensures var next := rest[0] * 58 + carry;
            done + MulAdd(rest, carry) == (done + [next % 256]) + MulAdd(rest[1..], next / 256)
  {
  }

  lemma PushStep(done: seq<byte>, carry: nat)
    requires carry > 0
    ensures done + MulAdd([], carry) == (done + [carry % 256]) + MulAdd([], carry / 256)
  {
  }

  lemma MulAddResult(s: seq<byte>, digit: nat)
    requires Canonical(s) && digit < 58
    ensures Canonical(MulAdd(s, digit))
    ensures ValueLE(256, MulAdd(s, digit)) == ValueLE(256, s) * 58 + digit
  {
    MulAddValue(s, digit);
    if s == [0] {
      assert MulAdd([], 0) == [];
      assert MulAdd(s, digit) == [digit];
    } else {
      MulAddCanonical(s, digit);
    }
  }

  /** One base58 character multiplied into the little-endian byte array. */
  method MultiplyIn(le0: seq<byte>, digit: nat) returns (le: seq<byte>)
    requires Canonical(le0) && digit < 58
    ensures Canonical(le)
    ensures ValueLE(256, le) == ValueLE(256, le0) * 58 + digit
  {
    le := le0;
    var carry: nat := digit;
    for index := 0 to |le|
      invariant |le| == |le0| && le[index..] == le0[index..]
      invariant carry < 58
      invariant le[..index] + MulAdd(le0[index..], carry) == MulAdd(le0, digit)
    {
      var next: nat := le[index] * 58 + carry;
      assert le[index] == le[index..][0] == le0[index..][0];
      assert le0[index..][1..] == le0[index + 1..];
      MulAddStep(le[..index], le0[index..], carry);
      var low: byte := next % 256;
      ghost var before := le;
      le := le[index := low];
      assert le[..index + 1] == before[..index] + [low];
      carry := next / 256;
    }
    assert le[..|le|] == le && le0[|le0|..] == [];
    while carry > 0
      invariant le + MulAdd([], carry) == MulAdd(le0, digit)
    {
      PushStep(le, carry);
      var low: byte := carry % 256;
      le := le + [low];
      carry := carry / 256;
    }
    assert le == MulAdd(le0, digit);
    MulAddResult(le0, digit);
  }

  method DecodeCarry(value: string) returns (r: Option<seq<byte>>)
    ensures r == Decode(value)
  {
    hide Convert; hide Reverse; hide LeadingZeros;
    if value == "" {
      EmptyConverts();
      return Some([]);
    }
    var littleEndian: seq<byte> := [0];
    for k := 0 to |value|
      invariant Valid(value[..k])
      invariant Canonical(littleEndian)
      invariant ValueLE(256, littleEndian) == Value(58, DigitsOf(value[..k]))
    {
      var digit := DigitOf(value[k]);
      if digit < 0 { return None; }
      littleEndian := MultiplyIn(littleEndian, digit);
      assert DigitsOf(value[..k + 1]) == DigitsOf(value[..k]) + [digit];
    }
    assert value[..|value|] == value;
    var leadingZeroes := 0;
    while leadingZeroes < |value| - 1 && value[leadingZeroes] == '1'
      invariant leadingZeroes <= |value| - 1
      invariant forall i :: 0 <= i < leadingZeroes ==> value[i] == '1'
    {
      leadingZeroes := leadingZeroes + 1;
    }
    CarryResult(DigitsOf(value), littleEndian, leadingZeroes);
    r := Some(Zeros(leadingZeroes) + Reverse(littleEndian));
  }

  lemma EmptyConverts()
    ensures Convert(58, 256, []) == []
  {
  }

  /** The carry loop keeps one zero byte for the number zero, which stands in for the last
      leading one of an all-ones string. */
  lemma CarryResult(digits: seq<nat>, le: seq<byte>, n: nat)
    requires digits != [] && Canonical(le)
    requires ValueLE(256, le) == Value(58, digits)
    requires n <= |digits| - 1
    requires forall i :: 0 <= i < n ==> digits[i] == 0
    requires n < |digits| - 1 ==> digits[n] != 0
    ensures Zeros(n) + Reverse(le) == Convert(58, 256, digits)
  {
    var k := LeadingZeros(digits);
    LeadingZerosSplit(digits);
    ValueZeros(58, k, digits[k..]);
    if k == |digits| {
      assert n == |digits| - 1;
      ZeroBytes(le);
      assert Zeros(n) + [0] == Zeros(k) + Digits(256, 0);
    } else {
      assert k == n;
      ValuePositive(58, digits[k..]);
      NonZeroBytes(le);
    }
  }

  lemma ZeroBytes(le: seq<byte>)
    requires Canonical(le) && ValueLE(256, le) == 0
    ensures Reverse(le) == [0] && Digits(256, 0) == []
  {
    ValueReverse(256, le);
    if le != [0] { ValuePositive(256, Reverse(le)); }
  }

  lemma NonZeroBytes(le: seq<byte>)
    requires Canonical(le) && ValueLE(256, le) > 0
    ensures Reverse(le) == Digits(256, ValueLE(256, le))
  {
    ValueReverse(256, le);
    assert le != [0];
    DigitsUnique(256, Reverse(le));
  }

  // ---------------------------------------------------------------- big integer

  method Accumulate(value: string) returns (number: Option<nat>)
    ensures number == if Valid(value) then Some(Value(58, DigitsOf(value))) else None
  {
    var sum: nat := 0;
    for k := 0 to |value|
      invariant Valid(value[..k])
      invariant sum == Value(58, DigitsOf(value[..k]))
    {
      var digit := DigitOf(value[k]);
      if digit < 0 { return None; }
      ValueSnoc(58, DigitsOf(value[..k]), digit);
      sum := sum * 58 + digit;
      assert DigitsOf(value[..k + 1]) == DigitsOf(value[..k]) + [digit];
    }
    assert value[..|value|] == value;
    number := Some(sum);
  }

  method BigEndianBytes(whole: nat) returns (bytes: seq<byte>)
    ensures bytes == Digits(256, whole)
  {
    bytes := [];
    var number := whole;
    while number > 0
      invariant Digits(256, whole) == Digits(256, number) + Reverse(bytes)
    {
      ReverseSnoc(bytes, number % 256);
      var low: byte := number % 256;
      bytes := bytes + [low];
      number := number / 256;
    }
    bytes := Reverse(bytes);
  }

  method DecodeBigInteger(value: string) returns (r: Option<seq<byte>>)
    ensures r == Decode(value)
  {
    hide Digits; hide Value;
    var number := Accumulate(value);
    if number == None { return None; }
    var bytes := BigEndianBytes(number.value);
    var index := 0;
    while index < |value| && value[index] == '1'
      invariant index <= |value|
      invariant forall i :: 0 <= i < index ==> value[i] == '1'
      invariant bytes == Zeros(index) + Digits(256, number.value)
    {
      bytes := [0] + bytes;
      index := index + 1;
    }
    assert index == LeadingZeros(DigitsOf(value));
    r := Some(bytes);
  }
}
